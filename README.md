# SRS configuration parser, modelled in Dafny

This project models the configuration reader of the SRS RTMP server
(`trunk/src/core/srs_core_config.cpp`). The reader has four parts:

- **`SrsFileBuffer` and `refill_buffer`.** A 4096-byte window over the
  configuration file, refilled by `read()` once the tokenizer has used up
  the bytes in it.
- **`read_token`.** A byte-level state machine driven by five flags. It
  collects the words of one directive and reports how the directive ended:
  `;`, `{`, `}`, end of file, or an error.
- **`parse_conf` / `parse`.** They build the directive tree. Each directive
  keeps its name, its arguments, the line counter at its terminator, and
  the directives of its `{ ... }` block.
- **`Config`.** It reads the command line (`parse_argv`, `parse_options`),
  parses the configuration tree, requires a `listen` directive, and looks
  up vhosts with a fallback to the default vhost.

Modules:

| module | file | contents |
|---|---|---|
| `ConfLexer` | lexer.dfy | `read_token`'s state machine as pure functions. `Lex` is the reference definition. Lemmas cover terminators, bare words, quoted words, comments and line counting. |
| `ConfTree` | tree.dfy | The directive tree, a `Node` datatype, with `get`, `at` and `arg0`..`arg2`. |
| `ConfBuffer` | buffer.dfy | The `FileBuffer` class: a window `array<char>` of length 4096 with positions `pos` and `last`, over an immutable file image. `Refill` is `refill_buffer`. |
| `ConfParser` | parser.dfy | `read_token` as an imperative loop proved against the lexer. `parse_conf` as a recursive method proved against the pure `ParseItems`. Properties of the parse. |
| `ConfConfig` | config.dfy | The `Config` class: `get_vhost` and its wrappers, `parse_argv`, `parse_options`. |
| `ConfRender` | render.dfy | A renderer for directive trees, the inverse partner of `parse_conf`. The round-trip theorem says a rendered tree parses back to itself, for trees whose names and arguments are plain bare words (non-empty, with no whitespace, `;`, `{` or NUL, and not starting with `}`, `#` or a quote), whose directives all carry the same line, and whose rendering, on one line, fits in one 4096-byte window. |

How the buffer is described:

- The ghost function `FileBuffer.Ahead()` is the sequence of bytes
  `read_token` will still be handed before a refill fails.
- `FileBuffer.Ending()` says how that refill fails: end of file, "too long",
  or a failed `read()`.
- Each imperative method is proved against the pure definitions.
  `ReadToken` returns what `Lex` gives on `Ahead()`. `ParseConf` returns
  what `ParseItems` gives on it.

Where the code differs from its own meaning or from the nginx grammar it
is modelled on, the model follows the code:

- **Directive line.** A directive's line is the line counter when its
  terminator is read, not the line of its first word.
- **`}` inside a bare word.** `}` does not end a bare word, so `a};` is
  the one-word directive `a}`.
- **Empty quoted word.** `""` is an argument, or a name, that is the empty
  string.
- **`}` after a closing quote** is an error.
- **Refill keeps at most one window.** `refill_buffer` measures the bytes
  to keep from the window's start, not from the word's start. So once a
  full 4096-byte window has been used up and bytes remain, every refill
  fails as "too long": a file over 4096 bytes never parses.
  `ConfBuffer.FileBuffer.Refill` reproduces this as written, and
  `ConfParser.ParseFile` states its consequence.
- **The `memmove` never runs.** A window that is neither empty nor full
  holds the whole file. So the `memmove` that keeps a word across a refill
  can never run; `Refill` proves that branch dead.

## Model

| member | source | states |
|---|---|---|
| ConfLexer.CString | trunk/src/core/srs_core_config.cpp:339-344 | Building a std::string from the copied word keeps the prefix before the first NUL. The result has no NUL, and is the whole word when the word has none. |
| ConfLexer.IsCommonSpace | trunk/src/core/srs_core_config.cpp:53-56 | The tokenizer's whitespace (space, tab, CR, LF) includes none of the bytes with a meaning of their own: `;`, `{`, `}`, `#`, `"` and `'`. |
| ConfLexer.AfterByte | trunk/src/core/srs_core_config.cpp:248-253 | Reading a byte counts one line exactly when it is an LF. An LF ends a comment. Nothing else about the state changes. |
| ConfLexer.StepChar | trunk/src/core/srs_core_config.cpp:248-354 | One pass of the loop body. Words are only appended, at most one per byte. The line grows by one exactly on an LF. `}` ends a token only with no words. From a consistent state, `;` and `{` end a token only with words. A step never reports EOF. |
| ConfLexer.StepAfterQuote | trunk/src/core/srs_core_config.cpp:259-273 | After a closing quote, the tokenizer continues exactly on whitespace, going back to between words. `;` and `{` end the token. Any other byte is INVALID. The words are unchanged. |
| ConfLexer.StepBoundary | trunk/src/core/srs_core_config.cpp:276-316 | Between words, whitespace is skipped with nothing changed. Otherwise the start line is set to the current line. The token ends exactly on `;`, `{` or `}`. It is INVALID exactly when `;`/`{` come without words or `}` comes with words. A bare word starts exactly on a byte that may start one, holding that byte. A quote opens an empty quoted word closed by the same quote. |
| ConfLexer.StepQuoted | trunk/src/core/srs_core_config.cpp:318-345 | Inside a quoted word, the token never ends. The matching quote pushes the word and requires a separator next. Every other byte, LF included, is appended to the word. |
| ConfLexer.StepBare | trunk/src/core/srs_core_config.cpp:333-352 | Inside a bare word, a word byte is appended and nothing else changes. Whitespace, `;` or `{` pushes the word and goes back to between words. The token ends exactly on `;` or `{`, with DIRECTIVE or BLOCK_START. |
| ConfLexer.Finish | trunk/src/core/srs_core_config.cpp:240-246 | When refill fails, the token is a clean EOF exactly when no word was collected, the tokenizer is between words, and the file is at its end. Otherwise it is INVALID. The line counter goes back to the token's start line when the window was full. |
| ConfLexer.Lex | trunk/src/core/srs_core_config.cpp:239-355 | The tokenizer loop. EOF only at the real end of the file with no words. `}` never comes with words. `;` or `{` always come with at least one word. Words are only appended. Every outcome but EOF and INVALID consumes at least one byte. |
| ConfLexer.LexCountsLines | trunk/src/core/srs_core_config.cpp:248-253 | Every LF consumed adds one to the line counter, whatever the state: inside quotes, inside comments, between words. This holds for every outcome except the "too long" INVALID, whose line is put back to the start line of the token. |
| ConfLexer.SkipSpaces | trunk/src/core/srs_core_config.cpp:276-279 | Between words, spaces, tabs, CR and LF are skipped, and each LF is counted. |
| ConfLexer.BareWordRun | trunk/src/core/srs_core_config.cpp:333-336 | Inside a bare word, every byte other than whitespace, `;` and `{` is part of the word. This includes `}`, `#` and quotes. |
| ConfLexer.QuotedRun | trunk/src/core/srs_core_config.cpp:321-332 | Inside a quoted word, every byte up to the matching quote is kept verbatim, LFs counted. |
| ConfLexer.CommentRun | trunk/src/core/srs_core_config.cpp:255-257 | Inside a comment, every byte up to the next LF is discarded. |
| ConfLexer.BoundaryTerminator | trunk/src/core/srs_core_config.cpp:282-300 | Between words, after any spaces: `;` and `{` are INVALID with no words, and DIRECTIVE or BLOCK_START with words. `}` is BLOCK_END with no words, and INVALID with words. |
| ConfLexer.EofAtBoundary | trunk/src/core/srs_core_config.cpp:240-246 | Input that runs out between words, after spaces, gives EOF exactly when no words were read and the file has ended. Otherwise it gives INVALID. |
| ConfLexer.EofInsideWord | trunk/src/core/srs_core_config.cpp:240-244 | Input that runs out inside a bare word, a quoted word, or just after a closing quote gives INVALID. |
| ConfLexer.OpenBareWord | trunk/src/core/srs_core_config.cpp:280-281 | A word byte between words starts a bare word at the current line. |
| ConfLexer.CloseBareWord | trunk/src/core/srs_core_config.cpp:333-352 | Whitespace, `;` or `{` closes a bare word and pushes it. `;` and `{` also end the token. |
| ConfLexer.OpenQuote | trunk/src/core/srs_core_config.cpp:304-313 | `"` or `'` between words opens a quoted word that starts after the quote. |
| ConfLexer.CloseQuote | trunk/src/core/srs_core_config.cpp:321-332 | The matching quote closes the word, pushes it, and requires a separator next. |
| ConfLexer.AfterCloseQuote | trunk/src/core/srs_core_config.cpp:259-273 | After a closing quote, whitespace goes back to between words. `;` and `{` end the token. Any other byte, `}` included, is INVALID. |
| ConfLexer.OpenComment | trunk/src/core/srs_core_config.cpp:301-303 | `#` between words starts a comment. |
| ConfLexer.CloseComment | trunk/src/core/srs_core_config.cpp:250-253 | An LF ends a comment and is counted. |
| ConfLexer.BareWordToken | trunk/src/core/srs_core_config.cpp:314-352 | A bare word between words is pushed without its delimiter. With `;` or `{` the call returns DIRECTIVE or BLOCK_START at that line. With whitespace the token goes on. |
| ConfLexer.QuotedWord | trunk/src/core/srs_core_config.cpp:304-332 | A quoted word from quote to matching quote holds exactly the bytes between the quotes. `""` gives the empty word. |
| ConfLexer.QuotedWordToken | trunk/src/core/srs_core_config.cpp:259-273 | After a quoted word, `;` and `{` end the token, whitespace continues it, and any other byte is INVALID with nothing more read. |
| ConfLexer.CommentToken | trunk/src/core/srs_core_config.cpp:250-257 | A `#` between words discards everything up to and including the next LF, which is counted. |
| ConfTree.Node.Get | trunk/src/core/srs_core_config.cpp:137-148 | `get(name)` finds a child exactly when some child has that name, and it finds the first such child. |
| ConfTree.Node.At | trunk/src/core/srs_core_config.cpp:132-135 | `at(i)` is the i-th child, for an index in range. |
| ConfTree.Node.Arg0 | trunk/src/core/srs_core_config.cpp:105-112 | The first argument, or `""` when there is none. |
| ConfTree.Node.Arg1 | trunk/src/core/srs_core_config.cpp:114-121 | The second argument, or `""`. |
| ConfTree.Node.Arg2 | trunk/src/core/srs_core_config.cpp:123-130 | The third argument, or `""`. |
| ConfTree.FindNamed | trunk/src/core/srs_core_config.cpp:139-147 | The linear scan: a result exactly when a node has the name, and then it is the first such node. |
| ConfBuffer.FirstWindow | trunk/src/core/srs_core_config.cpp:368-404 | The bytes the first refill of a fresh file makes available. They are empty exactly when the file is empty or `read()` cannot deliver min(size, 4096) bytes. Otherwise they are exactly the first min(size, 4096) bytes of the file. |
| ConfBuffer.FirstEnding | trunk/src/core/srs_core_config.cpp:368-398 | How refilling a fresh file fails once its first window is used up. It is EOF exactly when the file is empty or fits and is readable. It is "too long" exactly when the file exceeds 4096 bytes and a full window is readable. |
| ConfBuffer.FileBuffer.AheadEnd | trunk/src/core/srs_core_config.cpp:364-404 | Where the bytes still available to the tokenizer end, between `pos` and the end of the file. |
| ConfBuffer.FileBuffer.constructor | trunk/src/core/srs_core_config.cpp:60-67 | A new buffer has no file, line 0, and an empty window. |
| ConfBuffer.FileBuffer.Open | trunk/src/core/srs_core_config.cpp:77-89 | Opening succeeds exactly when the file exists, and sets the line counter to 1. The tokenizer then sees the first window and its ending. |
| ConfBuffer.FileBuffer.ReadInto | trunk/src/core/srs_core_config.cpp:394 | `read()` copies exactly the next `size` file bytes into the window at `at`, or fails and changes nothing. |
| ConfBuffer.FileBuffer.Refill | trunk/src/core/srs_core_config.cpp:360-405 | Nothing changes while unread bytes remain. EOF when no file bytes remain. "Too long", with the line put back to `startline`, when the window is full. INVALID on a short read. Otherwise the window is refilled, `pstart` is rebased, and the bounds are kept. Refill succeeds exactly when bytes are available. |
| ConfBuffer.FileBuffer.Take | trunk/src/core/srs_core_config.cpp:248 | `*pos++` yields the next available byte and consumes it. |
| ConfBuffer.FileBuffer.Next | trunk/src/core/srs_core_config.cpp:240-253 | Refill, take one byte, and count it when it is an LF. The word in progress keeps its bytes. |
| ConfParser.ScanByte | trunk/src/core/srs_core_config.cpp:255-354 | One pass of the loop body on the five flags produces the step of `Lex`'s state machine: the same outcome, the same words, the same next state. |
| ConfParser.ScanStep | trunk/src/core/srs_core_config.cpp:255-354 | The same pass, stated on the remaining input of `Lex`. |
| ConfParser.AfterRefill | trunk/src/core/srs_core_config.cpp:240-354 | After refill: a failed refill ends the token as `Lex` does at the end of its input, EOF only with no words between words at the real end of the file. A byte taken continues the scan with the tracked state still matching `Lex`. |
| ConfParser.Advance | trunk/src/core/srs_core_config.cpp:239-354 | One whole loop iteration, refill included: the token ends as `Lex` says, or `Lex` continues from the new state on strictly fewer bytes. |
| ConfParser.ReadToken | trunk/src/core/srs_core_config.cpp:224-358 | `read_token` returns the outcome, words, remaining bytes and line counter that `Lex` gives from its start state. The buffer stays valid and its ending unchanged. |
| ConfParser.ParseItems | trunk/src/core/srs_core_config.cpp:164-221 | The directive builder as a function: it only appends to the children it starts with, and never rewinds the input. |
| ConfParser.ParseConf | trunk/src/core/srs_core_config.cpp:164-221 | `parse_conf` yields the status, the children, the remaining bytes and the line that `ParseItems` gives on the bytes the buffer will deliver. |
| ConfParser.ParseFile | trunk/src/core/srs_core_config.cpp:150-161 | Parsing an opened file only appends to the children already there. It fails only with INVALID, an unexpected end of file or an unexpected `}`. It succeeds only when every byte was read, so the file must fit in one 4096-byte window and `read()` must deliver all of it (374-387 force this). |
| ConfParser.Parse | trunk/src/core/srs_core_config.cpp:150-161 | A file that cannot be opened is INVALID with the children unchanged. An opened file gives `ParseFile` on it. |
| ConfParser.FailureCodes | trunk/src/core/srs_core_config.cpp:180-217 | `parse_conf` fails only with INVALID, an unexpected end of file, or, at file level, an unexpected `}`. The empty-directive failure cannot happen. |
| ConfParser.FileLevelOk | trunk/src/core/srs_core_config.cpp:192-198 | At file level, success means every byte was read and the file really ended. |
| ConfParser.DirectiveItem | trunk/src/core/srs_core_config.cpp:200-211 | A `;` token with words appends the directive named by the first word, with the other words as arguments, at the token's line. Parsing goes on after it. |
| ConfParser.BlockItem | trunk/src/core/srs_core_config.cpp:200-217 | A `{` token with words whose block parses successfully appends the directive holding the block's directives. Parsing goes on after the block. |
| ConfParser.OneArgDirective | trunk/src/core/srs_core_config.cpp:203-211 | `name value;` appends the directive `name` with the one argument `value`, at the line of the `;`, and parsing goes on after it. |
| ConfParser.BlockDirective | trunk/src/core/srs_core_config.cpp:203-217 | `name{` (no space before the brace) appends the directive `name` holding the directives its block parses, and parsing goes on after the block's `}`. |
| ConfParser.ClosingBrace | trunk/src/core/srs_core_config.cpp:184-190 | `}` ends a block successfully, and is the "unexpected }" error at file level. Either way no directive is added. |
| ConfParser.TrailingSpaces | trunk/src/core/srs_core_config.cpp:191-197 | Trailing spaces at the end of the file succeed at file level and are an unexpected end of file inside a block. |
| ConfRender.WordsToken | trunk/src/core/srs_core_config.cpp:314-352 | Plain words separated by single spaces and ended by `;` or `{` are one DIRECTIVE or BLOCK_START token carrying exactly those words. |
| ConfRender.LeafRoundTrip | trunk/src/core/srs_core_config.cpp:200-211 | A rendered directive without a block, `name args;`, parses back to itself. |
| ConfRender.BlockRoundTrip | trunk/src/core/srs_core_config.cpp:200-217 | A rendered directive with a block, `name args{...}`, parses back to itself, given that its children do. |
| ConfRender.RenderRoundTrip | trunk/src/core/srs_core_config.cpp:164-221 | Any rendered plain directive, nested blocks included, parses back to itself, and parsing goes on after it. |
| ConfRender.RenderAllRoundTrip | trunk/src/core/srs_core_config.cpp:164-221 | Rendered plain directives parse back to themselves, in order, after the children already there. |
| ConfRender.RenderedFileParses | trunk/src/core/srs_core_config.cpp:150-221 | A file holding a rendered tree of plain words, all of its directives at line 1, parses to exactly that tree, when the rendering fits one 4096-byte window and is fully readable. |
| ConfConfig.ScanLetters | trunk/src/core/srs_core_config.cpp:550-576 | The option-letter loop advances `i` by at most one, never clears a flag, and sets the config file only on success. |
| ConfConfig.ArgvStep | trunk/src/core/srs_core_config.cpp:539-579 | `parse_argv` succeeds only on an argument starting with `-`, and advances `i` by at most one. |
| ConfConfig.ScanArgs | trunk/src/core/srs_core_config.cpp:430-434 | The argument loop from `i`. It runs to the end of argv when every call succeeds, and otherwise stops at the failing index. It never clears the help or version flag. It sets the config file only to some name. |
| ConfConfig.FlagLettersRun | trunk/src/core/srs_core_config.cpp:551-558 | A run of `?`, `h`, `v`, `V` sets the help and version flags it names, and scanning goes on after it. |
| ConfConfig.FlagOptions | trunk/src/core/srs_core_config.cpp:543-578 | `-` followed by flag letters succeeds and sets exactly the flags named. |
| ConfConfig.InlineConfigFile | trunk/src/core/srs_core_config.cpp:559-563 | `-c` with more bytes in the same argument takes those bytes as the config file. |
| ConfConfig.NextConfigFile | trunk/src/core/srs_core_config.cpp:559-568 | `-c` at the end of its argument takes the next argv entry and advances `i`. Without a next entry it is INVALID. |
| ConfConfig.NotAnOption | trunk/src/core/srs_core_config.cpp:545-549 | An argument not starting with `-` is INVALID and changes nothing. |
| ConfConfig.UnknownOption | trunk/src/core/srs_core_config.cpp:569-571 | Any other option letter is INVALID. The flags before it stay set. |
| ConfConfig.ConfigFileArgument | trunk/src/core/srs_core_config.cpp:430-434 | The command line `prog -c file` sets the config file to `file` and nothing else. |
| ConfConfig.FinishOptions | trunk/src/core/srs_core_config.cpp:436-464 | Help or version means exit. Without a config file, or when it cannot be opened, the result is INVALID with the tree unchanged. Otherwise the new children are those `ParseFile` gives, and a parse failure returns its status. Success holds exactly when no flag was set, the file exists and parses, and a top-level `listen` with arguments was read; the file then fits in one window. |
| ConfConfig.FindVhost | trunk/src/core/srs_core_config.cpp:471-481 | The scan finds a `vhost v` directive exactly when one exists, and it finds the first. |
| ConfConfig.Config.constructor | trunk/src/core/srs_core_config.cpp:409-418 | A new Config has no options and the empty tree `root` at line 0. |
| ConfConfig.Config.GetVhost | trunk/src/core/srs_core_config.cpp:467-488 | It finds a vhost exactly when `vhost v` exists, or `v` is not the default and the default vhost exists. It returns the first `vhost v`, or else the first default vhost. |
| ConfConfig.Config.GetGopCache | trunk/src/core/srs_core_config.cpp:490-499 | The first `gop_cache` inside the vhost `get_vhost` finds. None without that vhost or directive. |
| ConfConfig.Config.GetRefer | trunk/src/core/srs_core_config.cpp:501-510 | The first `refer` inside the vhost found. None otherwise. |
| ConfConfig.Config.GetReferPlay | trunk/src/core/srs_core_config.cpp:512-521 | The first `refer_play` inside the vhost found. None otherwise. |
| ConfConfig.Config.GetReferPublish | trunk/src/core/srs_core_config.cpp:523-532 | The first `refer_publish` inside the vhost found. None otherwise. |
| ConfConfig.Config.GetListen | trunk/src/core/srs_core_config.cpp:534-537 | The first top-level `listen` directive, found exactly when one exists. |
| ConfConfig.Config.ParseArgv | trunk/src/core/srs_core_config.cpp:539-579 | The per-letter loop over the fields leaves the status, options and index that `ArgvStep` gives. |
| ConfConfig.Config.ParseOptions | trunk/src/core/srs_core_config.cpp:426-465 | The argument loop stops at the first error, leaving the tree untouched. Otherwise the outcome and new tree are those of `FinishOptions`. |

## Left out

- **File I/O.** `::open`, `lseek`, `read` and `close` are replaced by a file
  image. A `FileImage` holds the file's bytes and how many of them `read()`
  can deliver. A `read()` asking for more returns -1, standing in for a
  short read. `parse_options` looks file names up in a map of such images.
- **Diagnostics.** The `fprintf` messages and `print_help` are output only.
  The `dQuoted`/`sQuoted` arguments of `refill_buffer` only choose the
  message text, so they are not parameters of `Refill`.
- **`exit(0)`.** The exit after help or version output becomes the outcome
  `Exited`.
- **`srs_assert`.** The root is always non-null in the model, so the
  assertion in `get_vhost` has no counterpart.
- **Memory management.** `new`, `srs_freep`, `srs_freepa` and the
  destructors are left out: the tree is a value, so `parse_conf` returns
  the new list of children. On a failed nested block, the partly built
  directive is kept, as in the source.
- **The global `config` object, and `RTMP_VHOST_DEFAULT`.**
  `RTMP_VHOST_DEFAULT` lives in a header that is not part of this model;
  it is a constructor parameter of `Config`.
- **`trunk/win32/inttypes.h`** holds only integer typedefs and format
  macros.
- **Widths.** Integer widths (`int` line counter, `int64_t` sizes) are
  unbounded; configuration files are far smaller than any wrap-around.
- ConfTree.Node.At: `directives.at(index)` throws `std::out_of_range` for an index out of range; the model returns `None` there, because exceptions are not modelled.
- **Byte width.** Bytes are Dafny `char`s; no encoding is involved and
  nothing depends on the byte width.
