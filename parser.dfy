/**
 * read_token and parse_conf over an SrsFileBuffer, as imperative methods
 * proved against the pure definitions `ConfLexer.Lex` and `ParseItems`.
 */
module ConfParser {
  import opened ConfLexer
  import opened ConfTree
  import opened ConfBuffer

  /**
   * The lexer mode read_token's five flags select, tested in the order of
   * its loop body: sharp_comment, need_space, last_space, then d_quoted and
   * s_quoted inside a word.
   */
  function ModeOf(sharp: bool, dq: bool, sq: bool, needSpace: bool, lastSpace: bool): (m: Mode)
    ensures m.Quoted? ==> m.close == '"' || m.close == '\''
  {
    if sharp then Comment
    else if needSpace then AfterQuote
    else if lastSpace then Boundary
    else if dq then Quoted('"')
    else if sq then Quoted('\'')
    else Bare
  }

  /**
   * The flag combinations read_token reaches: a comment starts only between
   * words, and at most one of "between words", "after a closing quote", "in
   * double quotes" and "in single quotes" holds.
   */
  predicate FlagsAgree(sharp: bool, dq: bool, sq: bool, needSpace: bool, lastSpace: bool) {
    && (sharp ==> lastSpace)
    && (lastSpace ==> !needSpace && !dq && !sq)
    && (needSpace ==> !dq && !sq)
    && !(dq && sq)
  }

  /**
   * One pass of read_token's loop body after the byte `ch` has been taken
   * and an LF counted: `s` is the state before the byte. Either the token
   * ends (`stop`) with the outcome of `StepChar`, or the loop goes on in
   * the state `StepChar` moves to, which the new flags encode.
   */
  method ScanByte(buf: FileBuffer, ch: char, sharp: bool, dq: bool, sq: bool, needSpace: bool, lastSpace: bool,
                  pstart: nat, startline: int, args: seq<string>, ghost s: LexState)
    returns (stop: bool, tok: Token, sharp': bool, dq': bool, sq': bool, needSpace': bool, lastSpace': bool,
             pstart': nat, startline': int, args': seq<string>, ghost s': LexState)
    requires 0 < buf.pos <= buf.window.Length && buf.window[buf.pos - 1] == ch && pstart < buf.pos
    requires AfterByte(s, ch).mode == ModeOf(sharp, dq, sq, needSpace, lastSpace)
    requires FlagsAgree(sharp, dq, sq, needSpace, lastSpace)
    requires s.args == args && s.startLine == startline && buf.line == AfterByte(s, ch).line
    requires (s.mode.Bare? || s.mode.Quoted?) ==> s.word == buf.window[pstart..buf.pos - 1]
    ensures stop ==> StepChar(s, ch) == Stop(tok, s') && s'.args == args' && s'.line == AfterByte(s, ch).line
    ensures !stop ==> StepChar(s, ch) == More(s')
    ensures !stop ==> s'.mode == ModeOf(sharp', dq', sq', needSpace', lastSpace')
    ensures !stop ==> FlagsAgree(sharp', dq', sq', needSpace', lastSpace')
    ensures !stop ==> s'.args == args' && s'.line == AfterByte(s, ch).line && s'.startLine == startline'
    ensures !stop ==> pstart' <= buf.pos
    ensures !stop && (s'.mode.Bare? || s'.mode.Quoted?) ==> s'.word == buf.window[pstart'..buf.pos]
  {
    ghost var s1 := AfterByte(s, ch);
    stop, tok := false, Invalid;
    sharp', dq', sq', needSpace', lastSpace' := sharp, dq, sq, needSpace, lastSpace;
    pstart', startline', args', s' := pstart, startline, args, s1;
    if sharp {
      return;
    }
    if needSpace {
      if IsCommonSpace(ch) {
        lastSpace', needSpace' := true, false;
        s' := s1.(mode := Boundary);
        return;
      }
      stop := true;
      tok := if ch == ';' then Directive else if ch == '{' then BlockStart else Invalid;
      return;
    }
    if lastSpace {
      if IsCommonSpace(ch) {
        return;
      }
      pstart' := buf.pos - 1;
      startline' := buf.line;
      s' := s1.(startLine := s1.line);
      if ch == ';' {
        stop, tok := true, if |args| == 0 then Invalid else Directive;
      } else if ch == '{' {
        stop, tok := true, if |args| == 0 then Invalid else BlockStart;
      } else if ch == '}' {
        stop, tok := true, if |args| != 0 then Invalid else BlockEnd;
      } else if ch == '#' {
        sharp' := true;
        s' := s'.(mode := Comment);
      } else if ch == '"' {
        pstart' := pstart' + 1;
        dq', lastSpace' := true, false;
        s' := s'.(mode := Quoted(ch), word := []);
      } else if ch == '\'' {
        pstart' := pstart' + 1;
        sq', lastSpace' := true, false;
        s' := s'.(mode := Quoted(ch), word := []);
      } else {
        lastSpace' := false;
        s' := s'.(mode := Bare, word := [ch]);
      }
      return;
    }
    var found := false;
    if dq {
      if ch == '"' {
        dq', needSpace', found := false, true, true;
      }
    } else if sq {
      if ch == '\'' {
        sq', needSpace', found := false, true, true;
      }
    } else if IsCommonSpace(ch) || ch == ';' || ch == '{' {
      lastSpace', found := true, true;
    }
    if found {
      // The word is the bytes from pstart up to the delimiter, cut at a NUL.
      var word := CString(buf.window[pstart..buf.pos - 1]);
      args' := args + [word];
      s' := s1.(mode := if needSpace' then AfterQuote else Boundary, args := args');
      if ch == ';' {
        stop, tok := true, Directive;
      } else if ch == '{' {
        stop, tok := true, BlockStart;
      }
    } else {
      assert buf.window[pstart..buf.pos] == buf.window[pstart..buf.pos - 1] + [ch];
      s' := s1.(word := s1.word + [ch]);
    }
  }

  /**
   * `ScanByte` read as one unfolding of `Lex`: `ahead` is what the buffer
   * held before `ch` was taken, and the token read from it either ends here
   * or is the token read from the rest in the new state.
   */
  method ScanStep(buf: FileBuffer, ch: char, sharp: bool, dq: bool, sq: bool, needSpace: bool, lastSpace: bool,
                  pstart: nat, startline: int, args: seq<string>, ghost s: LexState, ghost ahead: seq<char>, ghost e: Ending)
    returns (stop: bool, tok: Token, sharp': bool, dq': bool, sq': bool, needSpace': bool, lastSpace': bool,
             pstart': nat, startline': int, args': seq<string>, ghost s': LexState)
    requires 0 < buf.pos <= buf.window.Length && buf.window[buf.pos - 1] == ch && pstart < buf.pos
    requires ahead != [] && ahead[0] == ch
    requires AfterByte(s, ch).mode == ModeOf(sharp, dq, sq, needSpace, lastSpace)
    requires FlagsAgree(sharp, dq, sq, needSpace, lastSpace)
    requires s.args == args && s.startLine == startline && buf.line == AfterByte(s, ch).line
    requires (s.mode.Bare? || s.mode.Quoted?) ==> s.word == buf.window[pstart..buf.pos - 1]
    ensures stop ==> Lex(s, ahead, e) == LexResult(tok, args', ahead[1..], buf.line)
    ensures !stop ==> Lex(s, ahead, e) == Lex(s', ahead[1..], e)
    ensures !stop ==> s'.mode == ModeOf(sharp', dq', sq', needSpace', lastSpace')
    ensures !stop ==> FlagsAgree(sharp', dq', sq', needSpace', lastSpace')
    ensures !stop ==> s'.args == args' && s'.line == buf.line && s'.startLine == startline'
    ensures !stop ==> pstart' <= buf.pos
    ensures !stop && (s'.mode.Bare? || s'.mode.Quoted?) ==> s'.word == buf.window[pstart'..buf.pos]
  {
    stop, tok, sharp', dq', sq', needSpace', lastSpace', pstart', startline', args', s' :=
      ScanByte(buf, ch, sharp, dq, sq, needSpace, lastSpace, pstart, startline, args, s);
    if stop {
      LexStop(s, ahead, e, tok, s');
    } else {
      LexMore(s, ahead, e, s');
    }
  }

  /**
   * When refill_buffer fails the token ends: EOF only after a clean end of
   * the file between tokens, INVALID otherwise, with the line counter put
   * back to the token's start when the window was full.
   */
  lemma RefillStops(s: LexState, e: Ending, r: RefillResult, sharp: bool, dq: bool, sq: bool, needSpace: bool,
                    lastSpace: bool, line: int)
    requires s.mode == ModeOf(sharp, dq, sq, needSpace, lastSpace) && FlagsAgree(sharp, dq, sq, needSpace, lastSpace)
    requires r != Refilled && (r == RefillEof <==> e == AtEof)
    requires line == (if e == TooLong then s.startLine else s.line)
    ensures Lex(s, [], e) == LexResult(if r == RefillEof && |s.args| == 0 && lastSpace then Eof else Invalid, s.args, [], line)
  {
  }

  /**
   * How read_token's variables encode the lexer state `s` between two
   * bytes: the words, the line counters and the mode, and for a word in
   * progress its bytes so far at `pstart`..`pos` in the window.
   */
  ghost predicate Tracks(buf: FileBuffer, s: LexState, sharp: bool, dq: bool, sq: bool, needSpace: bool, lastSpace: bool,
                         pstart: nat, startline: int, args: seq<string>)
    reads buf`line, buf`pos, buf.window
  {
    && s.args == args && s.line == buf.line && s.startLine == startline
    && s.mode == ModeOf(sharp, dq, sq, needSpace, lastSpace) && FlagsAgree(sharp, dq, sq, needSpace, lastSpace)
    && pstart <= buf.pos <= buf.window.Length
    && ((s.mode.Bare? || s.mode.Quoted?) ==> s.word == buf.window[pstart..buf.pos])
  }

  /**
   * read_token's loop body once refill_buffer has answered `refilled`
   * (and, when it succeeded, the byte `ch` was taken and an LF counted).
   * `ahead` is what the buffer held for the tokenizer before, `left` what
   * it holds now. Either the token ends (`stop`) with its outcome, words
   * and line, or the token still to be read is the one read from the new
   * state over `left`.
   */
  method AfterRefill(buf: FileBuffer, refilled: RefillResult, ch: char, sharp: bool, dq: bool, sq: bool,
                     needSpace: bool, lastSpace: bool, pstart: nat, startline: int, args: seq<string>,
                     ghost s: LexState, ghost e: Ending, ghost ahead: seq<char>, ghost left: seq<char>)
    returns (stop: bool, tok: Token, sharp': bool, dq': bool, sq': bool, needSpace': bool, lastSpace': bool,
             pstart': nat, startline': int, args': seq<string>, ghost s': LexState)
    requires s.args == args && s.startLine == startline
    requires s.mode == ModeOf(sharp, dq, sq, needSpace, lastSpace) && FlagsAgree(sharp, dq, sq, needSpace, lastSpace)
    requires refilled != Refilled ==> (ahead == [] && left == [] && (refilled == RefillEof <==> e == AtEof)
        && buf.line == (if e == TooLong then startline else s.line))
    requires refilled == Refilled ==> (ahead != [] && ch == ahead[0] && left == ahead[1..]
        && buf.line == s.line + (if ch == LF then 1 else 0)
        && 0 < buf.pos <= buf.window.Length && buf.window[buf.pos - 1] == ch && pstart < buf.pos
        && ((s.mode.Bare? || s.mode.Quoted?) ==> s.word == buf.window[pstart..buf.pos - 1]))
    ensures stop ==> Lex(s, ahead, e) == LexResult(tok, args', left, buf.line)
    ensures !stop ==> Lex(s, ahead, e) == Lex(s', left, e) && |left| < |ahead|
    ensures !stop ==> Tracks(buf, s', sharp', dq', sq', needSpace', lastSpace', pstart', startline', args')
  {
    sharp', dq', sq', needSpace', lastSpace', pstart', startline', args', s' :=
      sharp, dq, sq, needSpace, lastSpace, pstart, startline, args, s;
    if refilled != Refilled {
      stop := true;
      if |args| > 0 || !lastSpace {
        tok := Invalid;
      } else {
        tok := if refilled == RefillEof then Eof else Invalid;
      }
      RefillStops(s, e, refilled, sharp, dq, sq, needSpace, lastSpace, buf.line);
      return;
    }
    if ch == LF {
      sharp' := false;
    }
    stop, tok, sharp', dq', sq', needSpace', lastSpace', pstart', startline', args', s' :=
      ScanStep(buf, ch, sharp', dq, sq, needSpace, lastSpace, pstart, startline, args, s, ahead, e);
  }

  /**
   * One pass of read_token's loop: refill, take a byte, count an LF, then
   * scan it. In terms of `Lex` from state `s`: either the token ends
   * (`stop`) with its outcome, words and line, or the token still to be read
   * is the one read from the new state over the bytes that remain.
   */
  method Advance(buf: FileBuffer, sharp: bool, dq: bool, sq: bool, needSpace: bool, lastSpace: bool,
                 pstart: nat, startline: int, args: seq<string>, ghost s: LexState, ghost e: Ending)
    returns (stop: bool, tok: Token, sharp': bool, dq': bool, sq': bool, needSpace': bool, lastSpace': bool,
             pstart': nat, startline': int, args': seq<string>, ghost s': LexState)
    requires buf.Valid() && buf.Ending() == e
    requires Tracks(buf, s, sharp, dq, sq, needSpace, lastSpace, pstart, startline, args)
    modifies buf`pos, buf`last, buf`offset, buf`line, buf.window
    ensures buf.Valid() && buf.Ending() == e
    ensures stop ==> Lex(s, old(buf.Ahead()), e) == LexResult(tok, args', buf.Ahead(), buf.line)
    ensures !stop ==> Lex(s, old(buf.Ahead()), e) == Lex(s', buf.Ahead(), e) && |buf.Ahead()| < |old(buf.Ahead())|
    ensures !stop ==> Tracks(buf, s', sharp', dq', sq', needSpace', lastSpace', pstart', startline', args')
  {
    ghost var ahead := buf.Ahead();
    var refilled, pstart1, ch := buf.Next(startline, pstart);
    stop, tok, sharp', dq', sq', needSpace', lastSpace', pstart', startline', args', s' :=
      AfterRefill(buf, refilled, ch, sharp, dq, sq, needSpace, lastSpace, pstart1, startline, args, s, e, ahead, buf.Ahead());
  }

  /**
   * read_token: reads bytes from `buf` until a token ends, collecting the
   * words of the directive in `args`. The outcome, the words, the bytes
   * left and the line counter are those of `ReadTokenSpec` on the bytes the
   * buffer will deliver.
   */
  method ReadToken(buf: FileBuffer) returns (tok: Token, args: seq<string>)
    requires buf.Valid()
    modifies buf`pos, buf`last, buf`offset, buf`line, buf.window
    ensures buf.Valid() && buf.Ending() == old(buf.Ending())
    ensures ReadTokenSpec(old(buf.Ahead()), old(buf.Ending()), old(buf.line))
         == LexResult(tok, args, buf.Ahead(), buf.line)
  {
    ghost var e := buf.Ending();
    ghost var spec := ReadTokenSpec(buf.Ahead(), e, buf.line);
    var pstart: nat := buf.pos;
    var startline := buf.line;
    var sharp, dq, sq, needSpace, lastSpace := false, false, false, false, true;
    args := [];
    ghost var s := Start(buf.line);
    while true
      invariant buf.Valid() && buf.Ending() == e
      invariant Lex(s, buf.Ahead(), e) == spec
      invariant Tracks(buf, s, sharp, dq, sq, needSpace, lastSpace, pstart, startline, args)
      decreases |buf.Ahead()|
    {
      var stop;
      ghost var s';
      stop, tok, sharp, dq, sq, needSpace, lastSpace, pstart, startline, args, s' :=
        Advance(buf, sharp, dq, sq, needSpace, lastSpace, pstart, startline, args, s, e);
      if stop {
        return;
      }
      s := s';
    }
  }

  // ---------------------------------------------------------------------
  // parse_conf

  /** What parse_conf returns: success, or the read_token outcome that failed it. */
  datatype Status = Ok | Failed(code: Token)

  /** The result of parsing: status, the children list, unread bytes, line counter. */
  datatype ParseResult = ParseResult(status: Status, children: seq<Node>, rest: seq<char>, line: int)

  /**
   * parse_conf as a function: reads tokens from `rest` and appends one node
   * per directive to `acc`, descending into a block on `{`. `inBlock` is
   * parse_block; false is parse_file.
   */
  function ParseItems(rest: seq<char>, e: Ending, line: int, inBlock: bool, acc: seq<Node>): (r: ParseResult)
    ensures |r.rest| <= |rest|
    ensures acc <= r.children
    decreases |rest|
  {
    var t := ReadTokenSpec(rest, e, line);
    if t.tok == Invalid then ParseResult(Failed(Invalid), acc, t.rest, t.line)
    else if t.tok == BlockEnd then ParseResult(if inBlock then Ok else Failed(BlockEnd), acc, t.rest, t.line)
    else if t.tok == Eof then ParseResult(if inBlock then Failed(Eof) else Ok, acc, t.rest, t.line)
    else if |t.args| == 0 then ParseResult(Failed(t.tok), acc, t.rest, t.line)
    else
      var node := Node(t.args[0], t.args[1..], t.line, []);
      if t.tok == BlockStart then
        var sub := ParseItems(t.rest, e, t.line, true, []);
        var acc' := acc + [node.(children := sub.children)];
        if sub.status != Ok then ParseResult(sub.status, acc', sub.rest, sub.line)
        else ParseItems(sub.rest, e, sub.line, inBlock, acc')
      else ParseItems(t.rest, e, t.line, inBlock, acc + [node])
  }

  /**
   * parse_conf: reads directives from `buf` into `children`, which starts as
   * `acc`. The status, the children, the bytes left and the line counter are
   * those of `ParseItems`.
   */
  method ParseConf(buf: FileBuffer, inBlock: bool, acc: seq<Node>) returns (status: Status, children: seq<Node>)
    requires buf.Valid()
    modifies buf`pos, buf`last, buf`offset, buf`line, buf.window
    ensures buf.Valid() && buf.Ending() == old(buf.Ending())
    ensures ParseItems(old(buf.Ahead()), old(buf.Ending()), old(buf.line), inBlock, acc)
         == ParseResult(status, children, buf.Ahead(), buf.line)
    decreases |buf.Ahead()|
  {
    ghost var e := buf.Ending();
    ghost var goal := ParseItems(buf.Ahead(), e, buf.line, inBlock, acc);
    children := acc;
    while true
      invariant buf.Valid() && buf.Ending() == e
      invariant ParseItems(buf.Ahead(), e, buf.line, inBlock, children) == goal
      decreases |buf.Ahead()|
    {
      var tok, args := ReadToken(buf);
      if tok == Invalid {
        return Failed(Invalid), children;
      }
      if tok == BlockEnd {
        if !inBlock {
          return Failed(BlockEnd), children;
        }
        return Ok, children;
      }
      if tok == Eof {
        if inBlock {
          return Failed(Eof), children;
        }
        return Ok, children;
      }
      if |args| == 0 {
        return Failed(tok), children;
      }
      // The node gets conf_line = buffer->line, name = args[0], args = args[1..].
      var node := Node(args[0], args[1..], buf.line, []);
      if tok == BlockStart {
        var sub, grandchildren := ParseConf(buf, true, []);
        children := children + [node.(children := grandchildren)];
        if sub != Ok {
          return sub, children;
        }
      } else {
        children := children + [node];
      }
    }
  }

  /**
   * SrsConfDirective::parse on the file `f` that open() yields, appending to
   * `acc`: it only appends, it fails only with INVALID, an unexpected end of
   * file or an unexpected `}`, and it succeeds only when every byte was read,
   * which needs the file to fit in one window and read() to deliver all of it.
   */
  function ParseFile(f: FileImage, acc: seq<Node>): (r: ParseResult)
    ensures acc <= r.children
    ensures r.status.Failed? ==> r.status.code == Invalid || r.status.code == Eof || r.status.code == BlockEnd
    ensures r.status == Ok ==> r.rest == [] && |f.bytes| <= Capacity && |f.bytes| <= f.readable
  {
    FailureCodes(FirstWindow(f), FirstEnding(f), 1, false, acc);
    FileLevelOk(FirstWindow(f), FirstEnding(f), 1, acc);
    ParseItems(FirstWindow(f), FirstEnding(f), 1, false, acc)
  }

  /**
   * SrsConfDirective::parse: opens the file (none when ::open fails, which
   * is INVALID) and runs parse_conf at file level, appending to `acc`.
   */
  method Parse(f: Option<FileImage>, acc: seq<Node>) returns (status: Status, children: seq<Node>)
    ensures f.None? ==> status == Failed(Invalid) && children == acc
    ensures f.Some? ==> status == ParseFile(f.value, acc).status && children == ParseFile(f.value, acc).children
  {
    var buffer := new FileBuffer();
    var ok := buffer.Open(f);
    if !ok {
      return Failed(Invalid), acc;
    }
    status, children := ParseConf(buffer, false, acc);
  }

  // ---------------------------------------------------------------------
  // Properties of parse_conf.

  /**
   * The failures parse_conf can report: INVALID, an unexpected `}` (never
   * inside a block) or an unexpected end of file. The "empty directive"
   * failure never happens, since a `;` or `{` with no words is INVALID.
   */
  lemma {:induction false} FailureCodes(rest: seq<char>, e: Ending, line: int, inBlock: bool, acc: seq<Node>)
    ensures var r := ParseItems(rest, e, line, inBlock, acc);
            r.status.Failed? ==> r.status.code == Invalid || r.status.code == Eof || (r.status.code == BlockEnd && !inBlock)
    decreases |rest|
  {
    var t := ReadTokenSpec(rest, e, line);
    if YieldsDirective(t.tok) {
      assert |t.args| > 0;
      if t.tok == BlockStart {
        var sub := ParseItems(t.rest, e, t.line, true, []);
        FailureCodes(t.rest, e, t.line, true, []);
        var acc' := acc + [Node(t.args[0], t.args[1..], t.line, sub.children)];
        if sub.status == Ok {
          FailureCodes(sub.rest, e, sub.line, inBlock, acc');
        }
      } else {
        FailureCodes(t.rest, e, t.line, inBlock, acc + [Node(t.args[0], t.args[1..], t.line, [])]);
      }
    }
  }

  /**
   * At file level parse_conf succeeds only by reaching the end of the file:
   * every byte has been read and refill found no more file bytes.
   */
  lemma {:induction false} FileLevelOk(rest: seq<char>, e: Ending, line: int, acc: seq<Node>)
    ensures var r := ParseItems(rest, e, line, false, acc);
            r.status == Ok ==> e == AtEof && r.rest == []
    decreases |rest|
  {
    var t := ReadTokenSpec(rest, e, line);
    if YieldsDirective(t.tok) && |t.args| > 0 {
      if t.tok == BlockStart {
        var sub := ParseItems(t.rest, e, t.line, true, []);
        var acc' := acc + [Node(t.args[0], t.args[1..], t.line, sub.children)];
        if sub.status == Ok {
          FileLevelOk(sub.rest, e, sub.line, acc');
        }
      } else {
        FileLevelOk(t.rest, e, t.line, acc + [Node(t.args[0], t.args[1..], t.line, [])]);
      }
    }
  }

  // ---------------------------------------------------------------------
  // How input shapes become directives.

  /** A `;`-terminated token with words appends their directive, and parsing goes on after it. */
  lemma DirectiveItem(rest: seq<char>, e: Ending, line: int, inBlock: bool, acc: seq<Node>,
                      args: seq<string>, rest': seq<char>, line': int)
    requires ReadTokenSpec(rest, e, line) == LexResult(Directive, args, rest', line') && |args| > 0
    ensures ParseItems(rest, e, line, inBlock, acc)
         == ParseItems(rest', e, line', inBlock, acc + [Node(args[0], args[1..], line', [])])
  {
  }

  /**
   * A `{`-terminated token with words whose block parse_conf closes
   * appends their directive holding the block's directives, and parsing
   * goes on after the block.
   */
  lemma BlockItem(rest: seq<char>, e: Ending, line: int, inBlock: bool, acc: seq<Node>,
                  args: seq<string>, body: seq<char>, line': int, kids: seq<Node>, rest': seq<char>, line'': int)
    requires ReadTokenSpec(rest, e, line) == LexResult(BlockStart, args, body, line') && |args| > 0
    requires ParseItems(body, e, line', true, []) == ParseResult(Ok, kids, rest', line'')
    ensures ParseItems(rest, e, line, inBlock, acc)
         == ParseItems(rest', e, line'', inBlock, acc + [Node(args[0], args[1..], line', kids)])
  {
  }

  /** A bare word without NUL bytes, which std::string keeps whole. */
  predicate IsPlainWord(w: string) {
    |w| > 0 && StartsBareWord(w[0]) && AllWordBytes(w) && '\0' !in w
  }

  lemma PlainWordKept(w: string)
    requires '\0' !in w
    ensures CString(w) == w
  {
  }

  /**
   * `name value;` becomes the directive `name` with the one argument
   * `value`, recorded at the line of its `;`, and parsing goes on after it.
   */
  lemma OneArgDirective(name: string, value: string, rest: seq<char>, e: Ending, line: int, inBlock: bool, acc: seq<Node>)
    requires IsPlainWord(name) && IsPlainWord(value)
    ensures ParseItems(name + ([' '] + (value + ([';'] + rest))), e, line, inBlock, acc)
         == ParseItems(rest, e, line, inBlock, acc + [Node(name, [value], line, [])])
  {
    var s0 := Start(line);
    var s1 := s0.(args := s0.args + [CString(name)], word := name);
    BareWordToken(s0, name, ' ', value + ([';'] + rest), e);
    BareWordToken(s1, value, ';', rest, e);
    PlainWordKept(name);
    PlainWordKept(value);
    var input := name + ([' '] + (value + ([';'] + rest)));
    assert Lex(s0, input, e) == Lex(s1, value + ([';'] + rest), e);
    var t := ReadTokenSpec(input, e, line);
    assert t == LexResult(Directive, [name, value], rest, line);
    assert t.args[1..] == [value];
  }

  /**
   * `name {` followed by a block body that parse_conf closes with `}`
   * becomes the directive `name` holding the body's directives, and
   * parsing goes on after the `}`.
   */
  lemma BlockDirective(name: string, body: seq<char>, e: Ending, line: int, inBlock: bool, acc: seq<Node>)
    requires IsPlainWord(name)
    requires ParseItems(body, e, line, true, []).status == Ok
    ensures var sub := ParseItems(body, e, line, true, []);
            (ParseItems(name + (['{'] + body), e, line, inBlock, acc)
             == ParseItems(sub.rest, e, sub.line, inBlock, acc + [Node(name, [], line, sub.children)]))
  {
    BareWordToken(Start(line), name, '{', body, e);
    PlainWordKept(name);
    var t := ReadTokenSpec(name + (['{'] + body), e, line);
    assert t == LexResult(BlockStart, [name], body, line);
    assert t.args[1..] == [];
  }

  /**
   * A `}` after spaces closes the block being parsed, and at file level is
   * the "unexpected }" error; either way no directive is added.
   */
  lemma ClosingBrace(ws: seq<char>, rest: seq<char>, e: Ending, line: int, inBlock: bool, acc: seq<Node>)
    requires AllSpace(ws)
    ensures ParseItems(ws + (['}'] + rest), e, line, inBlock, acc)
         == ParseResult(if inBlock then Ok else Failed(BlockEnd), acc, rest, line + LFs(ws))
  {
    BoundaryTerminator(Start(line), ws, '}', rest, e);
    assert ws + ['}'] + rest == ws + (['}'] + rest);
  }

  /**
   * Only spaces up to the end of the input: the file level succeeds when
   * the file ended there, and an open block is an unexpected end of file.
   */
  lemma TrailingSpaces(ws: seq<char>, e: Ending, line: int, inBlock: bool, acc: seq<Node>)
    requires AllSpace(ws)
    ensures var r := ParseItems(ws, e, line, inBlock, acc);
            && r.children == acc
            && r.status == (if e != AtEof then Failed(Invalid) else if inBlock then Failed(Eof) else Ok)
  {
    EofAtBoundary(Start(line), ws, e);
  }
}
