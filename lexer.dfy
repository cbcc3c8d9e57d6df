/**
 * The character-level state machine of the configuration tokenizer, as pure
 * functions. `Lex` is the reference definition that the imperative
 * `ConfParser.ReadToken` method is proved against; the lemmas below state how
 * terminators, bare words, quoted words, comments and line counting behave.
 */
module ConfLexer {

  const LF: char := '\n'
  const CR: char := '\r'

  /** The four whitespace bytes the tokenizer skips; none of them has a meaning of its own. */
  predicate IsCommonSpace(ch: char)
    ensures IsCommonSpace(ch) ==> ch != ';' && ch != '{' && ch != '}' && ch != '#' && ch != '"' && ch != '\''
  {
    ch == ' ' || ch == '\t' || ch == CR || ch == LF
  }

  /** What a std::string built from a NUL-terminated buffer keeps of `w`. */
  function CString(w: string): (r: string)
    ensures r <= w && '\0' !in r
    ensures |r| < |w| ==> w[|r|] == '\0'
  {
    if w == [] || w[0] == '\0' then [] else [w[0]] + CString(w[1..])
  }

  /** Number of LF bytes in `s`. */
  function LFs(s: seq<char>): nat {
    if s == [] then 0 else (if s[0] == LF then 1 else 0) + LFs(s[1..])
  }

  /** The outcome of one read_token call. */
  datatype Token = Directive | BlockStart | BlockEnd | Eof | Invalid

  /** The two outcomes that hand a directive to the parser. */
  predicate YieldsDirective(t: Token) {
    t == Directive || t == BlockStart
  }

  /** How reading fails once the bytes the buffer can deliver are used up. */
  datatype Ending =
    | AtEof     // no file bytes remain
    | TooLong   // the window is full and file bytes remain
    | ReadError // read() did not deliver the bytes asked for

  /**
   * The combinations of read_token's five flags that can occur, each named:
   *   Boundary   last_space                  (between words)
   *   Comment    last_space, sharp_comment   (after `#`, up to the next LF)
   *   Bare       none set                    (inside a bare word)
   *   Quoted('"')  d_quoted                  (inside "...")
   *   Quoted('\'') s_quoted                  (inside '...')
   *   AfterQuote need_space                  (just after a closing quote)
   */
  datatype Mode = Boundary | Comment | Bare | Quoted(close: char) | AfterQuote

  /**
   * The tokenizer's state between two bytes: the mode, the words collected
   * so far, the word in progress, the line counter and the line at which
   * the current token started.
   */
  datatype LexState = LexState(mode: Mode, args: seq<string>, word: string, line: int, startLine: int)

  function Start(line: int): LexState {
    LexState(Boundary, [], [], line, line)
  }

  datatype StepResult = More(next: LexState) | Stop(tok: Token, final: LexState) {
    /** The state the step leaves, whether or not the token ends. */
    function State(): LexState {
      if More? then next else final
    }
  }

  /** Every byte read first updates the line counter: an LF counts a line and ends a comment. */
  function AfterByte(s: LexState, ch: char): (r: LexState)
    ensures r.line == s.line + (if ch == LF then 1 else 0)
    ensures r.args == s.args && r.word == s.word && r.startLine == s.startLine
    ensures r.mode != s.mode ==> ch == LF && s.mode == Comment && r.mode == Boundary
  {
    if ch == LF then s.(line := s.line + 1, mode := if s.mode == Comment then Boundary else s.mode) else s
  }

  /** One iteration of read_token's loop, on byte `ch`. */
  function StepChar(s0: LexState, ch: char): (r: StepResult)
    ensures r.Stop? && r.tok == BlockEnd ==> r.final.args == []
    ensures r.Stop? && Consistent(s0) && YieldsDirective(r.tok) ==> |r.final.args| > 0
    ensures r.More? && Consistent(s0) ==> Consistent(r.next)
    ensures s0.args <= r.State().args && |r.State().args| <= |s0.args| + 1
    ensures r.State().line == s0.line + (if ch == LF then 1 else 0)
    ensures r.Stop? ==> r.tok != Eof
  {
    var s := AfterByte(s0, ch);
    match s.mode
    case Comment => More(s)
    case AfterQuote => StepAfterQuote(s, ch)
    case Boundary => StepBoundary(s, ch)
    case Quoted(qc) => StepQuoted(s, qc, ch)
    case Bare => StepBare(s, ch)
  }

  /** Just after a closing quote only whitespace, `;` or `{` may follow. */
  function StepAfterQuote(s: LexState, ch: char): (r: StepResult)
    ensures r.More? <==> IsCommonSpace(ch)
    ensures r.More? ==> r.next == s.(mode := Boundary)
    ensures r.Stop? ==> r.final == s && r.tok != Eof && r.tok != BlockEnd
    ensures r.Stop? ==> (r.tok == Invalid <==> ch != ';' && ch != '{')
  {
    if IsCommonSpace(ch) then More(s.(mode := Boundary))
    else if ch == ';' then Stop(Directive, s)
    else if ch == '{' then Stop(BlockStart, s)
    else Stop(Invalid, s)
  }

  /** Between tokens: skip spaces, handle terminators, start a comment or a word. */
  function StepBoundary(s: LexState, ch: char): (r: StepResult)
    ensures IsCommonSpace(ch) ==> r == More(s)
    ensures !IsCommonSpace(ch) ==> r.State().startLine == s.line
    ensures r.State().args == s.args && r.State().line == s.line
    ensures r.Stop? <==> ch == ';' || ch == '{' || ch == '}'
    ensures r.Stop? ==> r.tok != Eof && (r.tok == Invalid <==> (ch == '}') == (|s.args| > 0))
    ensures r.Stop? && r.tok == BlockEnd ==> ch == '}'
    ensures !IsCommonSpace(ch) ==> (StartsBareWord(ch) <==> r.More? && r.next.mode == Bare)
    ensures !IsCommonSpace(ch) && r.More? && r.next.mode == Bare ==> r.next.word == [ch]
    ensures !IsCommonSpace(ch) && r.More? && r.next.mode.Quoted? ==> r.next.word == [] && r.next.mode.close == ch
  {
    if IsCommonSpace(ch) then More(s)
    else
      var t := s.(startLine := s.line);
      if ch == ';' then Stop(if |t.args| == 0 then Invalid else Directive, t)
      else if ch == '{' then Stop(if |t.args| == 0 then Invalid else BlockStart, t)
      else if ch == '}' then Stop(if |t.args| != 0 then Invalid else BlockEnd, t)
      else if ch == '#' then More(t.(mode := Comment))
      else if ch == '"' || ch == '\'' then More(t.(mode := Quoted(ch), word := []))
      else More(t.(mode := Bare, word := [ch]))
  }

  /** Inside a word quoted by `qc`: only the matching quote closes it. */
  function StepQuoted(s: LexState, qc: char, ch: char): (r: StepResult)
    ensures r.More? && r.next.line == s.line && r.next.startLine == s.startLine
    ensures ch == qc ==> r.next.mode == AfterQuote && r.next.args == s.args + [CString(s.word)]
    ensures ch != qc ==> r.next.mode == s.mode && r.next.args == s.args && r.next.word == s.word + [ch]
  {
    if ch == qc then More(s.(mode := AfterQuote, args := s.args + [CString(s.word)]))
    else More(s.(word := s.word + [ch]))
  }

  /** Inside a bare word: whitespace, `;` and `{` close it. */
  function StepBare(s: LexState, ch: char): (r: StepResult)
    ensures IsWordByte(ch) <==> r == More(s.(word := s.word + [ch]))
    ensures !IsWordByte(ch) ==> r.State().mode == Boundary && r.State().args == s.args + [CString(s.word)]
    ensures r.Stop? <==> ch == ';' || ch == '{'
    ensures r.Stop? ==> YieldsDirective(r.tok)
  {
    if IsCommonSpace(ch) || ch == ';' || ch == '{' then
      var t := s.(mode := Boundary, args := s.args + [CString(s.word)]);
      if ch == ';' then Stop(Directive, t)
      else if ch == '{' then Stop(BlockStart, t)
      else More(t)
    else More(s.(word := s.word + [ch]))
  }

  /** The result of one read_token call: outcome, words, unread bytes, line counter. */
  datatype LexResult = LexResult(tok: Token, args: seq<string>, rest: seq<char>, line: int)

  /** Whether read_token's last_space flag is set in mode `m`. */
  predicate LastSpace(m: Mode) {
    m == Boundary || m == Comment
  }

  /** What read_token returns when refill fails with ending `e` in state `s`. */
  function Finish(s: LexState, e: Ending): (r: LexResult)
    ensures r.tok == Eof <==> |s.args| == 0 && LastSpace(s.mode) && e == AtEof
    ensures r.tok != Eof ==> r.tok == Invalid
    ensures r.line == (if e == TooLong then s.startLine else s.line)
  {
    var tok := if |s.args| > 0 || !LastSpace(s.mode) then Invalid
               else if e == AtEof then Eof else Invalid;
    LexResult(tok, s.args, [], if e == TooLong then s.startLine else s.line)
  }

  /** The state `s` admits a terminator only after a closed word. */
  predicate Consistent(s: LexState) {
    s.mode == AfterQuote ==> |s.args| > 0
  }

  /** Feed `rest` to the state machine from state `s` until it stops or the bytes run out. */
  function Lex(s: LexState, rest: seq<char>, e: Ending): (r: LexResult)
    ensures |r.rest| <= |rest|
    ensures r.tok != Eof && r.tok != Invalid ==> |r.rest| < |rest|
    ensures r.tok == Eof ==> e == AtEof && r.rest == [] && r.args == []
    ensures r.tok == BlockEnd ==> r.args == []
    ensures Consistent(s) && YieldsDirective(r.tok) ==> |r.args| > 0
    ensures s.args <= r.args
    decreases |rest|, 1
  {
    if rest == [] then Finish(s, e) else LexByte(s, rest, e)
  }

  /** `Lex` on a non-empty input: one step of the machine on its first byte. */
  function LexByte(s: LexState, rest: seq<char>, e: Ending): (r: LexResult)
    requires rest != []
    ensures |r.rest| < |rest|
    ensures r.tok == Eof ==> e == AtEof && r.rest == [] && r.args == []
    ensures r.tok == BlockEnd ==> r.args == []
    ensures Consistent(s) && YieldsDirective(r.tok) ==> |r.args| > 0
    ensures s.args <= r.args
    decreases |rest|, 0
  {
    match StepChar(s, rest[0])
    case Stop(t, f) => LexResult(t, f.args, rest[1..], f.line)
    case More(n) => Lex(n, rest[1..], e)
  }

  /** One read_token call, starting at line `line`. */
  function ReadTokenSpec(rest: seq<char>, e: Ending, line: int): LexResult {
    Lex(Start(line), rest, e)
  }


  // ---------------------------------------------------------------------
  // Character classes used by the lemmas.

  /** A byte that does not end a bare word (note that `}`, `#` and quotes do not). */
  predicate IsWordByte(ch: char) {
    !IsCommonSpace(ch) && ch != ';' && ch != '{'
  }

  /** A byte that, at a token boundary, starts a bare word. */
  predicate StartsBareWord(ch: char) {
    IsWordByte(ch) && ch != '}' && ch != '#' && ch != '"' && ch != '\''
  }

  predicate AllSpace(ws: seq<char>) {
    forall i :: 0 <= i < |ws| ==> IsCommonSpace(ws[i])
  }

  predicate AllWordBytes(w: seq<char>) {
    forall i :: 0 <= i < |w| ==> IsWordByte(w[i])
  }

  // ---------------------------------------------------------------------
  // Lemmas.

  lemma {:induction false} LFsAppend(a: seq<char>, b: seq<char>)
    ensures LFs(a + b) == LFs(a) + LFs(b)
    decreases |a|
  {
    if a == [] {
      assert a + b == b;
    } else {
      assert (a + b)[0] == a[0] && (a + b)[1..] == a[1..] + b;
      LFsAppend(a[1..], b);
    }
  }

  lemma LFsOne(ch: char)
    ensures LFs([ch]) == if ch == LF then 1 else 0
  {
    assert [ch][1..] == [];
  }

  /** Unfolding `Lex` over one byte that does not stop the machine. */
  lemma LexMore(s: LexState, rest: seq<char>, e: Ending, n: LexState)
    requires rest != [] && StepChar(s, rest[0]) == More(n)
    ensures Lex(s, rest, e) == Lex(n, rest[1..], e)
  {
    assert Lex(s, rest, e) == LexByte(s, rest, e);
  }

  /** Unfolding `Lex` over one byte that stops the machine. */
  lemma LexStop(s: LexState, rest: seq<char>, e: Ending, t: Token, f: LexState)
    requires rest != [] && StepChar(s, rest[0]) == Stop(t, f)
    ensures Lex(s, rest, e) == LexResult(t, f.args, rest[1..], f.line)
  {
    assert Lex(s, rest, e) == LexByte(s, rest, e);
  }

  /**
   * Every LF consumed counts one line: the call ends at the line it began
   * at plus the LFs it read, for every outcome except the "too long"
   * INVALID, whose line is put back to the token's start line.
   */
  lemma {:induction false} LexCountsLines(s: LexState, rest: seq<char>, e: Ending)
    ensures var r := Lex(s, rest, e);
            r.tok != Invalid || e != TooLong ==> r.line == s.line + LFs(rest[..|rest| - |r.rest|])
    decreases |rest|
  {
    var r := Lex(s, rest, e);
    if rest != [] {
      var k := |rest| - |r.rest|;
      var st := StepChar(s, rest[0]);
      LFsOne(rest[0]);
      if st.Stop? {
        LexStop(s, rest, e, st.tok, st.final);
        assert rest[..k] == [rest[0]];
        assert r.line == s.line + LFs(rest[..k]);
      } else {
        LexMore(s, rest, e, st.next);
        LexCountsLines(st.next, rest[1..], e);
        if r.tok != Invalid || e != TooLong {
          assert rest[..k] == [rest[0]] + rest[1..][..k - 1];
          LFsAppend([rest[0]], rest[1..][..k - 1]);
          assert r.line == s.line + LFs(rest[..k]);
        }
      }
    }
  }

  lemma StepSpaceAtBoundary(s: LexState, ch: char)
    requires s.mode == Boundary && IsCommonSpace(ch)
    ensures StepChar(s, ch) == More(AfterByte(s, ch))
  {
  }

  /** Spaces at a token boundary are skipped; each LF among them counts a line. */
  lemma {:induction false} SkipSpaces(s: LexState, ws: seq<char>, rest: seq<char>, e: Ending)
    requires s.mode == Boundary && AllSpace(ws)
    ensures Lex(s, ws + rest, e) == Lex(s.(line := s.line + LFs(ws)), rest, e)
    decreases |ws|
  {
    if ws != [] {
      var all := ws + rest;
      assert all[0] == ws[0] && all[1..] == ws[1..] + rest;
      StepSpaceAtBoundary(s, ws[0]);
      var n := AfterByte(s, ws[0]);
      LexMore(s, all, e, n);
      SkipSpaces(n, ws[1..], rest, e);
      assert n.line + LFs(ws[1..]) == s.line + LFs(ws);
      assert n.(line := n.line + LFs(ws[1..])) == s.(line := s.line + LFs(ws));
    } else {
      assert ws + rest == rest;
    }
  }

  lemma StepWordByte(s: LexState, ch: char)
    requires s.mode == Bare && IsWordByte(ch)
    ensures StepChar(s, ch) == More(s.(word := s.word + [ch]))
  {
  }

  /** Inside a bare word, word bytes are collected without stopping. */
  lemma {:induction false} BareWordRun(s: LexState, w: seq<char>, rest: seq<char>, e: Ending)
    requires s.mode == Bare && AllWordBytes(w)
    ensures Lex(s, w + rest, e) == Lex(s.(word := s.word + w), rest, e)
    decreases |w|
  {
    if w != [] {
      var all := w + rest;
      assert all[0] == w[0] && all[1..] == w[1..] + rest;
      var n := s.(word := s.word + [w[0]]);
      StepWordByte(s, w[0]);
      LexMore(s, all, e, n);
      BareWordRun(n, w[1..], rest, e);
      assert s.word + [w[0]] + w[1..] == s.word + w;
      assert n.(word := n.word + w[1..]) == s.(word := s.word + w);
    } else {
      assert w + rest == rest;
      assert s.word + w == s.word;
    }
  }

  lemma StepQuotedByte(s: LexState, ch: char)
    requires s.mode.Quoted? && ch != s.mode.close
    ensures StepChar(s, ch) == More(s.(word := s.word + [ch], line := s.line + LFs([ch])))
  {
  }

  /** One quoted byte that is not the closing quote. */
  lemma QuotedStep(s: LexState, c: char, q: seq<char>, rest: seq<char>, e: Ending)
    requires s.mode.Quoted? && c != s.mode.close
    ensures Lex(s, [c] + (q + rest), e) == Lex(s.(word := s.word + [c], line := s.line + LFs([c])), q + rest, e)
  {
    var all := [c] + (q + rest);
    assert all[0] == c && all[1..] == q + rest;
    StepQuotedByte(s, c);
    LexMore(s, all, e, s.(word := s.word + [c], line := s.line + LFs([c])));
  }

  /** Inside a quoted word, every byte but the closing quote is collected verbatim. */
  lemma {:induction false} QuotedRun(s: LexState, q: seq<char>, rest: seq<char>, e: Ending)
    requires s.mode.Quoted? && s.mode.close !in q
    ensures Lex(s, q + rest, e) == Lex(s.(word := s.word + q, line := s.line + LFs(q)), rest, e)
    decreases |q|
  {
    if q == [] {
      assert q + rest == rest;
      assert s.word + q == s.word;
    } else {
      var c, q1 := q[0], q[1..];
      assert q == [c] + q1;
      var n := s.(word := s.word + [c], line := s.line + LFs([c]));
      var m := s.(word := s.word + q, line := s.line + LFs(q));
      calc {
        Lex(s, q + rest, e);
        { assert q + rest == [c] + (q1 + rest); QuotedStep(s, c, q1, rest, e); }
        Lex(n, q1 + rest, e);
        { QuotedRun(n, q1, rest, e); }
        Lex(n.(word := n.word + q1, line := n.line + LFs(q1)), rest, e);
        { assert s.word + [c] + q1 == s.word + q;
          LFsAppend([c], q1);
          assert n.(word := n.word + q1, line := n.line + LFs(q1)) == m; }
        Lex(m, rest, e);
      }
    }
  }

  lemma StepCommentByte(s: LexState, ch: char)
    requires s.mode == Comment && ch != LF
    ensures StepChar(s, ch) == More(s)
  {
  }

  /** Inside a comment, every byte but LF is discarded. */
  lemma {:induction false} CommentRun(s: LexState, c: seq<char>, rest: seq<char>, e: Ending)
    requires s.mode == Comment && LF !in c
    ensures Lex(s, c + rest, e) == Lex(s, rest, e)
    decreases |c|
  {
    if c != [] {
      var all := c + rest;
      assert all[0] == c[0] && all[1..] == c[1..] + rest;
      StepCommentByte(s, c[0]);
      LexMore(s, all, e, s);
      CommentRun(s, c[1..], rest, e);
    } else {
      assert c + rest == rest;
    }
  }

  /**
   * At a token boundary, after any spaces: `;` and `{` are INVALID without
   * words and DIRECTIVE / BLOCK_START with words; `}` is BLOCK_END without
   * words and INVALID with words.
   */
  lemma BoundaryTerminator(s: LexState, ws: seq<char>, c: char, rest: seq<char>, e: Ending)
    requires s.mode == Boundary && AllSpace(ws) && (c == ';' || c == '{' || c == '}')
    ensures var r := Lex(s, ws + [c] + rest, e);
            && r.tok == (if c == '}' then (if |s.args| == 0 then BlockEnd else Invalid)
                         else if |s.args| == 0 then Invalid
                         else if c == ';' then Directive else BlockStart)
            && r.args == s.args && r.rest == rest && r.line == s.line + LFs(ws)
  {
    assert ws + [c] + rest == ws + ([c] + rest);
    SkipSpaces(s, ws, [c] + rest, e);
    assert ([c] + rest)[1..] == rest;
  }

  /** Bytes that run out at a token boundary, after spaces, give a clean EOF exactly when no word was read and the file is at its end. */
  lemma EofAtBoundary(s: LexState, ws: seq<char>, e: Ending)
    requires s.mode == Boundary && AllSpace(ws)
    ensures var r := Lex(s, ws, e);
            && (r.tok == Eof <==> |s.args| == 0 && e == AtEof)
            && (r.tok != Eof ==> r.tok == Invalid)
  {
    assert ws + [] == ws;
    SkipSpaces(s, ws, [], e);
  }

  /** Bytes that run out inside a word (bare, quoted, or just after a closing quote) give INVALID. */
  lemma EofInsideWord(s: LexState, e: Ending)
    requires !LastSpace(s.mode)
    ensures Lex(s, [], e).tok == Invalid
  {
  }

  // ---------------------------------------------------------------------
  // Single bytes that change the mode, stated on `Lex`.

  /** The first byte of a bare word, at a token boundary. */
  lemma OpenBareWord(s: LexState, ch: char, rest: seq<char>, e: Ending)
    requires s.mode == Boundary && StartsBareWord(ch)
    ensures Lex(s, [ch] + rest, e) == Lex(s.(startLine := s.line, mode := Bare, word := [ch]), rest, e)
  {
    var all := [ch] + rest;
    assert all[0] == ch && all[1..] == rest;
    LexMore(s, all, e, s.(startLine := s.line, mode := Bare, word := [ch]));
  }

  /** The byte that closes a bare word: whitespace goes on, `;` and `{` end the token. */
  lemma CloseBareWord(s: LexState, d: char, rest: seq<char>, e: Ending)
    requires s.mode == Bare && !IsWordByte(d)
    ensures var t := AfterByte(s, d).(mode := Boundary, args := s.args + [CString(s.word)]);
            Lex(s, [d] + rest, e) ==
              if d == ';' then LexResult(Directive, t.args, rest, t.line)
              else if d == '{' then LexResult(BlockStart, t.args, rest, t.line)
              else Lex(t, rest, e)
  {
    var all := [d] + rest;
    assert all[0] == d && all[1..] == rest;
    var t := AfterByte(s, d).(mode := Boundary, args := s.args + [CString(s.word)]);
    if d == ';' {
      LexStop(s, all, e, Directive, t);
    } else if d == '{' {
      LexStop(s, all, e, BlockStart, t);
    } else {
      LexMore(s, all, e, t);
    }
  }

  /** The opening quote of a quoted word, at a token boundary. */
  lemma OpenQuote(s: LexState, qc: char, rest: seq<char>, e: Ending)
    requires s.mode == Boundary && (qc == '"' || qc == '\'')
    ensures Lex(s, [qc] + rest, e) == Lex(s.(startLine := s.line, mode := Quoted(qc), word := []), rest, e)
  {
    var all := [qc] + rest;
    assert all[0] == qc && all[1..] == rest;
    LexMore(s, all, e, s.(startLine := s.line, mode := Quoted(qc), word := []));
  }

  /** The closing quote pushes the quoted word. */
  lemma CloseQuote(s: LexState, rest: seq<char>, e: Ending)
    requires s.mode.Quoted? && s.mode.close != LF
    ensures Lex(s, [s.mode.close] + rest, e)
         == Lex(s.(mode := AfterQuote, args := s.args + [CString(s.word)]), rest, e)
  {
    var all := [s.mode.close] + rest;
    assert all[0] == s.mode.close && all[1..] == rest;
    LexMore(s, all, e, s.(mode := AfterQuote, args := s.args + [CString(s.word)]));
  }

  /** The byte right after a closing quote: whitespace, `;` or `{`, or else INVALID. */
  lemma AfterCloseQuote(s: LexState, d: char, rest: seq<char>, e: Ending)
    requires s.mode == AfterQuote
    ensures var t := AfterByte(s, d);
            Lex(s, [d] + rest, e) ==
              if IsCommonSpace(d) then Lex(t.(mode := Boundary), rest, e)
              else if d == ';' then LexResult(Directive, t.args, rest, t.line)
              else if d == '{' then LexResult(BlockStart, t.args, rest, t.line)
              else LexResult(Invalid, t.args, rest, t.line)
  {
    var all := [d] + rest;
    assert all[0] == d && all[1..] == rest;
    var t := AfterByte(s, d);
    if IsCommonSpace(d) {
      LexMore(s, all, e, t.(mode := Boundary));
    } else if d == ';' {
      LexStop(s, all, e, Directive, t);
    } else if d == '{' {
      LexStop(s, all, e, BlockStart, t);
    } else {
      LexStop(s, all, e, Invalid, t);
    }
  }

  /** The `#` that opens a comment, at a token boundary. */
  lemma OpenComment(s: LexState, rest: seq<char>, e: Ending)
    requires s.mode == Boundary
    ensures Lex(s, ['#'] + rest, e) == Lex(s.(startLine := s.line, mode := Comment), rest, e)
  {
    var all := ['#'] + rest;
    assert all[0] == '#' && all[1..] == rest;
    LexMore(s, all, e, s.(startLine := s.line, mode := Comment));
  }

  /** The LF that ends a comment. */
  lemma CloseComment(s: LexState, rest: seq<char>, e: Ending)
    requires s.mode == Comment
    ensures Lex(s, [LF] + rest, e) == Lex(s.(line := s.line + 1, mode := Boundary), rest, e)
  {
    var all := [LF] + rest;
    assert all[0] == LF && all[1..] == rest;
    LexMore(s, all, e, s.(line := s.line + 1, mode := Boundary));
  }

  // ---------------------------------------------------------------------
  // Whole tokens.

  /**
   * A bare word at a token boundary is closed by whitespace, `;` or `{`; the
   * word pushed is its bytes without the delimiter, and `;` / `{` also end the
   * token in the same call. (Spaces before the word: `SkipSpaces`.)
   */
  lemma BareWordToken(s: LexState, w: seq<char>, d: char, rest: seq<char>, e: Ending)
    requires s.mode == Boundary
    requires |w| > 0 && StartsBareWord(w[0]) && AllWordBytes(w) && !IsWordByte(d)
    ensures var args := s.args + [CString(w)];
            Lex(s, w + ([d] + rest), e) ==
              if d == ';' then LexResult(Directive, args, rest, s.line)
              else if d == '{' then LexResult(BlockStart, args, rest, s.line)
              else Lex(s.(args := args, word := w, startLine := s.line, line := if d == LF then s.line + 1 else s.line), rest, e)
  {
    var s2 := s.(startLine := s.line, mode := Bare, word := [w[0]]);
    assert w + ([d] + rest) == [w[0]] + (w[1..] + ([d] + rest));
    OpenBareWord(s, w[0], w[1..] + ([d] + rest), e);
    BareWordRun(s2, w[1..], [d] + rest, e);
    assert [w[0]] + w[1..] == w;
    CloseBareWord(s2.(word := w), d, rest, e);
  }

  /** A quoted word from its opening to its closing quote. */
  lemma QuotedWord(s: LexState, qc: char, q: seq<char>, rest: seq<char>, e: Ending)
    requires s.mode == Boundary && (qc == '"' || qc == '\'') && qc !in q
    ensures Lex(s, [qc] + (q + ([qc] + rest)), e)
         == Lex(s.(startLine := s.line, mode := AfterQuote, word := q, line := s.line + LFs(q), args := s.args + [CString(q)]), rest, e)
  {
    var tail := [qc] + rest;
    var s2 := s.(startLine := s.line, mode := Quoted(qc), word := []);
    var s3 := s2.(word := s2.word + q, line := s2.line + LFs(q));
    var s4 := s3.(mode := AfterQuote, args := s3.args + [CString(s3.word)]);
    calc {
      Lex(s, [qc] + (q + tail), e);
      { OpenQuote(s, qc, q + tail, e); }
      Lex(s2, q + tail, e);
      { QuotedRun(s2, q, tail, e); }
      Lex(s3, tail, e);
      { CloseQuote(s3, rest, e); }
      Lex(s4, rest, e);
    }
    assert s2.word + q == q;
    assert s4 == s.(startLine := s.line, mode := AfterQuote, word := q, line := s.line + LFs(q), args := s.args + [CString(q)]);
  }

  /**
   * A quoted word at a token boundary holds exactly the bytes between the
   * quotes, verbatim (spaces, `#`, `;` included, LFs counted). After the
   * closing quote only whitespace, `;` or `{` is accepted.
   */
  lemma QuotedWordToken(s: LexState, qc: char, q: seq<char>, d: char, rest: seq<char>, e: Ending)
    requires s.mode == Boundary && (qc == '"' || qc == '\'') && qc !in q
    ensures var lq := s.line + LFs(q);
            var args := s.args + [CString(q)];
            var r := Lex(s, [qc] + (q + ([qc] + ([d] + rest))), e);
            if d == ';' then r == LexResult(Directive, args, rest, lq)
            else if d == '{' then r == LexResult(BlockStart, args, rest, lq)
            else if IsCommonSpace(d) then
              r == Lex(s.(args := args, word := q, startLine := s.line, line := if d == LF then lq + 1 else lq), rest, e)
            else r.tok == Invalid && r.rest == rest
  {
    var lq := s.line + LFs(q);
    var args := s.args + [CString(q)];
    var s4 := s.(startLine := s.line, mode := AfterQuote, word := q, line := lq, args := args);
    QuotedWord(s, qc, q, [d] + rest, e);
    AfterCloseQuote(s4, d, rest, e);
    if IsCommonSpace(d) {
      assert AfterByte(s4, d).(mode := Boundary)
          == s.(args := args, word := q, startLine := s.line, line := if d == LF then lq + 1 else lq);
    }
  }

  /** A `#` at a token boundary discards everything up to and including the next LF. */
  lemma CommentToken(s: LexState, c: seq<char>, rest: seq<char>, e: Ending)
    requires s.mode == Boundary && LF !in c
    ensures Lex(s, ['#'] + (c + ([LF] + rest)), e) == Lex(s.(line := s.line + 1, startLine := s.line), rest, e)
  {
    var s2 := s.(startLine := s.line, mode := Comment);
    OpenComment(s, c + ([LF] + rest), e);
    CommentRun(s2, c, [LF] + rest, e);
    CloseComment(s2, rest, e);
  }
}
