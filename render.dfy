/**
 * A renderer for directive trees, as the inverse of parse_conf: a tree of
 * plain words rendered on one line parses back to the same tree.
 */
module ConfRender {
  import opened ConfLexer
  import opened ConfTree
  import opened ConfBuffer
  import opened ConfParser

  /** The words `ws` separated by single spaces. */
  function JoinWords(ws: seq<string>): string
    requires |ws| > 0
  {
    if |ws| == 1 then ws[0] else ws[0] + ([' '] + JoinWords(ws[1..]))
  }

  /** `name args;`, or `name args{children}` for a directive with a block. */
  function Render(n: Node): string
    decreases n, 1
  {
    JoinWords([n.name] + n.args) + (if n.children == [] then [';'] else ['{'] + RenderAll(n.children) + ['}'])
  }

  /** The directives `ns` one after another. */
  function RenderAll(ns: seq<Node>): string
    decreases ns, 0
  {
    if ns == [] then [] else Render(ns[0]) + RenderAll(ns[1..])
  }

  predicate AllPlain(ws: seq<string>) {
    forall k :: 0 <= k < |ws| ==> IsPlainWord(ws[k])
  }

  /** `n` and its descendants have plain-word names and arguments and are all at line `line`. */
  predicate Plain(n: Node, line: int)
    decreases n
  {
    && IsPlainWord(n.name) && AllPlain(n.args) && n.line == line
    && forall k :: 0 <= k < |n.children| ==> Plain(n.children[k], line)
  }

  /** A plain word ended by `;` or `{` ends the token with that word pushed. */
  lemma LastWord(s: LexState, w: string, d: char, rest: seq<char>, e: Ending)
    requires s.mode == Boundary && IsPlainWord(w) && (d == ';' || d == '{')
    ensures Lex(s, w + ([d] + rest), e)
         == LexResult(if d == ';' then Directive else BlockStart, s.args + [w], rest, s.line)
  {
    PlainWordKept(w);
    BareWordToken(s, w, d, rest, e);
  }

  /** A plain word followed by a space is pushed, and the token goes on between words. */
  lemma WordThenSpace(s: LexState, w: string, tail: seq<char>, e: Ending)
    requires s.mode == Boundary && IsPlainWord(w)
    ensures Lex(s, w + ([' '] + tail), e) == Lex(s.(args := s.args + [w], word := w, startLine := s.line), tail, e)
  {
    PlainWordKept(w);
    BareWordToken(s, w, ' ', tail, e);
  }

  lemma AllPlainTail(ws: seq<string>)
    requires |ws| > 0 && AllPlain(ws)
    ensures IsPlainWord(ws[0]) && AllPlain(ws[1..])
  {
    forall k | 0 <= k < |ws[1..]|
      ensures IsPlainWord(ws[1..][k])
    {
      assert ws[1..][k] == ws[k + 1];
    }
  }

  /** Plain words separated by spaces and ended by `;` or `{` are one DIRECTIVE or BLOCK_START token. */
  lemma {:induction false} WordsToken(s: LexState, ws: seq<string>, d: char, rest: seq<char>, e: Ending)
    requires s.mode == Boundary && |ws| > 0 && AllPlain(ws) && (d == ';' || d == '{')
    ensures Lex(s, JoinWords(ws) + ([d] + rest), e)
         == LexResult(if d == ';' then Directive else BlockStart, s.args + ws, rest, s.line)
    decreases |ws|
  {
    AllPlainTail(ws);
    if |ws| == 1 {
      LastWord(s, ws[0], d, rest, e);
      assert [ws[0]] == ws;
    } else {
      var tail := JoinWords(ws[1..]) + ([d] + rest);
      assert JoinWords(ws) + ([d] + rest) == ws[0] + ([' '] + tail);
      WordThenSpace(s, ws[0], tail, e);
      var s1 := s.(args := s.args + [ws[0]], word := ws[0], startLine := s.line);
      WordsToken(s1, ws[1..], d, rest, e);
      assert s1.args + ws[1..] == s.args + ws;
    }
  }

  /** The words of a plain directive: its name, then its arguments. */
  lemma DirectiveWords(n: Node, line: int)
    requires Plain(n, line)
    ensures var words := [n.name] + n.args;
            |words| > 0 && AllPlain(words) && words[0] == n.name && words[1..] == n.args
  {
    var words := [n.name] + n.args;
    forall k | 0 <= k < |words|
      ensures IsPlainWord(words[k])
    {
      if k > 0 {
        assert words[k] == n.args[k - 1];
      }
    }
    assert words[1..] == n.args;
  }

  /** A rendered plain directive without a block parses back to itself. */
  lemma LeafRoundTrip(n: Node, rest: seq<char>, e: Ending, line: int, inBlock: bool, acc: seq<Node>)
    requires Plain(n, line) && n.children == []
    ensures ParseItems(Render(n) + rest, e, line, inBlock, acc) == ParseItems(rest, e, line, inBlock, acc + [n])
  {
    var words := [n.name] + n.args;
    DirectiveWords(n, line);
    var input := JoinWords(words) + ([';'] + rest);
    assert Render(n) + rest == input;
    WordsToken(Start(line), words, ';', rest, e);
    DirectiveItem(input, e, line, inBlock, acc, words, rest, line);
  }

  /**
   * A rendered plain directive with a block parses back to itself, given
   * that its rendered children parse back to themselves.
   */
  lemma BlockRoundTrip(n: Node, rest: seq<char>, e: Ending, line: int, inBlock: bool, acc: seq<Node>)
    requires Plain(n, line) && n.children != []
    requires ParseItems(RenderAll(n.children) + (['}'] + rest), e, line, true, [])
          == ParseItems(['}'] + rest, e, line, true, n.children)
    ensures ParseItems(Render(n) + rest, e, line, inBlock, acc) == ParseItems(rest, e, line, inBlock, acc + [n])
  {
    var words := [n.name] + n.args;
    DirectiveWords(n, line);
    var close := ['}'] + rest;
    var body := RenderAll(n.children) + close;
    var input := JoinWords(words) + (['{'] + body);
    assert Render(n) + rest == input;
    WordsToken(Start(line), words, '{', body, e);
    assert [] + close == close;
    ClosingBrace([], rest, e, line, true, n.children);
    BlockItem(input, e, line, inBlock, acc, words, body, line, n.children, rest, line);
  }

  /** A rendered plain directive parses back to itself, and parsing goes on after it. */
  lemma {:induction false} RenderRoundTrip(n: Node, rest: seq<char>, e: Ending, line: int, inBlock: bool, acc: seq<Node>)
    requires Plain(n, line)
    ensures ParseItems(Render(n) + rest, e, line, inBlock, acc) == ParseItems(rest, e, line, inBlock, acc + [n])
    decreases n, 1
  {
    if n.children == [] {
      LeafRoundTrip(n, rest, e, line, inBlock, acc);
    } else {
      RenderAllRoundTrip(n.children, ['}'] + rest, e, line, true, []);
      assert [] + n.children == n.children;
      BlockRoundTrip(n, rest, e, line, inBlock, acc);
    }
  }

  /** Rendered plain directives parse back to themselves, in order, after those already parsed. */
  lemma {:induction false} RenderAllRoundTrip(ns: seq<Node>, rest: seq<char>, e: Ending, line: int, inBlock: bool, acc: seq<Node>)
    requires forall k :: 0 <= k < |ns| ==> Plain(ns[k], line)
    ensures ParseItems(RenderAll(ns) + rest, e, line, inBlock, acc) == ParseItems(rest, e, line, inBlock, acc + ns)
    decreases ns, 0
  {
    if ns == [] {
      assert RenderAll(ns) + rest == rest && acc + ns == acc;
    } else {
      var later := RenderAll(ns[1..]) + rest;
      RenderRoundTrip(ns[0], later, e, line, inBlock, acc);
      RenderAllRoundTrip(ns[1..], rest, e, line, inBlock, acc + [ns[0]]);
      ParsedInTurn(ns, rest, later, e, line, inBlock, acc);
    }
  }

  /** Parsing the rendering of `ns` is parsing its first directive, then the others. */
  lemma ParsedInTurn(ns: seq<Node>, rest: seq<char>, later: seq<char>, e: Ending, line: int, inBlock: bool, acc: seq<Node>)
    requires ns != [] && later == RenderAll(ns[1..]) + rest
    requires ParseItems(Render(ns[0]) + later, e, line, inBlock, acc) == ParseItems(later, e, line, inBlock, acc + [ns[0]])
    requires ParseItems(later, e, line, inBlock, acc + [ns[0]]) == ParseItems(rest, e, line, inBlock, acc + [ns[0]] + ns[1..])
    ensures ParseItems(RenderAll(ns) + rest, e, line, inBlock, acc) == ParseItems(rest, e, line, inBlock, acc + ns)
  {
    RenderAllCons(ns, rest);
    ConsAppend(acc, ns);
  }

  lemma RenderAllCons(ns: seq<Node>, rest: seq<char>)
    requires ns != []
    ensures RenderAll(ns) + rest == Render(ns[0]) + (RenderAll(ns[1..]) + rest)
  {
  }

  lemma ConsAppend(acc: seq<Node>, ns: seq<Node>)
    requires ns != []
    ensures acc + [ns[0]] + ns[1..] == acc + ns
  {
  }

  /**
   * A configuration file holding the rendering of plain directives at
   * line 1 parses to exactly those directives, provided it fits in one
   * 4096-byte window and read() delivers all of it.
   */
  lemma RenderedFileParses(ns: seq<Node>, readable: nat)
    requires forall k :: 0 <= k < |ns| ==> Plain(ns[k], 1)
    requires |RenderAll(ns)| <= Capacity && |RenderAll(ns)| <= readable
    ensures ParseFile(FileImage(RenderAll(ns), readable), []) == ParseResult(Ok, ns, [], 1)
  {
    var f := FileImage(RenderAll(ns), readable);
    assert FirstWindow(f) == RenderAll(ns) + [];
    RenderAllRoundTrip(ns, [], FirstEnding(f), 1, false, []);
    TrailingSpaces([], FirstEnding(f), 1, false, ns);
  }
}
