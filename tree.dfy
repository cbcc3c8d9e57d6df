/**
 * The directive tree built by the parser (SrsConfDirective) and its
 * read-only lookups: `get`, `at` and `arg0`..`arg2`.
 */
module ConfTree {

  datatype Option<T> = None | Some(value: T)

  /**
   * One directive: its name (the first word), the remaining words, the line
   * counter when its terminator was read, and the directives of its block.
   */
  datatype Node = Node(name: string, args: seq<string>, line: int, children: seq<Node>)
  {
    /** get(name): the first child whose name is `target`, or none. */
    function Get(target: string): (r: Option<Node>)
      ensures r.Some? <==> exists i :: 0 <= i < |children| && children[i].name == target
      ensures r.Some? ==> exists i :: IsFirstNamed(children, target, i) && children[i] == r.value
    {
      FindNamed(children, target)
    }

    /** at(index): the child at `index`; none where the source throws out_of_range. */
    function At(index: int): (r: Option<Node>)
      ensures r.Some? <==> 0 <= index < |children|
      ensures r.Some? ==> r.value == children[index]
    {
      if 0 <= index < |children| then Some(children[index]) else None
    }

    /** arg0(): the first argument, or the empty string when it has none. */
    function Arg0(): (r: string)
      ensures |args| > 0 ==> r == args[0]
      ensures |args| == 0 ==> r == ""
    {
      if |args| > 0 then args[0] else ""
    }

    /** arg1(): the second argument, or the empty string. */
    function Arg1(): (r: string)
      ensures |args| > 1 ==> r == args[1]
      ensures |args| <= 1 ==> r == ""
    {
      if |args| > 1 then args[1] else ""
    }

    /** arg2(): the third argument, or the empty string. */
    function Arg2(): (r: string)
      ensures |args| > 2 ==> r == args[2]
      ensures |args| <= 2 ==> r == ""
    {
      if |args| > 2 then args[2] else ""
    }
  }

  /** `ns[i]` is named `target` and no earlier node is. */
  predicate IsFirstNamed(ns: seq<Node>, target: string, i: int) {
    0 <= i < |ns| && ns[i].name == target && forall j :: 0 <= j < i ==> ns[j].name != target
  }

  /** The linear scan behind `get`: the first node of `ns` named `target`. */
  function FindNamed(ns: seq<Node>, target: string): (r: Option<Node>)
    ensures r.Some? <==> exists i :: 0 <= i < |ns| && ns[i].name == target
    ensures r.Some? ==> exists i :: IsFirstNamed(ns, target, i) && ns[i] == r.value
    decreases |ns|
  {
    if ns == [] then None
    else if ns[0].name == target then
      assert IsFirstNamed(ns, target, 0);
      Some(ns[0])
    else
      var r := FindNamed(ns[1..], target);
      assert forall i :: 0 < i < |ns| ==> ns[i] == ns[1..][i - 1];
      if r.Some? then
        var k :| IsFirstNamed(ns[1..], target, k) && ns[1..][k] == r.value;
        assert IsFirstNamed(ns, target, k + 1);
        r
      else r
  }
}
