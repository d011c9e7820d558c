/** Height assignment: each group is cleared to `auto`, measured, and set to
    its tallest member's height; groups are handled one after another. */
module Equalize {
  import opened Common
  import opened Dom
  import opened Grouping
  import opened ObjectKeys

  /** `h` is the tallest natural height among `nodes`, and 0 when there are none. */
  predicate IsTallest(doc: Document, nodes: seq<Node>, h: nat) {
    && (forall i :: 0 <= i < |nodes| ==> Natural(doc, nodes[i]) <= h)
    && (|nodes| == 0 ==> h == 0)
    && (|nodes| > 0 ==> exists i :: 0 <= i < |nodes| && Natural(doc, nodes[i]) == h)
  }

  /** The reference height of a group: its tallest member's natural height. */
  function Tallest(doc: Document, nodes: seq<Node>): (h: nat)
    ensures IsTallest(doc, nodes, h)
  {
    if |nodes| == 0 then 0
    else
      var rest := Tallest(doc, nodes[1..]);
      assert forall i :: 1 <= i < |nodes| ==> nodes[i] == nodes[1..][i - 1];
      if Natural(doc, nodes[0]) < rest then rest else Natural(doc, nodes[0])
  }

  lemma TallestUnique(doc: Document, nodes: seq<Node>, h1: nat, h2: nat)
    requires IsTallest(doc, nodes, h1) && IsTallest(doc, nodes, h2)
    ensures h1 == h2
  {
    if |nodes| > 0 {
      var i1 :| 0 <= i1 < |nodes| && Natural(doc, nodes[i1]) == h1;
      var i2 :| 0 <= i2 < |nodes| && Natural(doc, nodes[i2]) == h2;
    }
  }

  /** The measuring pass: `maxHeight` starts at 0 and takes
      `Math.max(maxHeight, el.offsetHeight)` for each member in order. The result
      is the largest height the members currently report. */
  function Measure(doc: Document, styles: Styles, nodes: seq<Node>): (m: nat)
    ensures forall i :: 0 <= i < |nodes| ==> OffsetHeight(doc, styles, nodes[i]) <= m
    ensures |nodes| == 0 ==> m == 0
    ensures |nodes| > 0 ==> exists i :: 0 <= i < |nodes| && OffsetHeight(doc, styles, nodes[i]) == m
  {
    if |nodes| == 0 then 0
    else
      var prefix := nodes[..|nodes| - 1];
      var m := Measure(doc, styles, prefix);
      assert forall i :: 0 <= i < |prefix| ==> prefix[i] == nodes[i];
      Max(m, OffsetHeight(doc, styles, nodes[|nodes| - 1]))
  }

  /** Measured while every member is `auto`, the pass yields the tallest
      natural height. */
  lemma MeasureAfterClear(doc: Document, styles: Styles, nodes: seq<Node>)
    requires forall i :: 0 <= i < |nodes| ==> Inline(styles, nodes[i]) == Some(Auto)
    ensures Measure(doc, styles, nodes) == Tallest(doc, nodes)
  {
    var m := Measure(doc, styles, nodes);
    assert forall i :: 0 <= i < |nodes| ==> OffsetHeight(doc, styles, nodes[i]) == Natural(doc, nodes[i]);
    TallestUnique(doc, nodes, m, Tallest(doc, nodes));
  }

  /** Without the `auto` pass a member still holding an earlier pixel height is
      measured at that height, not at its natural one. */
  lemma SkippingClearMeasuresStaleHeight()
    ensures var doc := [Element(None, ["eh-a"], 40)];
      Measure(doc, map[0 := Px(100)], [0]) == 100 != Tallest(doc, [0])
  {
    var doc := [Element(None, ["eh-a"], 40)];
    assert Tallest(doc, [0]) == 40;
  }

  /** One group: every member is set to `auto`, then all are measured, then all
      are set to the largest measurement. Members end at the group's tallest
      natural height; nothing else changes. */
  function EqualizeGroup(doc: Document, styles: Styles, nodes: seq<Node>): (r: Styles)
    ensures forall i :: 0 <= i < |nodes| ==> Inline(r, nodes[i]) == Some(Px(Tallest(doc, nodes)))
    ensures forall n :: n !in nodes ==> Inline(r, n) == Inline(styles, n)
  {
    var cleared := SetAll(styles, nodes, Auto);
    MeasureAfterClear(doc, cleared, nodes);
    SetAll(cleared, nodes, Px(Measure(doc, cleared, nodes)))
  }

  /** The groups handled in order, each on the heights the previous ones left. */
  function ApplyAll(doc: Document, styles: Styles, groups: seq<seq<Node>>): Styles {
    if |groups| == 0 then styles
    else EqualizeGroup(doc, ApplyAll(doc, styles, groups[..|groups| - 1]), groups[|groups| - 1])
  }

  /** The position of the last group that contains `n`. */
  function LastGroupOf(groups: seq<seq<Node>>, n: Node): (r: Option<nat>)
    ensures r.Some? ==> r.value < |groups| && n in groups[r.value]
    ensures r.Some? ==> forall j :: r.value < j < |groups| ==> n !in groups[j]
    ensures r.None? ==> forall j :: 0 <= j < |groups| ==> n !in groups[j]
  {
    if |groups| == 0 then None
    else if n in groups[|groups| - 1] then Some(|groups| - 1)
    else LastGroupOf(groups[..|groups| - 1], n)
  }

  /** The height a node ends with after all groups: the tallest natural height
      of the last group containing it, or its old inline height when no group
      contains it. */
  function FinalHeight(doc: Document, styles: Styles, groups: seq<seq<Node>>, n: Node): Option<Height> {
    match LastGroupOf(groups, n)
    case Some(i) => Some(Px(Tallest(doc, groups[i])))
    case None => Inline(styles, n)
  }

  /** Later writes overwrite earlier ones: a node ends with the height of the
      last group that contains it, and a node in no group keeps its height. */
  lemma {:induction false} LastWriteWins(doc: Document, styles: Styles, groups: seq<seq<Node>>, n: Node)
    ensures Inline(ApplyAll(doc, styles, groups), n) == FinalHeight(doc, styles, groups, n)
  {
    if |groups| > 0 {
      var prefix := groups[..|groups| - 1];
      LastWriteWins(doc, styles, prefix, n);
      if n !in groups[|groups| - 1] {
        assert LastGroupOf(groups, n) == LastGroupOf(prefix, n);
        match LastGroupOf(prefix, n)
        case Some(i) => assert groups[i] == prefix[i];
        case None =>
      }
    }
  }

  /** The member lists of the groups, in the order `Object.keys` lists them. */
  function KeyedLists(g: Groups, keys: seq<string>): (r: seq<seq<Node>>)
    ensures |r| == |keys|
    ensures forall i :: 0 <= i < |keys| ==> r[i] == MembersOf(g, keys[i])
  {
    seq(|keys|, i requires 0 <= i < |keys| => MembersOf(g, keys[i]))
  }

  /** `Object.keys(groups).forEach(...)` over the groups of the document. */
  function EqualizeGroups(doc: Document, styles: Styles, keysOf: Element -> seq<string>): Styles {
    var g := AllGroups(doc, keysOf);
    ApplyAll(doc, styles, KeyedLists(g, OwnKeys(g.order)))
  }

  /** Running the same groups a second time changes nothing: every height the
      run writes depends only on the natural heights. */
  lemma ApplyAllIdempotent(doc: Document, styles: Styles, groups: seq<seq<Node>>)
    ensures ApplyAll(doc, ApplyAll(doc, styles, groups), groups) == ApplyAll(doc, styles, groups)
  {
    var once := ApplyAll(doc, styles, groups);
    var twice := ApplyAll(doc, once, groups);
    forall n: Node
      ensures Inline(twice, n) == Inline(once, n)
    {
      LastWriteWins(doc, styles, groups, n);
      LastWriteWins(doc, once, groups, n);
    }
    SameInlineSameStyles(once, twice);
  }

  /** Styles that agree on every node's inline height are the same. */
  lemma SameInlineSameStyles(a: Styles, b: Styles)
    requires forall n: Node :: Inline(a, n) == Inline(b, n)
    ensures a == b
  {
    forall n | n in a
      ensures n in b && a[n] == b[n]
    {
      assert Inline(a, n) == Inline(b, n);
    }
    forall n | n in b
      ensures n in a
    {
      assert Inline(a, n) == Inline(b, n);
    }
  }
}
