/** The bundled routine (`equalizeHeights` in the distributed build): decide
    the action, then either clear every managed element's height or group the
    managed elements by one key each and equalize every group. */
module Bundle {
  import opened Common
  import opened Dom
  import opened Breakpoints
  import opened Grouping
  import opened GroupReference
  import opened ObjectKeys
  import opened Equalize

  /** `Array.from(el.classList).find(cls => cls.startsWith("eh-"))`. */
  function FirstPrefixed(classes: seq<string>): (r: Option<string>)
    ensures r.None? <==> forall i :: 0 <= i < |classes| ==> !StartsWith(classes[i], Prefix)
    ensures r.Some? ==> exists i :: (0 <= i < |classes| && classes[i] == r.value && StartsWith(r.value, Prefix) &&
      forall j :: 0 <= j < i ==> !StartsWith(classes[j], Prefix))
  {
    if |classes| == 0 then None
    else if StartsWith(classes[0], Prefix) then Some(classes[0])
    else
      var r := FirstPrefixed(classes[1..]);
      assert forall i :: 1 <= i < |classes| ==> classes[i] == classes[1..][i - 1];
      r
  }

  /** The selector `[data-equalize], [class*="eh-"]`: the attribute is present
      (even empty) or some class mentions the prefix. */
  predicate Managed(e: Element) {
    e.dataEqualize.Some? || ClassMentionsPrefix(e)
  }

  /** The group key: a non-empty `data-equalize` value, else the first class
      starting with the prefix; `None` when the element has neither and is
      skipped. */
  function GroupKey(e: Element): (r: Option<string>)
    ensures r.Some? ==> r.value != ""
    ensures e.dataEqualize.Some? && e.dataEqualize.value != "" ==> r == e.dataEqualize
    ensures !(e.dataEqualize.Some? && e.dataEqualize.value != "") ==>
      (r.Some? <==> exists i :: 0 <= i < |e.classes| && StartsWith(e.classes[i], Prefix))
    ensures !(e.dataEqualize.Some? && e.dataEqualize.value != "") && r.Some? ==>
      exists i :: (0 <= i < |e.classes| && e.classes[i] == r.value && StartsWith(r.value, Prefix) &&
        forall j :: 0 <= j < i ==> !StartsWith(e.classes[j], Prefix))
  {
    if e.dataEqualize.Some? && e.dataEqualize.value != "" then e.dataEqualize
    else FirstPrefixed(e.classes)
  }

  /** Every element that has a key is matched by the query. */
  lemma KeyedIsManaged(e: Element)
    requires GroupKey(e).Some?
    ensures Managed(e)
  {
    if e.dataEqualize.None? {
      var i :| 0 <= i < |e.classes| && e.classes[i] == GroupKey(e).value && StartsWith(e.classes[i], Prefix);
      StartsWithContains(e.classes[i], Prefix);
    }
  }

  /** The key of an element as the query and the key computation see it. */
  function KeyOf(e: Element): Option<string> {
    if Managed(e) then GroupKey(e) else None
  }

  /** The keys an element yields: its one key, or none. */
  function BundleKeys(e: Element): (r: seq<string>)
    ensures |r| <= 1 && NoDup(r)
  {
    match KeyOf(e)
    case Some(k) => [k]
    case None => []
  }

  /** The managed nodes among the first `count`, in document order. */
  function ManagedNodes(doc: Document, count: nat): (r: seq<Node>)
    requires count <= |doc|
    ensures forall n: Node :: n in r <==> n < count && Managed(doc[n])
  {
    if count == 0 then []
    else if Managed(doc[count - 1]) then ManagedNodes(doc, count - 1) + [count - 1]
    else ManagedNodes(doc, count - 1)
  }

  /** The reset path: every managed element gets `auto`, including elements
      that have no key; nothing else changes. */
  function ResetAll(doc: Document, styles: Styles): (r: Styles)
    ensures forall n: Node :: n < |doc| && Managed(doc[n]) ==> Inline(r, n) == Some(Auto)
    ensures forall n: Node :: !(n < |doc| && Managed(doc[n])) ==> Inline(r, n) == Inline(styles, n)
  {
    SetAll(styles, ManagedNodes(doc, |doc|), Auto)
  }

  /** The nodes whose key is `k`, in document order. */
  function NodesWithKey(doc: Document, k: string): seq<Node> {
    NodesYielding(doc, BundleKeys, k, |doc|)
  }

  /** The reference height of group `k`: the tallest natural height among the
      elements whose key is `k`. */
  function GroupHeight(doc: Document, k: string): nat {
    Tallest(doc, NodesWithKey(doc, k))
  }

  /** What the equalize path leaves on node `n`: its group's height when it
      has a key, its old inline height otherwise. */
  function Equalized(doc: Document, styles: Styles, n: Node): Option<Height> {
    if n < |doc| && KeyOf(doc[n]).Some? then Some(Px(GroupHeight(doc, KeyOf(doc[n]).value)))
    else Inline(styles, n)
  }

  /** The grouping of the bundled routine is a partition of the keyed
      elements: a node is in the group of key `k` exactly when its key is `k`,
      and each group lists its members in document order. */
  lemma GroupsPartition(doc: Document, k: string, n: Node)
    ensures InGroup(AllGroups(doc, BundleKeys), k, n) <==> n < |doc| && KeyOf(doc[n]) == Some(k)
    ensures MembersOf(AllGroups(doc, BundleKeys), k) == NodesWithKey(doc, k)
  {
    DiscoverMembers(doc, BundleKeys, |doc|);
    GroupIsFilter(doc, BundleKeys, k);
  }

  /** An element yields key `k` exactly when its key is `k`. */
  lemma YieldsIff(e: Element, k: string)
    ensures k in BundleKeys(e) <==> KeyOf(e) == Some(k)
  {
  }

  /** Two different groups start at different elements, since an element
      belongs to one group at most. */
  lemma DistinctFirstMembers(doc: Document, ki: string, kj: string)
    requires ki != kj
    requires ki in AllGroups(doc, BundleKeys).members && kj in AllGroups(doc, BundleKeys).members
    ensures FirstMember(AllGroups(doc, BundleKeys), ki) != FirstMember(AllGroups(doc, BundleKeys), kj)
  {
    var g := AllGroups(doc, BundleKeys);
    DiscoverMembers(doc, BundleKeys, |doc|);
    DiscoverIncreasing(doc, BundleKeys, |doc|);
    assert |MembersOf(g, ki)| > 0 && |MembersOf(g, kj)| > 0;
    var a, b := FirstMember(g, ki), FirstMember(g, kj);
    assert InGroup(g, ki, a) && InGroup(g, kj, b);
    assert a < |doc| && ki in BundleKeys(doc[a]);
    assert b < |doc| && kj in BundleKeys(doc[b]);
    YieldsIff(doc[a], ki);
    YieldsIff(doc[b], kj);
  }

  /** Keys come out of the groups in first-seen order, except that keys that
      are array indices (`data-equalize="3"`) are visited first, in numeric
      order; every group is visited exactly as often as it was added. */
  lemma VisitOrder(doc: Document)
    ensures multiset(OwnKeys(AllGroups(doc, BundleKeys).order)) == multiset(AllGroups(doc, BundleKeys).order)
    ensures forall i, j :: 0 <= i < j < |AllGroups(doc, BundleKeys).order| ==>
      FirstMember(AllGroups(doc, BundleKeys), AllGroups(doc, BundleKeys).order[i]) <
      FirstMember(AllGroups(doc, BundleKeys), AllGroups(doc, BundleKeys).order[j])
  {
    var g := AllGroups(doc, BundleKeys);
    OwnKeysOrder(g.order);
    DiscoverFirstSeen(doc, BundleKeys, |doc|);
    DiscoverKeys(doc, BundleKeys, |doc|);
    forall i, j | 0 <= i < j < |g.order|
      ensures FirstMember(g, g.order[i]) < FirstMember(g, g.order[j])
    {
      DistinctFirstMembers(doc, g.order[i], g.order[j]);
    }
  }

  /** The `i`-th list visited holds exactly the nodes whose key is the `i`-th
      key listed, in document order. */
  lemma VisitedList(doc: Document, i: nat)
    requires i < |OwnKeys(AllGroups(doc, BundleKeys).order)|
    ensures var g := AllGroups(doc, BundleKeys);
      var k := OwnKeys(g.order)[i];
      && KeyedLists(g, OwnKeys(g.order))[i] == NodesWithKey(doc, k)
      && forall n: Node :: n in NodesWithKey(doc, k) <==> n < |doc| && KeyOf(doc[n]) == Some(k)
  {
    var g := AllGroups(doc, BundleKeys);
    var k := OwnKeys(g.order)[i];
    GroupIsFilter(doc, BundleKeys, k);
    forall n: Node
      ensures n in NodesWithKey(doc, k) <==> n < |doc| && KeyOf(doc[n]) == Some(k)
    {
      if n < |doc| {
        YieldsIff(doc[n], k);
      }
    }
  }

  /** The key of every keyed element is visited. */
  lemma KeyVisited(doc: Document, n: Node)
    requires n < |doc| && KeyOf(doc[n]).Some?
    ensures KeyOf(doc[n]).value in OwnKeys(AllGroups(doc, BundleKeys).order)
  {
    var g := AllGroups(doc, BundleKeys);
    var k := KeyOf(doc[n]).value;
    DiscoverKeys(doc, BundleKeys, |doc|);
    YieldsIff(doc[n], k);
    assert k in g.members;
    OwnKeysOrder(g.order);
    assert k in multiset(OwnKeys(g.order));
  }

  /** The equalize path: every keyed element ends at its group's height (the
      tallest natural height among the elements sharing its key), whatever
      order the groups are visited in; every other node keeps its height. */
  lemma EqualizePath(doc: Document, styles: Styles, n: Node)
    ensures Inline(EqualizeGroups(doc, styles, BundleKeys), n) == Equalized(doc, styles, n)
  {
    var g := AllGroups(doc, BundleKeys);
    var keys := OwnKeys(g.order);
    var lists := KeyedLists(g, keys);
    LastWriteWins(doc, styles, lists, n);
    if n < |doc| && KeyOf(doc[n]).Some? {
      var k := KeyOf(doc[n]).value;
      KeyVisited(doc, n);
      var i0 :| 0 <= i0 < |keys| && keys[i0] == k;
      VisitedList(doc, i0);
      assert n in lists[i0];
      var i := LastGroupOf(lists, n).value;
      VisitedList(doc, i);
    } else {
      forall i | 0 <= i < |lists|
        ensures n !in lists[i]
      {
        VisitedList(doc, i);
      }
    }
  }

  /** `equalizeHeights()` at viewport width `width`: only the action "reset"
      clears the managed elements; any other action, recognised or not,
      equalizes. */
  function EqualizeHeights(opts: Options, width: int, doc: Document, styles: Styles): (r: Styles)
    ensures SelectsReset(CurrentAction(opts, width)) ==>
      forall n: Node :: Inline(r, n) == (if n < |doc| && Managed(doc[n]) then Some(Auto) else Inline(styles, n))
    ensures !SelectsReset(CurrentAction(opts, width)) ==>
      forall n: Node :: Inline(r, n) == Equalized(doc, styles, n)
  {
    if SelectsReset(CurrentAction(opts, width)) then ResetAll(doc, styles)
    else
      var r := EqualizeGroups(doc, styles, BundleKeys);
      assert forall n: Node :: Inline(r, n) == Equalized(doc, styles, n) by {
        forall n: Node
          ensures Inline(r, n) == Equalized(doc, styles, n)
        {
          EqualizePath(doc, styles, n);
        }
      }
      r
  }

  /** Running the routine twice with nothing changed in between leaves the
      same heights as running it once. */
  lemma Idempotent(opts: Options, width: int, doc: Document, styles: Styles)
    ensures EqualizeHeights(opts, width, doc, EqualizeHeights(opts, width, doc, styles)) ==
            EqualizeHeights(opts, width, doc, styles)
  {
    var once := EqualizeHeights(opts, width, doc, styles);
    var twice := EqualizeHeights(opts, width, doc, once);
    SameInlineSameStyles(twice, once);
  }

  /** The height given to group `k` depends only on the members of group `k`:
      two documents that agree on which nodes have key `k` and on those nodes'
      natural heights give those nodes the same height, whatever else differs
      (other groups, other elements, earlier inline heights). */
  lemma GroupIsolation(doc1: Document, doc2: Document, s1: Styles, s2: Styles, k: string)
    requires forall n: Node :: (n < |doc1| && KeyOf(doc1[n]) == Some(k)) <==> (n < |doc2| && KeyOf(doc2[n]) == Some(k))
    requires forall n: Node :: n < |doc1| && KeyOf(doc1[n]) == Some(k) ==> n < |doc2| && doc1[n].natural == doc2[n].natural
    ensures GroupHeight(doc1, k) == GroupHeight(doc2, k)
    ensures forall n: Node :: n < |doc1| && KeyOf(doc1[n]) == Some(k) ==>
      Inline(EqualizeGroups(doc1, s1, BundleKeys), n) == Inline(EqualizeGroups(doc2, s2, BundleKeys), n)
  {
    var a := NodesWithKey(doc1, k);
    var b := NodesWithKey(doc2, k);
    IncreasingUnique(a, b);
    var h := GroupHeight(doc1, k);
    assert forall i :: 0 <= i < |a| ==> Natural(doc1, a[i]) == Natural(doc2, a[i]) by {
      forall i | 0 <= i < |a|
        ensures Natural(doc1, a[i]) == Natural(doc2, a[i])
      {
        assert a[i] in a;
      }
    }
    assert IsTallest(doc2, a, h);
    TallestUnique(doc2, a, h, GroupHeight(doc2, k));
    forall n: Node | n < |doc1| && KeyOf(doc1[n]) == Some(k)
      ensures Inline(EqualizeGroups(doc1, s1, BundleKeys), n) == Inline(EqualizeGroups(doc2, s2, BundleKeys), n)
    {
      EqualizePath(doc1, s1, n);
      EqualizePath(doc2, s2, n);
    }
  }

  /** A non-empty `data-equalize` value wins over an `eh-` class; a class that
      only contains the prefix (`teh-x`) gets the element reset but never
      grouped. */
  lemma KeyPrecedenceExample()
    ensures GroupKey(Element(Some("x"), ["eh-y"], 10)) == Some("x")
    ensures GroupKey(Element(Some(""), ["card", "eh-y", "eh-z"], 10)) == Some("eh-y")
    ensures Managed(Element(None, ["teh-x"], 10)) && KeyOf(Element(None, ["teh-x"], 10)).None?
  {
    assert StartsWith("eh-y", Prefix);
    assert "card"[..3] == "car";
    assert !StartsWith("card", Prefix);
    assert "teh-x"[..3] == "teh";
    assert !StartsWith("teh-x", Prefix);
    assert "teh-x"[1..] == "eh-x";
    assert StartsWith("teh-x"[1..], Prefix);
    assert Contains("teh-x", Prefix);
    var e := Element(None, ["teh-x"], 10);
    assert e.classes[0] == "teh-x";
    assert Contains(e.classes[0], Prefix);
  }

  /** An action that is not exactly "reset", such as "Reset", equalizes. */
  lemma UnrecognisedActionEqualizes(doc: Document, styles: Styles)
    ensures var opts := Options(Some([Breakpoint(None, None, Some("Reset"))]), None);
      EqualizeHeights(opts, 320, doc, styles) == EqualizeGroups(doc, styles, BundleKeys)
  {
  }
}
