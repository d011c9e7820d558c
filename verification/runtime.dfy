/** The earlier, class-only routine (`equalizeHeights` in the unbundled
    runtime): every `eh-` class of an element is a group the element joins, so
    one element may belong to several groups. */
module Runtime {
  import opened Common
  import opened Dom
  import opened Breakpoints
  import opened Grouping
  import opened GroupReference
  import opened ObjectKeys
  import opened Equalize
  import Bundle

  /** The classes that start with the prefix, in class-list order. */
  function PrefixedClasses(classes: seq<string>): (r: seq<string>)
    requires NoDup(classes)
    ensures forall c :: c in r <==> c in classes && StartsWith(c, Prefix)
    ensures NoDup(r)
    ensures forall i, j :: 0 <= i < j < |r| ==> Precedes(classes, r[i], r[j])
  {
    if |classes| == 0 then []
    else
      var tail := classes[1..];
      var rest := PrefixedClasses(tail);
      assert forall i :: 1 <= i < |classes| ==> classes[i] == tail[i - 1];
      assert classes[0] !in tail;
      PrecedesInTail(classes, rest);
      if StartsWith(classes[0], Prefix) then
        var r := [classes[0]] + rest;
        forall i, j | 0 <= i < j < |r|
          ensures Precedes(classes, r[i], r[j])
        {
          if i == 0 {
            assert r[j] == rest[j - 1] && rest[j - 1] in tail;
            var b :| 0 <= b < |tail| && tail[b] == r[j];
            assert classes[0] == r[0] && classes[b + 1] == r[j];
          } else {
            assert r[i] == rest[i - 1] && r[j] == rest[j - 1];
          }
        }
        r
      else rest
  }

  /** Order in the tail of a list is order in the list. */
  lemma PrecedesInTail(classes: seq<string>, rest: seq<string>)
    requires |classes| > 0
    requires forall i, j :: 0 <= i < j < |rest| ==> Precedes(classes[1..], rest[i], rest[j])
    ensures forall i, j :: 0 <= i < j < |rest| ==> Precedes(classes, rest[i], rest[j])
  {
    forall i, j | 0 <= i < j < |rest|
      ensures Precedes(classes, rest[i], rest[j])
    {
      var a, b :| 0 <= a < b < |classes[1..]| && classes[1..][a] == rest[i] && classes[1..][b] == rest[j];
      assert classes[a + 1] == rest[i] && classes[b + 1] == rest[j];
    }
  }

  /** The keys an element yields: with the selector `[class*="eh-"]` matching,
      every class that starts with the prefix. */
  function LegacyKeys(e: Element): seq<string> {
    if ClassMentionsPrefix(e) then PrefixedClasses(e.classes) else []
  }

  /** An element yields key `k` exactly when `k` is one of its classes and
      starts with the prefix: the selector never hides such an element. */
  lemma LegacyKeysIff(e: Element, k: string)
    ensures k in LegacyKeys(e) <==> k in e.classes && StartsWith(k, Prefix)
  {
    if k in e.classes && StartsWith(k, Prefix) {
      var i :| 0 <= i < |e.classes| && e.classes[i] == k;
      StartsWithContains(e.classes[i], Prefix);
    }
  }

  /** `equalizeHeights()` of the class-only routine. */
  function RuntimeEqualize(doc: Document, styles: Styles): Styles {
    EqualizeGroups(doc, styles, LegacyKeys)
  }

  /** The nodes carrying class `k`, in document order. */
  function NodesWithClass(doc: Document, k: string): seq<Node> {
    NodesYielding(doc, LegacyKeys, k, |doc|)
  }

  /** The height group `k` is given: the tallest natural height among the
      elements carrying class `k`. */
  function ClassGroupHeight(doc: Document, k: string): nat {
    Tallest(doc, NodesWithClass(doc, k))
  }

  /** A legacy key starts with "e", so it is never an array index. */
  lemma LegacyKeyIsNamed(e: Element, k: string)
    requires k in LegacyKeys(e)
    ensures !IsArrayIndex(k)
  {
    LegacyKeysIff(e, k);
    assert k[0] == k[..3][0] == 'e';
    NonDigitStartIsNamed(k);
  }

  /** Groups are visited in the order their class was first seen: no legacy
      key is an array index. */
  lemma LegacyVisitOrder(doc: Document)
    ensures OwnKeys(AllGroups(doc, LegacyKeys).order) == AllGroups(doc, LegacyKeys).order
  {
    var g := AllGroups(doc, LegacyKeys);
    DiscoverKeys(doc, LegacyKeys, |doc|);
    forall i | 0 <= i < |g.order|
      ensures !IsArrayIndex(g.order[i])
    {
      var k := g.order[i];
      assert k in g.members;
      var n :| 0 <= n < |doc| && k in LegacyKeys(doc[n]);
      LegacyKeyIsNamed(doc[n], k);
    }
    OwnKeysOfNamed(g.order);
  }

  /** Two classes first seen on the same element are visited in that
      element's class-list order. */
  lemma LegacyClassOrder(doc: Document)
    ensures var g := AllGroups(doc, LegacyKeys);
      forall i, j :: 0 <= i < j < |g.order| && FirstMember(g, g.order[i]) == FirstMember(g, g.order[j]) ==>
        FirstMember(g, g.order[i]) < |doc| && Precedes(doc[FirstMember(g, g.order[i])].classes, g.order[i], g.order[j])
  {
    var g := AllGroups(doc, LegacyKeys);
    DiscoverFirstSeen(doc, LegacyKeys, |doc|);
    forall i, j | 0 <= i < j < |g.order| && FirstMember(g, g.order[i]) == FirstMember(g, g.order[j])
      ensures FirstMember(g, g.order[i]) < |doc|
      ensures Precedes(doc[FirstMember(g, g.order[i])].classes, g.order[i], g.order[j])
    {
      assert g == Discover(doc, LegacyKeys, |doc|);
      var e := doc[FirstMember(g, g.order[i])];
      var keys := LegacyKeys(e);
      var a, b :| 0 <= a < b < |keys| && keys[a] == g.order[i] && keys[b] == g.order[j];
      assert keys == PrefixedClasses(e.classes);
    }
  }

  /** The lists visited are the groups in first-seen order, each holding
      exactly its class's elements in document order. */
  lemma VisitedClassLists(doc: Document)
    ensures var g := AllGroups(doc, LegacyKeys);
      && KeyedLists(g, OwnKeys(g.order)) == KeyedLists(g, g.order)
      && forall i :: 0 <= i < |g.order| ==> KeyedLists(g, g.order)[i] == NodesWithClass(doc, g.order[i])
  {
    var g := AllGroups(doc, LegacyKeys);
    LegacyVisitOrder(doc);
    forall i | 0 <= i < |g.order|
      ensures MembersOf(g, g.order[i]) == NodesWithClass(doc, g.order[i])
    {
      GroupIsFilter(doc, LegacyKeys, g.order[i]);
    }
  }

  /** A node is in the `i`-th visited list exactly when it carries class
      `order[i]`. */
  lemma InClassList(doc: Document, i: nat, n: Node)
    requires i < |AllGroups(doc, LegacyKeys).order|
    ensures var g := AllGroups(doc, LegacyKeys);
      n in KeyedLists(g, g.order)[i] <==> n < |doc| && g.order[i] in LegacyKeys(doc[n])
  {
    VisitedClassLists(doc);
    var g := AllGroups(doc, LegacyKeys);
    if n < |doc| {
      LegacyKeysIff(doc[n], g.order[i]);
    }
  }

  /** A node's first `eh-` class is one of the listed keys. */
  lemma ClassListed(doc: Document, n: Node)
    requires n < |doc| && |LegacyKeys(doc[n])| > 0
    ensures var g := AllGroups(doc, LegacyKeys);
      exists i :: 0 <= i < |g.order| && g.order[i] == LegacyKeys(doc[n])[0]
  {
    var g := AllGroups(doc, LegacyKeys);
    DiscoverKeys(doc, LegacyKeys, |doc|);
    assert LegacyKeys(doc[n])[0] in g.members;
  }

  /** The class-only routine applies the groups in first-seen order. */
  lemma RuntimeApplies(doc: Document, styles: Styles)
    ensures var g := AllGroups(doc, LegacyKeys);
      RuntimeEqualize(doc, styles) == ApplyAll(doc, styles, KeyedLists(g, g.order))
  {
    VisitedClassLists(doc);
  }

  /** An element with no `eh-` class keeps its height. */
  lemma RuntimeUnclassed(doc: Document, styles: Styles, n: Node)
    requires !(n < |doc| && |LegacyKeys(doc[n])| > 0)
    ensures Inline(RuntimeEqualize(doc, styles), n) == Inline(styles, n)
  {
    var g := AllGroups(doc, LegacyKeys);
    var lists := KeyedLists(g, g.order);
    RuntimeApplies(doc, styles);
    LastWriteWins(doc, styles, lists, n);
    forall i | 0 <= i < |lists|
      ensures n !in lists[i]
    {
      InClassList(doc, i, n);
    }
    assert LastGroupOf(lists, n).None?;
  }

  /** An element with `eh-` classes ends at the height of the group, among its
      own, that was visited last. Membership in a shared group therefore does
      not mean equal heights. */
  lemma RuntimeClassed(doc: Document, styles: Styles, n: Node)
    requires n < |doc| && |LegacyKeys(doc[n])| > 0
    ensures var order := AllGroups(doc, LegacyKeys).order;
      exists i :: 0 <= i < |order| && order[i] in LegacyKeys(doc[n])
        && (forall j :: i < j < |order| ==> order[j] !in LegacyKeys(doc[n]))
        && Inline(RuntimeEqualize(doc, styles), n) == Some(Px(ClassGroupHeight(doc, order[i])))
  {
    var g := AllGroups(doc, LegacyKeys);
    var lists := KeyedLists(g, g.order);
    RuntimeApplies(doc, styles);
    VisitedClassLists(doc);
    LastWriteWins(doc, styles, lists, n);
    ClassListed(doc, n);
    var i0 :| 0 <= i0 < |g.order| && g.order[i0] == LegacyKeys(doc[n])[0];
    InClassList(doc, i0, n);
    assert n in lists[i0];
    var i := LastGroupOf(lists, n).value;
    InClassList(doc, i, n);
    forall j | i < j < |g.order|
      ensures g.order[j] !in LegacyKeys(doc[n])
    {
      InClassList(doc, j, n);
    }
    assert Inline(RuntimeEqualize(doc, styles), n) == Some(Px(ClassGroupHeight(doc, g.order[i])));
  }

  /** A (`eh-a eh-b`, 10px), B (`eh-a`, 50px) and C (`eh-b`, 20px). */
  function OverlapPage(): Document {
    [Element(None, ["eh-a", "eh-b"], 10), Element(None, ["eh-a"], 50), Element(None, ["eh-b"], 20)]
  }

  /** A yields `eh-a` and `eh-b`, B yields `eh-a`, C yields `eh-b`. */
  lemma OverlapKeys()
    ensures LegacyKeys(OverlapPage()[0]) == ["eh-a", "eh-b"]
    ensures LegacyKeys(OverlapPage()[1]) == ["eh-a"]
    ensures LegacyKeys(OverlapPage()[2]) == ["eh-b"]
  {
    var doc := OverlapPage();
    assert StartsWith("eh-a", Prefix) && StartsWith("eh-b", Prefix);
    StartsWithContains(doc[0].classes[0], Prefix);
    StartsWithContains(doc[1].classes[0], Prefix);
    StartsWithContains(doc[2].classes[0], Prefix);
    assert doc[0].classes[1..] == ["eh-b"];
  }

  /** Any three elements yielding `eh-a eh-b`, `eh-a` and `eh-b` form the
      groups `eh-a` = {0, 1} and `eh-b` = {0, 2}. */
  lemma OverlapDiscover(doc: Document, keysOf: Element -> seq<string>)
    requires |doc| == 3
    requires keysOf(doc[0]) == ["eh-a", "eh-b"] && keysOf(doc[1]) == ["eh-a"] && keysOf(doc[2]) == ["eh-b"]
    ensures Discover(doc, keysOf, 3) == Groups(["eh-a", "eh-b"], map["eh-a" := [0, 1], "eh-b" := [0, 2]])
  {
    var ab: seq<string> := ["eh-a", "eh-b"];
    assert ab[..1] == ["eh-a"] && ["eh-a"][..0] == [] && ["eh-b"][..0] == [];
    assert PushAll(NoGroups, ["eh-a"], 0) == Push(NoGroups, "eh-a", 0);
    var g0 := Push(NoGroups, "eh-a", 0);
    assert g0 == Groups(["eh-a"], map["eh-a" := [0]]);
    var g1 := Discover(doc, keysOf, 1);
    assert Discover(doc, keysOf, 0) == NoGroups;
    assert g1 == PushAll(Discover(doc, keysOf, 0), keysOf(doc[0]), 0);
    assert g1 == PushAll(NoGroups, ab, 0);
    assert PushAll(NoGroups, ab, 0) == Push(PushAll(NoGroups, ab[..1], 0), ab[1], 0);
    assert g1 == Push(g0, "eh-b", 0);
    assert g1 == Groups(["eh-a", "eh-b"], map["eh-a" := [0], "eh-b" := [0]]);
    var g2 := Discover(doc, keysOf, 2);
    assert PushAll(g1, ["eh-a"], 1) == Push(g1, "eh-a", 1);
    assert g2 == Push(g1, "eh-a", 1);
    assert "eh-a" in g1.members && g1.members["eh-a"] + [1] == [0, 1];
    assert g2 == Groups(["eh-a", "eh-b"], map["eh-a" := [0, 1], "eh-b" := [0]]);
    assert PushAll(g2, ["eh-b"], 2) == Push(g2, "eh-b", 2);
    assert Discover(doc, keysOf, 3) == Push(g2, "eh-b", 2);
    assert "eh-b" in g2.members && g2.members["eh-b"] + [2] == [0, 2];
  }

  /** The page has two groups, `eh-a` = {A, B} and `eh-b` = {A, C}. */
  lemma OverlapGroups()
    ensures AllGroups(OverlapPage(), LegacyKeys) == Groups(["eh-a", "eh-b"], map["eh-a" := [0, 1], "eh-b" := [0, 2]])
  {
    OverlapKeys();
    OverlapDiscover(OverlapPage(), LegacyKeys);
  }

  /** The groups of the page are visited as the lists {A, B}, then {A, C}. */
  lemma OverlapLists()
    ensures var g := AllGroups(OverlapPage(), LegacyKeys);
      KeyedLists(g, g.order) == [[0, 1], [0, 2]]
  {
    OverlapGroups();
  }

  /** After {A, B} (tallest 50px) and then {A, C} (tallest 20px), A was last
      written by the second group. */
  lemma OverlapFinal(styles: Styles, lists: seq<seq<Node>>)
    requires lists == [[0, 1], [0, 2]]
    ensures FinalHeight(OverlapPage(), styles, lists, 0) == Some(Px(20))
    ensures FinalHeight(OverlapPage(), styles, lists, 1) == Some(Px(50))
    ensures FinalHeight(OverlapPage(), styles, lists, 2) == Some(Px(20))
  {
    var doc := OverlapPage();
    assert Tallest(doc, [0, 1]) == 50;
    assert Tallest(doc, [0, 2]) == 20;
    assert LastGroupOf(lists, 0) == Some(1);
    assert LastGroupOf(lists, 1) == Some(0);
    assert LastGroupOf(lists, 2) == Some(1);
  }

  /** Two elements sharing class `eh-a` end at different heights when one of
      them also carries a group visited later: A, B and C end at 20px, 50px
      and 20px, whatever heights they held before. */
  lemma OverlapExample(styles: Styles)
    ensures var r := RuntimeEqualize(OverlapPage(), styles);
      Inline(r, 0) == Some(Px(20)) && Inline(r, 1) == Some(Px(50)) && Inline(r, 2) == Some(Px(20))
  {
    var doc := OverlapPage();
    var g := AllGroups(doc, LegacyKeys);
    var lists := KeyedLists(g, g.order);
    RuntimeApplies(doc, styles);
    OverlapLists();
    OverlapFinal(styles, lists);
    LastWriteWins(doc, styles, lists, 0);
    LastWriteWins(doc, styles, lists, 1);
    LastWriteWins(doc, styles, lists, 2);
  }

  /** A second run of the class-only routine changes nothing. */
  lemma RuntimeIdempotent(doc: Document, styles: Styles)
    ensures RuntimeEqualize(doc, RuntimeEqualize(doc, styles)) == RuntimeEqualize(doc, styles)
  {
    var g := AllGroups(doc, LegacyKeys);
    ApplyAllIdempotent(doc, styles, KeyedLists(g, OwnKeys(g.order)));
  }

  /** The first class with the prefix is the head of the prefixed classes. */
  lemma {:induction false} FirstPrefixedIsHead(classes: seq<string>)
    requires NoDup(classes)
    ensures Bundle.FirstPrefixed(classes) ==
      (if |PrefixedClasses(classes)| > 0 then Some(PrefixedClasses(classes)[0]) else None)
  {
    if |classes| > 0 {
      assert NoDup(classes[1..]) by {
        assert forall i :: 0 <= i < |classes[1..]| ==> classes[1..][i] == classes[i + 1];
      }
      FirstPrefixedIsHead(classes[1..]);
    }
  }

  /** Groups depend only on the keys the document's elements yield. */
  lemma {:induction false} DiscoverSameKeys(doc: Document, f: Element -> seq<string>, h: Element -> seq<string>, count: nat)
    requires count <= |doc|
    requires forall n :: 0 <= n < |doc| ==> f(doc[n]) == h(doc[n])
    ensures Discover(doc, f, count) == Discover(doc, h, count)
  {
    if count > 0 {
      DiscoverSameKeys(doc, f, h, count - 1);
    }
  }

  /** On a page where no element has a `data-equalize` attribute and none has
      two `eh-` classes, the bundled routine's equalize path and the class-only
      routine give every element the same height; so do the two routines
      whenever the options do not select "reset". */
  lemma AgreesWithBundle(opts: Options, width: int, doc: Document, styles: Styles)
    requires forall n :: 0 <= n < |doc| ==> doc[n].dataEqualize.None? && |PrefixedClasses(doc[n].classes)| <= 1
    ensures RuntimeEqualize(doc, styles) == EqualizeGroups(doc, styles, Bundle.BundleKeys)
    ensures !SelectsReset(CurrentAction(opts, width)) ==>
      RuntimeEqualize(doc, styles) == Bundle.EqualizeHeights(opts, width, doc, styles)
  {
    forall n | 0 <= n < |doc|
      ensures LegacyKeys(doc[n]) == Bundle.BundleKeys(doc[n])
    {
      var e := doc[n];
      FirstPrefixedIsHead(e.classes);
      var p := PrefixedClasses(e.classes);
      if |p| == 1 {
        assert p[0] in p;
        LegacyKeysIff(e, p[0]);
        assert Bundle.Managed(e) && ClassMentionsPrefix(e);
        assert p == [p[0]];
      }
    }
    DiscoverSameKeys(doc, LegacyKeys, Bundle.BundleKeys, |doc|);
  }
}
