/** Group discovery, shared by both versions of the routine: elements are
    visited in document order, and each element is appended to the group of
    every key it yields. The two versions differ only in which keys an element
    yields (`keysOf`). */
module Grouping {
  import opened Common
  import opened Dom

  /** The `groups` object: its keys in the order they were first added, and
      each key's members. */
  datatype Groups = Groups(order: seq<string>, members: map<string, seq<Node>>)

  const NoGroups := Groups([], map[])

  /** Each key is listed once, and the listed keys are exactly the groups. */
  predicate WellFormed(g: Groups) {
    && NoDup(g.order)
    && (forall k :: k in g.members ==> k in g.order)
    && (forall i :: 0 <= i < |g.order| ==> g.order[i] in g.members)
  }

  /** The members a key has so far, `[]` before its first push. */
  function MembersOf(g: Groups, k: string): seq<Node> {
    if k in g.members then g.members[k] else []
  }

  /** Node `n` is in the group of key `k`. */
  predicate InGroup(g: Groups, k: string, n: Node) {
    n in MembersOf(g, k)
  }

  /** `if (!groups[key]) { groups[key] = []; } groups[key].push(el);` on an
      object that has no keys besides the ones it was given. */
  function Push(g: Groups, key: string, n: Node): Groups {
    if key in g.members then Groups(g.order, g.members[key := g.members[key] + [n]])
    else Groups(g.order + [key], g.members[key := [n]])
  }

  /** Pushes node `n` under every key of `keys`, in order. */
  function PushAll(g: Groups, keys: seq<string>, n: Node): Groups {
    if |keys| == 0 then g
    else Push(PushAll(g, keys[..|keys| - 1], n), keys[|keys| - 1], n)
  }

  /** The groups after the first `count` elements of the document are visited. */
  function Discover(doc: Document, keysOf: Element -> seq<string>, count: nat): Groups
    requires count <= |doc|
  {
    if count == 0 then NoGroups
    else PushAll(Discover(doc, keysOf, count - 1), keysOf(doc[count - 1]), count - 1)
  }

  /** All the groups of the document. */
  function AllGroups(doc: Document, keysOf: Element -> seq<string>): Groups {
    Discover(doc, keysOf, |doc|)
  }

  lemma PushEffect(g: Groups, key: string, n: Node)
    requires WellFormed(g)
    ensures WellFormed(Push(g, key, n))
    ensures Push(g, key, n).members.Keys == g.members.Keys + {key}
    ensures forall k ::
      MembersOf(Push(g, key, n), k) == MembersOf(g, k) + (if k == key then [n] else [])
    ensures Push(g, key, n).order == g.order + (if key in g.members then [] else [key])
  {
  }

  /** Pushing one node under several keys, repeated or not, keeps the groups
      well formed and adds exactly those keys. */
  lemma {:induction false} PushAllKeys(g: Groups, keys: seq<string>, n: Node)
    requires WellFormed(g)
    ensures WellFormed(PushAll(g, keys, n))
    ensures forall k :: k in PushAll(g, keys, n).members <==> k in g.members || k in keys
  {
    if |keys| > 0 {
      var keys' := keys[..|keys| - 1];
      var last := keys[|keys| - 1];
      assert keys == keys' + [last];
      PushAllKeys(g, keys', n);
      PushEffect(PushAll(g, keys', n), last, n);
    }
  }

  /** ... appends the node once to the group of each of those keys and leaves
      every other group alone ... */
  lemma {:induction false} PushAllMembers(g: Groups, keys: seq<string>, n: Node)
    requires WellFormed(g) && NoDup(keys)
    ensures forall k :: MembersOf(PushAll(g, keys, n), k) == MembersOf(g, k) + (if k in keys then [n] else [])
  {
    if |keys| > 0 {
      var keys' := keys[..|keys| - 1];
      var last := keys[|keys| - 1];
      assert keys == keys' + [last];
      assert last !in keys';
      PushAllMembers(g, keys', n);
      PushAllKeys(g, keys', n);
      PushEffect(PushAll(g, keys', n), last, n);
    }
  }

  /** ... and, whether or not the keys repeat, a node is in a group afterwards
      exactly when it was before or it is the pushed node and the key is one of
      the keys. */
  lemma {:induction false} PushAllMembership(g: Groups, keys: seq<string>, n: Node)
    ensures forall k, m: Node ::
      InGroup(PushAll(g, keys, n), k, m) <==> InGroup(g, k, m) || (m == n && k in keys)
  {
    if |keys| > 0 {
      var keys' := keys[..|keys| - 1];
      var last := keys[|keys| - 1];
      assert keys == keys' + [last];
      PushAllMembership(g, keys', n);
      var mid := PushAll(g, keys', n);
      forall k, m: Node
        ensures InGroup(Push(mid, last, n), k, m) <==> InGroup(mid, k, m) || (m == n && k == last)
      {
        assert MembersOf(Push(mid, last, n), k) == MembersOf(mid, k) + (if k == last then [n] else []);
      }
    }
  }

  /** ... and lists the keys not seen before after all earlier keys. */
  lemma {:induction false} PushAllOrder(g: Groups, keys: seq<string>, n: Node)
    requires WellFormed(g)
    ensures var r := PushAll(g, keys, n);
      && |g.order| <= |r.order| && r.order[..|g.order|] == g.order
      && (forall i :: |g.order| <= i < |r.order| ==> r.order[i] in keys && r.order[i] !in g.members)
  {
    if |keys| > 0 {
      var keys' := keys[..|keys| - 1];
      var last := keys[|keys| - 1];
      assert keys == keys' + [last];
      var mid := PushAll(g, keys', n);
      PushAllOrder(g, keys', n);
      PushAllKeys(g, keys', n);
      PushEffect(mid, last, n);
      assert PushAll(g, keys, n).order[..|g.order|] == mid.order[..|g.order|];
    }
  }

  /** ... and the new keys follow one another in the order the keys name
      them. */
  lemma {:induction false} PushAllNewOrder(g: Groups, keys: seq<string>, n: Node)
    requires WellFormed(g)
    ensures var r := PushAll(g, keys, n);
      forall i, j :: |g.order| <= i < j < |r.order| ==> Precedes(keys, r.order[i], r.order[j])
  {
    if |keys| > 0 {
      var keys' := keys[..|keys| - 1];
      var last := keys[|keys| - 1];
      var mid := PushAll(g, keys', n);
      var r := PushAll(g, keys, n);
      PushAllNewOrder(g, keys', n);
      PushAllOrder(g, keys', n);
      PushAllKeys(g, keys', n);
      PushEffect(mid, last, n);
      forall i, j | |g.order| <= i < j < |r.order|
        ensures Precedes(keys, r.order[i], r.order[j])
      {
        if j < |mid.order| {
          var a, b :| 0 <= a < b < |keys'| && keys'[a] == mid.order[i] && keys'[b] == mid.order[j];
          assert keys[a] == r.order[i] && keys[b] == r.order[j];
        } else {
          assert mid.order[i] in keys';
          var a :| 0 <= a < |keys'| && keys'[a] == mid.order[i];
          assert keys[a] == r.order[i] && keys[|keys| - 1] == r.order[j];
        }
      }
    }
  }

  /** The groups stay well formed, and a key has a group exactly when some
      visited element yields it. */
  lemma {:induction false} DiscoverKeys(doc: Document, keysOf: Element -> seq<string>, count: nat)
    requires count <= |doc|
    ensures var g := Discover(doc, keysOf, count);
      && WellFormed(g)
      && (forall k :: k in g.members <==> exists n :: 0 <= n < count && k in keysOf(doc[n]))
  {
    if count > 0 {
      var g := Discover(doc, keysOf, count - 1);
      var keys := keysOf(doc[count - 1]);
      DiscoverKeys(doc, keysOf, count - 1);
      PushAllKeys(g, keys, count - 1);
      var r := Discover(doc, keysOf, count);
      assert r == PushAll(g, keys, count - 1);
      forall k
        ensures k in r.members <==> exists n :: 0 <= n < count && k in keysOf(doc[n])
      {
        if k in keys {
          assert 0 <= count - 1 < count && k in keysOf(doc[count - 1]);
        }
      }
    }
  }

  /** A node is in a key's group exactly when it was visited and yields that key. */
  lemma {:induction false} DiscoverMembers(doc: Document, keysOf: Element -> seq<string>, count: nat)
    requires count <= |doc|
    ensures forall k, n: Node ::
      InGroup(Discover(doc, keysOf, count), k, n) <==> n < count && k in keysOf(doc[n])
  {
    if count > 0 {
      var g := Discover(doc, keysOf, count - 1);
      var keys := keysOf(doc[count - 1]);
      DiscoverMembers(doc, keysOf, count - 1);
      PushAllMembership(g, keys, count - 1);
      assert Discover(doc, keysOf, count) == PushAll(g, keys, count - 1);
    }
  }

  /** Every node of every group is an element of the document. */
  lemma GroupNodesValid(doc: Document, keysOf: Element -> seq<string>, k: string)
    ensures ValidNodes(doc, MembersOf(AllGroups(doc, keysOf), k))
  {
    DiscoverMembers(doc, keysOf, |doc|);
    var list := MembersOf(AllGroups(doc, keysOf), k);
    forall i | 0 <= i < |list|
      ensures list[i] < |doc|
    {
      assert InGroup(AllGroups(doc, keysOf), k, list[i]);
    }
  }

  /** The first node of a key's group: the element that introduced the key. */
  function FirstMember(g: Groups, k: string): Node {
    if |MembersOf(g, k)| > 0 then MembersOf(g, k)[0] else 0
  }

  /** One visiting step: a node pushed under distinct keys lands after every
      node placed before it, and a key seen before keeps its first member. */
  lemma StepEffect(doc: Document, keysOf: Element -> seq<string>, c: nat, k: string)
    requires c < |doc|
    requires NoDup(keysOf(doc[c]))
    requires k in Discover(doc, keysOf, c + 1).members
    ensures var g := Discover(doc, keysOf, c);
      var r := Discover(doc, keysOf, c + 1);
      && MembersOf(r, k) == MembersOf(g, k) + (if k in keysOf(doc[c]) then [c] else [])
      && (forall i :: 0 <= i < |MembersOf(g, k)| ==> MembersOf(g, k)[i] < c)
      && |MembersOf(r, k)| > 0
      && (k in g.members ==> FirstMember(r, k) == FirstMember(g, k) < c)
      && (k !in g.members ==> FirstMember(r, k) == c)
  {
    var g := Discover(doc, keysOf, c);
    var keys := keysOf(doc[c]);
    DiscoverKeys(doc, keysOf, c);
    DiscoverMembers(doc, keysOf, c);
    PushAllKeys(g, keys, c);
    PushAllMembers(g, keys, c);
    var prev := MembersOf(g, k);
    forall i | 0 <= i < |prev|
      ensures prev[i] < c
    {
      assert InGroup(g, k, prev[i]);
    }
  }

  /** Each group lists its members in document order, each once. */
  lemma {:induction false} DiscoverIncreasing(doc: Document, keysOf: Element -> seq<string>, count: nat)
    requires count <= |doc|
    requires forall n :: 0 <= n < count ==> NoDup(keysOf(doc[n]))
    ensures forall k :: k in Discover(doc, keysOf, count).members ==>
      |MembersOf(Discover(doc, keysOf, count), k)| > 0 && Increasing(MembersOf(Discover(doc, keysOf, count), k))
  {
    if count > 0 {
      var c := count - 1;
      DiscoverIncreasing(doc, keysOf, c);
      forall k | k in Discover(doc, keysOf, count).members
        ensures |MembersOf(Discover(doc, keysOf, count), k)| > 0
        ensures Increasing(MembersOf(Discover(doc, keysOf, count), k))
      {
        StepEffect(doc, keysOf, c, k);
      }
    }
  }

  /** Keys introduced by the same element are listed in the order that element
      yields them. */
  lemma {:induction false} DiscoverSameIntroducer(doc: Document, keysOf: Element -> seq<string>, count: nat)
    requires count <= |doc|
    requires forall n :: 0 <= n < count ==> NoDup(keysOf(doc[n]))
    ensures var g := Discover(doc, keysOf, count);
      forall i, j :: 0 <= i < j < |g.order| && FirstMember(g, g.order[i]) == FirstMember(g, g.order[j]) ==>
        FirstMember(g, g.order[i]) < count && Precedes(keysOf(doc[FirstMember(g, g.order[i])]), g.order[i], g.order[j])
  {
    var g := Discover(doc, keysOf, count);
    forall i, j | 0 <= i < j < |g.order| && FirstMember(g, g.order[i]) == FirstMember(g, g.order[j])
      ensures FirstMember(g, g.order[i]) < count
      ensures Precedes(keysOf(doc[FirstMember(g, g.order[i])]), g.order[i], g.order[j])
    {
      SameIntroducerAt(doc, keysOf, count, i, j);
    }
  }

  /** The keys at positions `i` and `j`, introduced by the same element. */
  lemma {:induction false} SameIntroducerAt(doc: Document, keysOf: Element -> seq<string>, count: nat, i: nat, j: nat)
    requires count <= |doc|
    requires forall n :: 0 <= n < count ==> NoDup(keysOf(doc[n]))
    requires i < j < |Discover(doc, keysOf, count).order|
    requires var g := Discover(doc, keysOf, count);
      FirstMember(g, g.order[i]) == FirstMember(g, g.order[j])
    ensures var g := Discover(doc, keysOf, count);
      FirstMember(g, g.order[i]) < count && Precedes(keysOf(doc[FirstMember(g, g.order[i])]), g.order[i], g.order[j])
  {
    var c := count - 1;
    var keys := keysOf(doc[c]);
    var g := Discover(doc, keysOf, c);
    var r := Discover(doc, keysOf, count);
    assert r == PushAll(g, keys, c);
    DiscoverKeys(doc, keysOf, c);
    DiscoverKeys(doc, keysOf, count);
    PushAllOrder(g, keys, c);
    StepEffect(doc, keysOf, c, r.order[i]);
    StepEffect(doc, keysOf, c, r.order[j]);
    if j < |g.order| {
      assert r.order[i] == g.order[i] && r.order[j] == g.order[j];
      SameIntroducerAt(doc, keysOf, c, i, j);
    } else {
      PushAllNewOrder(g, keys, c);
      assert FirstMember(r, r.order[i]) == c;
    }
  }

  /** The keys are ordered by the position of the element that introduced them
      (first-seen order), and keys introduced by the same element follow the
      order in which it yields them. */
  lemma {:induction false} DiscoverFirstSeen(doc: Document, keysOf: Element -> seq<string>, count: nat)
    requires count <= |doc|
    requires forall n :: 0 <= n < count ==> NoDup(keysOf(doc[n]))
    ensures var g := Discover(doc, keysOf, count);
      forall i, j :: 0 <= i < j < |g.order| ==> FirstMember(g, g.order[i]) <= FirstMember(g, g.order[j])
    ensures var g := Discover(doc, keysOf, count);
      forall i, j :: 0 <= i < j < |g.order| && FirstMember(g, g.order[i]) == FirstMember(g, g.order[j]) ==>
        FirstMember(g, g.order[i]) < count && Precedes(keysOf(doc[FirstMember(g, g.order[i])]), g.order[i], g.order[j])
  {
    DiscoverSameIntroducer(doc, keysOf, count);
    if count > 0 {
      var c := count - 1;
      var g := Discover(doc, keysOf, c);
      var r := Discover(doc, keysOf, count);
      DiscoverFirstSeen(doc, keysOf, c);
      DiscoverKeys(doc, keysOf, c);
      DiscoverKeys(doc, keysOf, count);
      PushAllOrder(g, keysOf(doc[c]), c);
      forall i, j | 0 <= i < j < |r.order|
        ensures FirstMember(r, r.order[i]) <= FirstMember(r, r.order[j])
      {
        StepEffect(doc, keysOf, c, r.order[i]);
        StepEffect(doc, keysOf, c, r.order[j]);
        if j < |g.order| {
          assert r.order[i] == g.order[i] && r.order[j] == g.order[j];
        }
      }
    }
  }
}

/** Groups compared with a direct reference: the nodes that yield a key, in
    document order. */
module GroupReference {
  import opened Common
  import opened Dom
  import opened Grouping

  /** The nodes among the first `count` that yield key `k`, in document order. */
  function NodesYielding(doc: Document, keysOf: Element -> seq<string>, k: string, count: nat): (r: seq<Node>)
    requires count <= |doc|
    ensures Increasing(r)
    ensures forall n: Node :: n in r <==> n < count && k in keysOf(doc[n])
  {
    if count == 0 then []
    else
      var prev := NodesYielding(doc, keysOf, k, count - 1);
      if k in keysOf(doc[count - 1]) then
        forall i | 0 <= i < |prev|
          ensures prev[i] < count - 1
        {
          assert prev[i] in prev;
        }
        var r := prev + [count - 1];
        assert forall i, j :: 0 <= i < j < |r| ==> r[i] < r[j] by {
          forall i, j | 0 <= i < j < |r|
            ensures r[i] < r[j]
          {
            if j < |prev| {
              assert r[i] == prev[i] && r[j] == prev[j];
            } else {
              assert r[i] == prev[i];
            }
          }
        }
        r
      else prev
  }

  /** Two increasing sequences with the same elements are equal. */
  lemma {:induction false} IncreasingUnique(a: seq<nat>, b: seq<nat>)
    requires Increasing(a) && Increasing(b)
    requires forall x :: x in a <==> x in b
    ensures a == b
  {
    assert |a| > 0 ==> a[0] in b;
    assert |b| > 0 ==> b[0] in a;
    if |a| > 0 && |b| > 0 {
      assert a[0] == b[0] by {
        var i :| 0 <= i < |b| && b[i] == a[0];
        var j :| 0 <= j < |a| && a[j] == b[0];
      }
      forall x
        ensures x in a[1..] <==> x in b[1..]
      {
        if x in a[1..] {
          var i :| 1 <= i < |a| && a[i] == x;
          assert x in b && x != b[0];
        }
        if x in b[1..] {
          var i :| 1 <= i < |b| && b[i] == x;
          assert x in a && x != a[0];
        }
      }
      IncreasingUnique(a[1..], b[1..]);
      assert a == [a[0]] + a[1..] && b == [b[0]] + b[1..];
    }
  }

  /** When no element yields a key twice, the group of a key is exactly the
      list of nodes that yield it, in document order. */
  lemma GroupIsFilter(doc: Document, keysOf: Element -> seq<string>, k: string)
    requires forall n :: 0 <= n < |doc| ==> NoDup(keysOf(doc[n]))
    ensures MembersOf(AllGroups(doc, keysOf), k) == NodesYielding(doc, keysOf, k, |doc|)
  {
    var g := Discover(doc, keysOf, |doc|);
    DiscoverMembers(doc, keysOf, |doc|);
    DiscoverIncreasing(doc, keysOf, |doc|);
    assert forall n: Node :: n in MembersOf(g, k) <==> InGroup(g, k, n);
    if k !in g.members {
      assert MembersOf(g, k) == [];
    } else {
      assert |MembersOf(g, k)| > 0;
      assert Increasing(MembersOf(g, k));
    }
    IncreasingUnique(MembersOf(g, k), NodesYielding(doc, keysOf, k, |doc|));
  }
}
