/** The bundled routine collects its groups in a plain object literal, which
    inherits the properties of `Object.prototype` (ECMAScript, section 20.1.3,
    and the `__proto__` accessor and legacy `__defineGetter__` family of
    Annex B.2.2). A group key equal to one of those names reads as an inherited
    function or object, which is truthy, so no array is created, and the
    following `.push` is not a function: the call throws a `TypeError` before
    any height is written. This module models the routine as written and
    relates it to the model in `Bundle`, where each key starts with no group. */
module Prototype {
  import opened Common
  import opened Dom
  import opened Breakpoints
  import opened Grouping
  import opened ObjectKeys
  import opened Equalize
  import Bundle
  import Runtime

  /** The property names every ordinary object inherits from `Object.prototype`. */
  const InheritedNames: set<string> := {
    "constructor", "hasOwnProperty", "isPrototypeOf", "propertyIsEnumerable",
    "toLocaleString", "toString", "valueOf", "__proto__",
    "__defineGetter__", "__defineSetter__", "__lookupGetter__", "__lookupSetter__"
  }

  /** `if (!groups[key]) { groups[key] = []; } groups[key].push(el);` on an
      object literal: an inherited name that is not yet an own key reads as
      truthy, and `push` on it throws. */
  function PushAsWritten(g: Groups, key: string, n: Node): (r: Result<Groups>)
    ensures r.TypeError? <==> key !in g.members && key in InheritedNames
    ensures r.Ok? ==> r.value == Push(g, key, n)
  {
    if key !in g.members && key in InheritedNames then TypeError
    else Ok(Push(g, key, n))
  }

  /** Pushes under every key in order; the first throw ends the call. */
  function PushAllAsWritten(g: Groups, keys: seq<string>, n: Node): Result<Groups> {
    if |keys| == 0 then Ok(g)
    else
      match PushAllAsWritten(g, keys[..|keys| - 1], n)
      case TypeError => TypeError
      case Ok(m) => PushAsWritten(m, keys[|keys| - 1], n)
  }

  /** Group discovery as written, over the first `count` elements. */
  function DiscoverAsWritten(doc: Document, keysOf: Element -> seq<string>, count: nat): Result<Groups>
    requires count <= |doc|
  {
    if count == 0 then Ok(NoGroups)
    else
      match DiscoverAsWritten(doc, keysOf, count - 1)
      case TypeError => TypeError
      case Ok(g) => PushAllAsWritten(g, keysOf(doc[count - 1]), count - 1)
  }

  /** Some element among the first `count` yields an inherited name as a key. */
  predicate Collides(doc: Document, keysOf: Element -> seq<string>, count: nat)
    requires count <= |doc|
  {
    exists n, k :: 0 <= n < count && k in keysOf(doc[n]) && k in InheritedNames
  }

  /** With no inherited name among the groups so far, pushing throws exactly
      when one of the keys is an inherited name, and otherwise does what the
      model's push does. */
  lemma {:induction false} PushAllAsWrittenEffect(g: Groups, keys: seq<string>, n: Node)
    requires WellFormed(g)
    requires forall k :: k in g.members ==> k !in InheritedNames
    ensures PushAllAsWritten(g, keys, n) ==
      if exists k :: k in keys && k in InheritedNames then TypeError else Ok(PushAll(g, keys, n))
  {
    if |keys| > 0 {
      var prefix := keys[..|keys| - 1];
      var last := keys[|keys| - 1];
      assert keys == prefix + [last];
      PushAllAsWrittenEffect(g, prefix, n);
      if !(exists k :: k in prefix && k in InheritedNames) {
        PushAllKeys(g, prefix, n);
      } else {
        var k :| k in prefix && k in InheritedNames;
        assert k in keys;
      }
    }
  }

  /** Discovery as written throws exactly when some element yields an
      inherited name, and otherwise builds the model's groups. */
  lemma {:induction false} DiscoverAsWrittenEffect(doc: Document, keysOf: Element -> seq<string>, count: nat)
    requires count <= |doc|
    ensures DiscoverAsWritten(doc, keysOf, count) ==
      if Collides(doc, keysOf, count) then TypeError else Ok(Discover(doc, keysOf, count))
  {
    if count > 0 {
      var c := count - 1;
      DiscoverAsWrittenEffect(doc, keysOf, c);
      if Collides(doc, keysOf, c) {
        var n, k :| 0 <= n < c && k in keysOf(doc[n]) && k in InheritedNames;
        assert Collides(doc, keysOf, count) by {
          assert 0 <= n < count && k in keysOf(doc[n]) && k in InheritedNames;
        }
      } else {
        var g := Discover(doc, keysOf, c);
        DiscoverKeys(doc, keysOf, c);
        PushAllAsWrittenEffect(g, keysOf(doc[c]), c);
        if exists k :: k in keysOf(doc[c]) && k in InheritedNames {
          var k :| k in keysOf(doc[c]) && k in InheritedNames;
          assert Collides(doc, keysOf, count) by {
            assert 0 <= c < count && k in keysOf(doc[c]) && k in InheritedNames;
          }
        } else {
          assert !Collides(doc, keysOf, count) by {
            forall n, k | 0 <= n < count && k in keysOf(doc[n])
              ensures k !in InheritedNames
            {
            }
          }
        }
      }
    }
  }

  /** The bundled `equalizeHeights()` as written: the reset path never groups;
      the equalize path throws during grouping, before any write, or runs the
      groups. */
  function EqualizeHeightsAsWritten(opts: Options, width: int, doc: Document, styles: Styles): Result<Styles> {
    if SelectsReset(CurrentAction(opts, width)) then Ok(Bundle.ResetAll(doc, styles))
    else
      match DiscoverAsWritten(doc, Bundle.BundleKeys, |doc|)
      case TypeError => TypeError
      case Ok(g) => Ok(ApplyAll(doc, styles, KeyedLists(g, OwnKeys(g.order))))
  }

  /** The routine as written fails exactly when it equalizes a page on which
      some element's group key is an inherited name; whenever it succeeds it
      agrees with the model. */
  lemma AsWrittenAgreesUnlessCollision(opts: Options, width: int, doc: Document, styles: Styles)
    ensures EqualizeHeightsAsWritten(opts, width, doc, styles).TypeError? <==>
      !SelectsReset(CurrentAction(opts, width)) &&
      exists n :: 0 <= n < |doc| && Bundle.KeyOf(doc[n]).Some? && Bundle.KeyOf(doc[n]).value in InheritedNames
    ensures EqualizeHeightsAsWritten(opts, width, doc, styles).Ok? ==>
      EqualizeHeightsAsWritten(opts, width, doc, styles).value == Bundle.EqualizeHeights(opts, width, doc, styles)
  {
    DiscoverAsWrittenEffect(doc, Bundle.BundleKeys, |doc|);
    if Collides(doc, Bundle.BundleKeys, |doc|) {
      var n, k :| 0 <= n < |doc| && k in Bundle.BundleKeys(doc[n]) && k in InheritedNames;
      Bundle.YieldsIff(doc[n], k);
    }
    if exists n :: 0 <= n < |doc| && Bundle.KeyOf(doc[n]).Some? && Bundle.KeyOf(doc[n]).value in InheritedNames {
      var n :| 0 <= n < |doc| && Bundle.KeyOf(doc[n]).Some? && Bundle.KeyOf(doc[n]).value in InheritedNames;
      Bundle.YieldsIff(doc[n], Bundle.KeyOf(doc[n]).value);
    }
  }

  /** Two cards grouped with `data-equalize="constructor"`, at 30px and 50px:
      the routine as written throws, the model gives both 50px. */
  lemma ConstructorKeyExample(styles: Styles)
    ensures var doc := [Element(Some("constructor"), [], 30), Element(Some("constructor"), [], 50)];
      && EqualizeHeightsAsWritten(NoOptions, 1024, doc, styles) == TypeError
      && Inline(Bundle.EqualizeHeights(NoOptions, 1024, doc, styles), 0) == Some(Px(50))
      && Inline(Bundle.EqualizeHeights(NoOptions, 1024, doc, styles), 1) == Some(Px(50))
  {
    var doc := [Element(Some("constructor"), [], 30), Element(Some("constructor"), [], 50)];
    NoOptionsEqualize(1024);
    assert Bundle.KeyOf(doc[0]) == Some("constructor");
    assert Bundle.KeyOf(doc[1]) == Some("constructor");
    AsWrittenAgreesUnlessCollision(NoOptions, 1024, doc, styles);
    Bundle.GroupsPartition(doc, "constructor", 0);
    var nodes := Bundle.NodesWithKey(doc, "constructor");
    Bundle.GroupsPartition(doc, "constructor", 1);
    assert forall n: Node :: n in nodes <==> n < 2;
    assert Natural(doc, 1) == 50;
    assert Bundle.GroupHeight(doc, "constructor") == 50 by {
      var h := Bundle.GroupHeight(doc, "constructor");
      assert 1 in nodes;
      var j :| 0 <= j < |nodes| && nodes[j] == 1;
      var i :| 0 <= i < |nodes| && Natural(doc, nodes[i]) == h;
      assert nodes[i] in nodes;
    }
  }

  /** No inherited name starts with the prefix. */
  lemma InheritedNotPrefixed(k: string)
    requires k in InheritedNames
    ensures !StartsWith(k, Prefix)
  {
    assert k[0] != 'e';
  }

  /** The class-only routine cannot hit this: its keys start with "eh-", and
      no inherited name does, so its grouping as written never throws. */
  lemma LegacyNeverCollides(doc: Document)
    ensures DiscoverAsWritten(doc, Runtime.LegacyKeys, |doc|) == Ok(AllGroups(doc, Runtime.LegacyKeys))
  {
    DiscoverAsWrittenEffect(doc, Runtime.LegacyKeys, |doc|);
    forall n, k | 0 <= n < |doc| && k in Runtime.LegacyKeys(doc[n])
      ensures k !in InheritedNames
    {
      Runtime.LegacyKeysIff(doc[n], k);
      if k in InheritedNames {
        InheritedNotPrefixed(k);
      }
    }
  }
}
