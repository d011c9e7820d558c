/** The order in which `Object.keys` lists the string keys of an ordinary
    object (ECMAScript, section 10.1.11.1, OrdinaryOwnPropertyKeys): keys that
    are array indices first, in ascending numeric order, then every other key
    in the order it was first added. */
module ObjectKeys {
  import opened Common

  predicate IsDigit(c: char) {
    '0' <= c <= '9'
  }

  function DigitValue(c: char): nat {
    if IsDigit(c) then c as int - '0' as int else 0
  }

  /** The decimal value of a string of digits. */
  function DecimalValue(s: string): nat {
    if |s| == 0 then 0 else 10 * DecimalValue(s[..|s| - 1]) + DigitValue(s[|s| - 1])
  }

  predicate AllDigits(s: string) {
    |s| == 0 || (IsDigit(s[0]) && AllDigits(s[1..]))
  }

  /** 2^32 - 1: the first value that is not an array index. */
  const ArrayIndexLimit: nat := 0x1_0000_0000 - 1

  /** The canonical decimal form of an integer in [0, 2^32 - 2]: digits only and
      no leading zero unless the key is "0". */
  predicate IsArrayIndex(s: string) {
    && |s| > 0
    && AllDigits(s)
    && (s[0] != '0' || |s| == 1)
    && DecimalValue(s) < ArrayIndexLimit
  }

  /** Array-index keys in ascending numeric order. */
  predicate Ascending(s: seq<string>) {
    forall i, j :: 0 <= i < j < |s| ==> DecimalValue(s[i]) <= DecimalValue(s[j])
  }

  /** The keys that are array indices, in insertion order. */
  function IndexKeys(s: seq<string>): seq<string> {
    if |s| == 0 then []
    else if IsArrayIndex(s[0]) then [s[0]] + IndexKeys(s[1..])
    else IndexKeys(s[1..])
  }

  /** The keys that are not array indices, in insertion order. */
  function NamedKeys(s: seq<string>): seq<string> {
    if |s| == 0 then []
    else if IsArrayIndex(s[0]) then NamedKeys(s[1..])
    else [s[0]] + NamedKeys(s[1..])
  }

  lemma {:induction false} IndexKeysAreIndices(s: seq<string>)
    ensures forall i :: 0 <= i < |IndexKeys(s)| ==> IsArrayIndex(IndexKeys(s)[i])
    ensures forall i :: 0 <= i < |NamedKeys(s)| ==> !IsArrayIndex(NamedKeys(s)[i])
  {
    if |s| > 0 {
      IndexKeysAreIndices(s[1..]);
    }
  }

  /** Places `k` into an ascending sequence. */
  function Insert(k: string, s: seq<string>): (r: seq<string>)
    requires Ascending(s)
    ensures Ascending(r)
    ensures multiset(r) == multiset(s) + multiset{k}
  {
    if |s| == 0 then [k]
    else if DecimalValue(k) <= DecimalValue(s[0]) then
      AscendingCons(k, s);
      [k] + s
    else
      var rest := Insert(k, s[1..]);
      assert s == [s[0]] + s[1..];
      HeadIsLeast(s);
      AscendingCons(s[0], rest);
      [s[0]] + rest
  }

  lemma HeadIsLeast(s: seq<string>)
    requires Ascending(s) && |s| > 0
    ensures forall y :: y in multiset(s[1..]) ==> DecimalValue(s[0]) <= DecimalValue(y)
  {
    forall y | y in multiset(s[1..])
      ensures DecimalValue(s[0]) <= DecimalValue(y)
    {
      var j :| 0 <= j < |s[1..]| && s[1..][j] == y;
      assert s[j + 1] == y;
    }
  }

  lemma AscendingCons(x: string, s: seq<string>)
    requires Ascending(s)
    requires forall y :: y in multiset(s) ==> DecimalValue(x) <= DecimalValue(y)
    ensures Ascending([x] + s)
  {
    var r := [x] + s;
    forall i, j | 0 <= i < j < |r|
      ensures DecimalValue(r[i]) <= DecimalValue(r[j])
    {
      var y := r[j];
      assert y == s[j - 1];
      if i == 0 {
        assert y in multiset(s);
      } else {
        assert r[i] == s[i - 1];
      }
    }
  }

  /** Sorts keys by numeric value. */
  function SortByValue(s: seq<string>): (r: seq<string>)
    ensures Ascending(r)
    ensures multiset(r) == multiset(s)
  {
    if |s| == 0 then []
    else
      assert s == [s[0]] + s[1..];
      Insert(s[0], SortByValue(s[1..]))
  }

  /** `Object.keys(obj)` for an object whose keys were added in the order `added`. */
  function OwnKeys(added: seq<string>): seq<string> {
    SortByValue(IndexKeys(added)) + NamedKeys(added)
  }

  lemma {:induction false} IndexKeysMultiset(s: seq<string>)
    ensures multiset(IndexKeys(s)) + multiset(NamedKeys(s)) == multiset(s)
  {
    if |s| > 0 {
      var t := s[1..];
      IndexKeysMultiset(t);
      assert s == [s[0]] + t;
      if IsArrayIndex(s[0]) {
        assert IndexKeys(s) == [s[0]] + IndexKeys(t);
        assert NamedKeys(s) == NamedKeys(t);
      } else {
        assert IndexKeys(s) == IndexKeys(t);
        assert NamedKeys(s) == [s[0]] + NamedKeys(t);
      }
    }
  }

  lemma {:induction false} NamedKeysAppend(a: seq<string>, b: seq<string>)
    ensures NamedKeys(a + b) == NamedKeys(a) + NamedKeys(b)
  {
    if |a| == 0 {
      assert a + b == b;
    } else {
      assert (a + b)[0] == a[0];
      assert (a + b)[1..] == a[1..] + b;
      NamedKeysAppend(a[1..], b);
    }
  }

  lemma {:induction false} NamedKeysOfIndexKeys(s: seq<string>)
    requires forall i :: 0 <= i < |s| ==> IsArrayIndex(s[i])
    ensures NamedKeys(s) == []
  {
    if |s| > 0 {
      NamedKeysOfIndexKeys(s[1..]);
    }
  }

  lemma {:induction false} NamedKeysOfNamed(s: seq<string>)
    requires forall i :: 0 <= i < |s| ==> !IsArrayIndex(s[i])
    ensures NamedKeys(s) == s
    ensures IndexKeys(s) == []
  {
    if |s| > 0 {
      NamedKeysOfNamed(s[1..]);
    }
  }

  /** `Object.keys` lists exactly the keys that were added, each as often as it
      was added; array indices come first and in ascending order; the other keys
      keep the order in which they were added. */
  lemma OwnKeysOrder(added: seq<string>)
    ensures multiset(OwnKeys(added)) == multiset(added)
    ensures forall i, j :: 0 <= i < j < |OwnKeys(added)| && IsArrayIndex(OwnKeys(added)[j]) ==>
      IsArrayIndex(OwnKeys(added)[i])
    ensures IndexKeys(OwnKeys(added)) == SortByValue(IndexKeys(added))
    ensures Ascending(IndexKeys(OwnKeys(added)))
    ensures NamedKeys(OwnKeys(added)) == NamedKeys(added)
  {
    var sorted := SortByValue(IndexKeys(added));
    var named := NamedKeys(added);
    IndexKeysMultiset(added);
    IndexKeysAreIndices(added);
    SortedAreIndices(IndexKeys(added));
    NamedKeysAppend(sorted, named);
    NamedKeysOfIndexKeys(sorted);
    NamedKeysOfNamed(named);
    IndexKeysAppend(sorted, named);
    IndexKeysOfIndexKeys(sorted);
    var r := sorted + named;
    forall i, j | 0 <= i < j < |r| && IsArrayIndex(r[j])
      ensures IsArrayIndex(r[i])
    {
      if j < |sorted| {
        assert r[i] == sorted[i];
      }
    }
  }

  lemma SortedAreIndices(s: seq<string>)
    requires forall i :: 0 <= i < |s| ==> IsArrayIndex(s[i])
    ensures forall i :: 0 <= i < |SortByValue(s)| ==> IsArrayIndex(SortByValue(s)[i])
  {
    var r := SortByValue(s);
    forall i | 0 <= i < |r|
      ensures IsArrayIndex(r[i])
    {
      assert r[i] in multiset(r);
      assert r[i] in multiset(s);
      var j :| 0 <= j < |s| && s[j] == r[i];
    }
  }

  lemma {:induction false} IndexKeysAppend(a: seq<string>, b: seq<string>)
    ensures IndexKeys(a + b) == IndexKeys(a) + IndexKeys(b)
  {
    if |a| == 0 {
      assert a + b == b;
    } else {
      assert (a + b)[0] == a[0];
      assert (a + b)[1..] == a[1..] + b;
      IndexKeysAppend(a[1..], b);
    }
  }

  lemma {:induction false} IndexKeysOfIndexKeys(s: seq<string>)
    requires forall i :: 0 <= i < |s| ==> IsArrayIndex(s[i])
    ensures IndexKeys(s) == s
  {
    if |s| > 0 {
      IndexKeysOfIndexKeys(s[1..]);
    }
  }

  /** A key whose first character is not a digit is never an array index. */
  lemma NonDigitStartIsNamed(k: string)
    requires |k| > 0 && !IsDigit(k[0])
    ensures !IsArrayIndex(k)
  {
  }

  /** When no added key is an array index, `Object.keys` is insertion order. */
  lemma {:induction false} OwnKeysOfNamed(added: seq<string>)
    requires forall i :: 0 <= i < |added| ==> !IsArrayIndex(added[i])
    ensures OwnKeys(added) == added
  {
    NamedKeysOfNamed(added);
  }

  /** Integer-like keys jump ahead of keys added before them. */
  lemma IntegerKeysFirstExample()
    ensures OwnKeys(["b", "10", "a", "2"]) == ["2", "10", "b", "a"]
  {
    assert DecimalValue("1") == 1;
    assert DecimalValue("10") == 10;
    assert DecimalValue("2") == 2;
    assert IsArrayIndex("10") && IsArrayIndex("2");
    assert !IsArrayIndex("a") && !IsArrayIndex("b");
    var added := ["b", "10", "a", "2"];
    assert IndexKeys(added[3..]) == ["2"];
    assert IndexKeys(added[2..]) == ["2"];
    assert IndexKeys(added[1..]) == ["10", "2"];
    assert IndexKeys(added) == ["10", "2"];
    assert NamedKeys(added[3..]) == [];
    assert NamedKeys(added[2..]) == ["a"];
    assert NamedKeys(added[1..]) == ["a"];
    assert NamedKeys(added) == ["b", "a"];
    assert SortByValue(["2"]) == ["2"];
    assert SortByValue(["10", "2"]) == Insert("10", ["2"]) == ["2", "10"];
  }
}
