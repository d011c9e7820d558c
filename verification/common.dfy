/** Small helpers shared by every part of the model: an optional value, a
    failure-or-value result, and a few facts about sequences and strings. */
module Common {

  /** A value that may be missing (`undefined` / `null` in JavaScript). */
  datatype Option<+T> = None | Some(value: T)

  /** The outcome of a step that can throw: only a `TypeError` can occur here. */
  datatype Result<+T> = Ok(value: T) | TypeError

  /** No element occurs twice. */
  predicate NoDup<T(==)>(s: seq<T>) {
    forall i, j :: 0 <= i < j < |s| ==> s[i] != s[j]
  }

  /** `x` occurs before `y` in `s`. */
  predicate Precedes<T(==)>(s: seq<T>, x: T, y: T) {
    exists a, b :: 0 <= a < b < |s| && s[a] == x && s[b] == y
  }

  /** Strictly increasing naturals: document order without repetition. */
  predicate Increasing(s: seq<nat>) {
    forall i, j :: 0 <= i < j < |s| ==> s[i] < s[j]
  }

  /** `s.startsWith(prefix)`. */
  predicate StartsWith(s: string, prefix: string) {
    |prefix| <= |s| && s[..|prefix|] == prefix
  }

  /** `s.includes(sub)`: some suffix of `s` starts with `sub`. */
  predicate Contains(s: string, sub: string) {
    exists i :: 0 <= i <= |s| && StartsWith(s[i..], sub)
  }

  /** `Math.max` on two integers. */
  function Max(a: int, b: int): int {
    if a < b then b else a
  }

  lemma StartsWithContains(s: string, sub: string)
    requires StartsWith(s, sub)
    ensures Contains(s, sub)
  {
    assert s[0..] == s;
  }
}
