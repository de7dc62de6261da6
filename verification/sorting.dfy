/** Sorting a sequence by a strict weak order, as `DataFrame.sort_values` does before the
    scripts walk bars or store news. */
module Sorting {

  /** `before` is a strict weak order: asymmetric, and whenever `a` comes before `c`, every
      `b` comes after `a` or before `c` (so "neither before the other" is an equivalence). */
  ghost predicate StrictWeakOrder<T(!new)>(before: (T, T) -> bool) {
    && (forall a, b :: before(a, b) ==> !before(b, a))
    && (forall a, b, c :: before(a, c) ==> before(a, b) || before(b, c))
  }

  /** No element is strictly before an element that precedes it. */
  predicate Sorted<T>(s: seq<T>, before: (T, T) -> bool) {
    forall i, j :: 0 <= i < j < |s| ==> !before(s[j], s[i])
  }

  /** Places `x` in front of the first element that `x` does not come after. */
  function Insert<T>(x: T, s: seq<T>, before: (T, T) -> bool): (r: seq<T>)
    ensures multiset(r) == multiset(s) + multiset{x}
    ensures |r| == |s| + 1
  {
    if |s| == 0 then [x]
    else if before(s[0], x) then
      assert s == [s[0]] + s[1..];
      [s[0]] + Insert(x, s[1..], before)
    else [x] + s
  }

  /** Inserting into a sorted sequence keeps it sorted. */
  lemma {:induction false} InsertSorted<T(!new)>(x: T, s: seq<T>, before: (T, T) -> bool)
    requires StrictWeakOrder(before)
    requires Sorted(s, before)
    ensures Sorted(Insert(x, s, before), before)
    decreases |s|
  {
    if |s| > 0 {
      if before(s[0], x) {
        var rest := Insert(x, s[1..], before);
        InsertSorted(x, s[1..], before);
        forall k | 0 <= k < |rest|
          ensures !before(rest[k], s[0])
        {
          assert rest[k] in multiset(rest);
          if rest[k] != x {
            assert rest[k] in multiset(s[1..]);
            var m :| 0 <= m < |s[1..]| && s[1..][m] == rest[k];
            assert s[m + 1] == rest[k];
          }
        }
      } else {
        forall k | 0 < k < |s|
          ensures !before(s[k], x)
        {
          assert !before(s[k], s[0]);
        }
      }
    }
  }

  /** Insertion sort: a permutation of `s` in `before` order. */
  function Sort<T(!new)>(s: seq<T>, before: (T, T) -> bool): (r: seq<T>)
    requires StrictWeakOrder(before)
    ensures multiset(r) == multiset(s)
    ensures |r| == |s|
    ensures Sorted(r, before)
  {
    if |s| == 0 then []
    else
      assert s == [s[0]] + s[1..];
      InsertSorted(s[0], Sort(s[1..], before), before);
      Insert(s[0], Sort(s[1..], before), before)
  }
}
