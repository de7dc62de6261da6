/** Failure-carrying wrappers and sequence helpers shared by every module of the model. */
module Base {

  /** A value that may be missing: SQL NULL, pandas NaN/NaT, Python None. */
  datatype Option<+T> = None | Some(value: T)

  /** The outcome of a step that can raise: `Err` names the exception the source would raise. */
  datatype Result<+T> = Ok(value: T) | Err(error: string)

  /** The elements of `s` that satisfy `p`, in their original order. */
  function Filter<T(!new)>(s: seq<T>, p: T -> bool): (r: seq<T>)
    ensures |r| <= |s|
    ensures forall x :: x in r <==> x in s && p(x)
  {
    if |s| == 0 then [] else (if p(s[0]) then [s[0]] else []) + Filter(s[1..], p)
  }

  /** `sub` can be obtained from `s` by deleting elements, keeping the order of the rest. */
  predicate IsSubsequence<T(==)>(sub: seq<T>, s: seq<T>)
    decreases |s|
  {
    if |sub| == 0 then true
    else if |s| == 0 then false
    else if sub[0] == s[0] then IsSubsequence(sub[1..], s[1..])
    else IsSubsequence(sub, s[1..])
  }

  /** Filtering only deletes: the survivors keep their relative order. */
  lemma {:induction false} FilterIsSubsequence<T(!new)>(s: seq<T>, p: T -> bool)
    ensures IsSubsequence(Filter(s, p), s)
    decreases |s|
  {
    if |s| > 0 {
      FilterIsSubsequence(s[1..], p);
      var rest := Filter(s[1..], p);
      if p(s[0]) {
        assert Filter(s, p) == [s[0]] + rest;
        assert ([s[0]] + rest)[1..] == rest;
      } else {
        assert Filter(s, p) == rest;
        // every survivor satisfies p and s[0] does not, so s[0] is skipped
        assert |rest| > 0 ==> rest[0] in rest && rest[0] != s[0];
      }
    }
  }

  lemma {:induction false} IsSubsequenceRefl<T>(s: seq<T>)
    ensures IsSubsequence(s, s)
    decreases |s|
  {
    if |s| > 0 {
      IsSubsequenceRefl(s[1..]);
    }
  }

  /** A subsequence holds only elements of the original. */
  lemma {:induction false} SubsequenceElements<T>(sub: seq<T>, s: seq<T>)
    requires IsSubsequence(sub, s)
    ensures forall x :: x in sub ==> x in s
    decreases |s|
  {
    if |sub| > 0 {
      if sub[0] == s[0] {
        SubsequenceElements(sub[1..], s[1..]);
        assert sub == [sub[0]] + sub[1..];
      } else {
        SubsequenceElements(sub, s[1..]);
      }
      assert s == [s[0]] + s[1..];
    }
  }

  /** A nonempty group of elements of `s` has a member that nothing in the group comes
      before, for any irreflexive transitive `before` on the elements of `s`. */
  lemma {:induction false} MinimalExists<T>(s: seq<T>, inGroup: T -> bool, before: (T, T) -> bool, x: T)
    requires x in s && inGroup(x)
    requires forall a :: a in s ==> !before(a, a)
    requires forall a, b, c :: a in s && b in s && c in s && before(a, b) && before(b, c) ==> before(a, c)
    ensures exists m :: m in s && inGroup(m) && forall y :: y in s && inGroup(y) ==> !before(y, m)
    decreases |s|
  {
    var rest := s[1..];
    assert s == [s[0]] + rest;
    assert forall y :: y in rest ==> y in s;
    if exists z :: z in rest && inGroup(z) {
      var z :| z in rest && inGroup(z);
      MinimalExists(rest, inGroup, before, z);
      var m :| m in rest && inGroup(m) && forall y :: y in rest && inGroup(y) ==> !before(y, m);
      assert m in s;
      if inGroup(s[0]) && before(s[0], m) {
        forall y | y in s && inGroup(y)
          ensures !before(y, s[0])
        {
          if y != s[0] {
            // y is in the rest, so it does not come before m, nor (by transitivity) before s[0]
            assert y in rest;
            assert !before(y, m);
          }
        }
        assert s[0] in s;
      } else {
        forall y | y in s && inGroup(y)
          ensures !before(y, m)
        {
          if y !in rest {
            assert y == s[0];
          }
        }
      }
    } else {
      forall y | y in s && inGroup(y)
        ensures !before(y, s[0])
      {
        assert y == s[0];
      }
      assert s[0] in s;
    }
  }

  /** Filtering with a predicate every element meets changes nothing. */
  lemma {:induction false} FilterAll<T(!new)>(s: seq<T>, p: T -> bool)
    requires forall i :: 0 <= i < |s| ==> p(s[i])
    ensures Filter(s, p) == s
    decreases |s|
  {
    if |s| > 0 {
      FilterAll(s[1..], p);
      assert [s[0]] + s[1..] == s;
    }
  }

  // ---------------------------------------------------------------------------
  // Distinct elements and multiplicities: the vocabulary of GROUP BY and COUNT(*).

  predicate NoDuplicates<T(==)>(s: seq<T>) {
    forall i, j :: 0 <= i < j < |s| ==> s[i] != s[j]
  }

  /** The distinct elements of `s`, in order of first appearance. */
  function Distinct<T(==,!new)>(s: seq<T>): (r: seq<T>)
    ensures forall x :: x in r <==> x in s
    ensures NoDuplicates(r)
    ensures |r| <= |s|
  {
    if |s| == 0 then []
    else
      var d := Distinct(s[..|s| - 1]);
      var x := s[|s| - 1];
      assert forall y :: y in s <==> y in s[..|s| - 1] || y == x by {
        assert s == s[..|s| - 1] + [x];
      }
      if x in d then d else d + [x]
  }

  /** The total number of occurrences in `s` of the elements of `ks`. */
  function SumOccurrences<T(==)>(s: seq<T>, ks: seq<T>): nat {
    if |ks| == 0 then 0
    else SumOccurrences(s, ks[..|ks| - 1]) + multiset(s)[ks[|ks| - 1]]
  }

  /** One more element raises the total by one exactly when it is among `ks`. */
  lemma {:induction false} SumOccurrencesSnoc<T>(s: seq<T>, x: T, ks: seq<T>)
    requires NoDuplicates(ks)
    ensures SumOccurrences(s + [x], ks) == SumOccurrences(s, ks) + (if x in ks then 1 else 0)
    decreases |ks|
  {
    if |ks| > 0 {
      var init := ks[..|ks| - 1];
      SumOccurrencesSnoc(s, x, init);
      assert multiset(s + [x]) == multiset(s) + multiset{x};
      assert x in ks <==> x in init || x == ks[|ks| - 1] by {
        assert ks == init + [ks[|ks| - 1]];
      }
      assert ks[|ks| - 1] == x ==> x !in init;
    }
  }

  /** Every element of `s` is counted once under its own distinct value. */
  lemma {:induction false} OccurrencesOfDistinct<T(!new)>(s: seq<T>)
    ensures SumOccurrences(s, Distinct(s)) == |s|
    decreases |s|
  {
    if |s| > 0 {
      var p := s[..|s| - 1];
      var x := s[|s| - 1];
      assert s == p + [x];
      var d := Distinct(p);
      OccurrencesOfDistinct(p);
      SumOccurrencesSnoc(p, x, d);
      if x !in d {
        assert x !in multiset(p);
        assert (d + [x])[..|d|] == d;
      }
    }
  }

  /** A duplicate-free sequence has as many elements as its set. */
  lemma {:induction false} NoDuplicatesCard<T>(s: seq<T>)
    requires NoDuplicates(s)
    ensures |set x | x in s| == |s|
    decreases |s|
  {
    if |s| > 0 {
      var p := s[..|s| - 1];
      var x := s[|s| - 1];
      NoDuplicatesCard(p);
      assert (set y | y in s) == (set y | y in p) + {x} by {
        assert s == p + [x];
      }
      assert x !in (set y | y in p);
    }
  }

  /** A duplicate-free sequence that holds exactly the values of `all` is as long as the
      distinct values of `all`. */
  lemma DistinctCount<T(!new)>(ks: seq<T>, all: seq<T>)
    requires NoDuplicates(ks)
    requires forall k :: k in ks <==> k in all
    ensures |ks| == |Distinct(all)|
  {
    var d := Distinct(all);
    NoDuplicatesCard(ks);
    NoDuplicatesCard(d);
    assert (set k | k in ks) == (set k | k in d);
  }

  /** In a duplicate-free sequence every value occurs at most once. */
  lemma {:induction false} NoDuplicatesMultiplicity<T>(s: seq<T>, x: T)
    requires NoDuplicates(s)
    ensures multiset(s)[x] <= 1
    decreases |s|
  {
    if |s| > 0 {
      var p := s[..|s| - 1];
      NoDuplicatesMultiplicity(p, x);
      assert s == p + [s[|s| - 1]];
      assert multiset(s) == multiset(p) + multiset{s[|s| - 1]};
      if x == s[|s| - 1] {
        assert x !in p;
      }
    }
  }

  /** A value found at two positions occurs at least twice. */
  lemma RepeatedMultiplicity<T>(s: seq<T>, i: int, j: int)
    requires 0 <= i < j < |s| && s[i] == s[j]
    ensures multiset(s)[s[i]] >= 2
  {
    assert s == s[..j] + [s[j]] + s[j + 1..];
    assert s[i] in s[..j];
    assert multiset(s) == multiset(s[..j]) + multiset{s[j]} + multiset(s[j + 1..]);
  }

  /** Position `i` is the only one whose element satisfies `p`. */
  predicate OnlyAt<T>(s: seq<T>, p: T -> bool, i: int) {
    0 <= i < |s| && p(s[i]) && forall j :: 0 <= j < |s| && j != i ==> !p(s[j])
  }

  /** A filter keeps exactly one element when exactly one position satisfies the
      predicate, and then it keeps that position's element. */
  lemma {:induction false} FilterSingleton<T(!new)>(s: seq<T>, p: T -> bool)
    ensures |Filter(s, p)| == 1 <==> exists i :: OnlyAt(s, p, i)
    ensures forall i :: OnlyAt(s, p, i) ==> Filter(s, p) == [s[i]]
    decreases |s|
  {
    if |s| > 0 {
      var tail := s[1..];
      var rest := Filter(tail, p);
      FilterSingleton(tail, p);
      assert |rest| > 0 <==> exists j :: 0 <= j < |tail| && p(tail[j]) by {
        if |rest| > 0 {
          assert rest[0] in rest;
        }
        forall j | 0 <= j < |tail| && p(tail[j])
          ensures |rest| > 0
        {
          assert tail[j] in rest;
        }
      }
      forall i | 1 <= i < |s|
        ensures OnlyAt(s, p, i) <==> !p(s[0]) && OnlyAt(tail, p, i - 1)
      {
        assert forall j :: 1 <= j < |s| ==> s[j] == tail[j - 1];
      }
      if p(s[0]) {
        assert Filter(s, p) == [s[0]] + rest;
        assert OnlyAt(s, p, 0) <==> forall j :: 0 <= j < |tail| ==> !p(tail[j]) by {
          assert forall j :: 1 <= j < |s| ==> s[j] == tail[j - 1];
        }
      } else {
        assert Filter(s, p) == rest;
        if exists i :: OnlyAt(tail, p, i) {
          var i :| OnlyAt(tail, p, i);
          assert OnlyAt(s, p, i + 1);
        }
      }
    }
  }
}
