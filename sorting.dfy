/** A model of Go's `sort.SliceStable`. Every stable sort under a strict weak
    order yields the same result, so the insertion sort below stands for the
    library's algorithm: `SortedBy` is its value and `StableSortInPlace` runs
    it on an array, shifting each element left past the ones it is `less`
    than. */
module Sorting {

  /** `less` orders values like a Go comparator that sort.SliceStable
      accepts: irreflexive, transitive, and with transitive incomparability
      (stated as: not below and not below implies not below). */
  ghost predicate StrictWeakOrder<T(!new)>(less: (T, T) -> bool)
  {
    && (forall x :: !less(x, x))
    && (forall x, y, z :: less(x, y) && less(y, z) ==> less(x, z))
    && (forall x, y, z :: !less(x, y) && !less(y, z) ==> !less(x, z))
  }

  /** Neither value sorts before the other. */
  predicate Incomparable<T>(less: (T, T) -> bool, x: T, y: T)
  {
    !less(x, y) && !less(y, x)
  }

  /** No element is `less` than one before it. */
  predicate Sorted<T>(s: seq<T>, less: (T, T) -> bool)
  {
    forall i, j :: 0 <= i < j < |s| ==> !less(s[j], s[i])
  }

  /** Insert `x` into `t` from the right: it moves left past every element
      it is `less` than and stops at the first one it is not. */
  function InsertSorted<T>(t: seq<T>, x: T, less: (T, T) -> bool): seq<T>
  {
    if t == [] || !less(x, t[|t| - 1]) then
      t + [x]
    else
      InsertSorted(t[..|t| - 1], x, less) + [t[|t| - 1]]
  }

  /** Inserting adds exactly `x`. */
  lemma {:induction false} InsertSortedPermutation<T>(t: seq<T>, x: T, less: (T, T) -> bool)
    ensures |InsertSorted(t, x, less)| == |t| + 1
    ensures multiset(InsertSorted(t, x, less)) == multiset(t) + multiset{x}
    decreases |t|
  {
    if t != [] && less(x, t[|t| - 1]) {
      InsertSortedPermutation(t[..|t| - 1], x, less);
      assert t == t[..|t| - 1] + [t[|t| - 1]];
    }
  }

  /** The stable sort of `s` under `less`. */
  function SortedBy<T>(s: seq<T>, less: (T, T) -> bool): seq<T>
  {
    if s == [] then [] else InsertSorted(SortedBy(s[..|s| - 1], less), s[|s| - 1], less)
  }

  /** Sorting yields a permutation of its input. */
  lemma {:induction false} SortedByPermutation<T>(s: seq<T>, less: (T, T) -> bool)
    ensures |SortedBy(s, less)| == |s|
    ensures multiset(SortedBy(s, less)) == multiset(s)
  {
    if s != [] {
      SortedByPermutation(s[..|s| - 1], less);
      InsertSortedPermutation(SortedBy(s[..|s| - 1], less), s[|s| - 1], less);
      assert s == s[..|s| - 1] + [s[|s| - 1]];
    }
  }

  /** The elements of `s` incomparable with `e`, in their order in `s`. */
  function Equivalents<T>(s: seq<T>, e: T, less: (T, T) -> bool): seq<T>
  {
    if s == [] then []
    else
      Equivalents(s[..|s| - 1], e, less)
      + (if Incomparable(less, s[|s| - 1], e) then [s[|s| - 1]] else [])
  }

  lemma EquivalentsSnoc<T>(s: seq<T>, x: T, e: T, less: (T, T) -> bool)
    ensures Equivalents(s + [x], e, less)
         == Equivalents(s, e, less) + (if Incomparable(less, x, e) then [x] else [])
  {
    assert (s + [x])[..|s|] == s;
  }

  lemma AppendSorted<T(!new)>(t: seq<T>, x: T, less: (T, T) -> bool)
    requires StrictWeakOrder(less)
    requires Sorted(t, less)
    requires t == [] || !less(x, t[|t| - 1])
    ensures Sorted(t + [x], less)
  {
    assert forall i :: 0 <= i < |t| ==> !less(x, t[i]);
  }

  lemma SnocSorted<T>(u: seq<T>, y: T, less: (T, T) -> bool)
    requires Sorted(u, less)
    requires forall z :: z in u ==> !less(y, z)
    ensures Sorted(u + [y], less)
  {
    assert forall i :: 0 <= i < |u| ==> u[i] in u;
  }

  /** Inserting into a sorted sequence keeps it sorted. */
  lemma {:induction false} InsertSortedSorted<T(!new)>(t: seq<T>, x: T, less: (T, T) -> bool)
    requires StrictWeakOrder(less)
    requires Sorted(t, less)
    ensures Sorted(InsertSorted(t, x, less), less)
    decreases |t|
  {
    if t == [] || !less(x, t[|t| - 1]) {
      AppendSorted(t, x, less);
    } else {
      var t', y := t[..|t| - 1], t[|t| - 1];
      assert Sorted(t', less);
      InsertSortedSorted(t', x, less);
      var u := InsertSorted(t', x, less);
      InsertSortedPermutation(t', x, less);
      forall z | z in u
        ensures !less(y, z)
      {
        assert z in multiset(u);
        if z != x {
          assert z in multiset(t');
          var k :| 0 <= k < |t'| && t'[k] == z;
          assert t[k] == z;
        }
      }
      SnocSorted(u, y, less);
    }
  }

  /** Sorting yields a sequence that is sorted. */
  lemma {:induction false} SortedBySorted<T(!new)>(s: seq<T>, less: (T, T) -> bool)
    requires StrictWeakOrder(less)
    ensures Sorted(SortedBy(s, less), less)
  {
    if s != [] {
      SortedBySorted(s[..|s| - 1], less);
      InsertSortedSorted(SortedBy(s[..|s| - 1], less), s[|s| - 1], less);
    }
  }

  /** Incomparability is transitive; this is the part of a strict weak order
      that stability rests on. */
  ghost predicate IncomparableTransitive<T(!new)>(less: (T, T) -> bool)
  {
    forall x, y, z :: Incomparable(less, x, y) && Incomparable(less, y, z) ==> Incomparable(less, x, z)
  }

  lemma StrictWeakOrderIncomparableTransitive<T(!new)>(less: (T, T) -> bool)
    requires StrictWeakOrder(less)
    ensures IncomparableTransitive(less)
  {
  }

  lemma {:induction false} InsertSortedStable<T(!new)>(t: seq<T>, x: T, e: T, less: (T, T) -> bool)
    requires IncomparableTransitive(less)
    ensures Equivalents(InsertSorted(t, x, less), e, less) == Equivalents(t + [x], e, less)
    decreases |t|
  {
    if t == [] || !less(x, t[|t| - 1]) {
    } else {
      var t', y := t[..|t| - 1], t[|t| - 1];
      InsertSortedStable(t', x, e, less);
      var fx := if Incomparable(less, x, e) then [x] else [];
      var fy := if Incomparable(less, y, e) then [y] else [];
      assert !(Incomparable(less, x, e) && Incomparable(less, e, y));
      calc {
        Equivalents(InsertSorted(t, x, less), e, less);
        { EquivalentsSnoc(InsertSorted(t', x, less), y, e, less); }
        Equivalents(InsertSorted(t', x, less), e, less) + fy;
        Equivalents(t' + [x], e, less) + fy;
        { EquivalentsSnoc(t', x, e, less); }
        Equivalents(t', e, less) + fx + fy;
        Equivalents(t', e, less) + fy + fx;
        { EquivalentsSnoc(t', y, e, less); assert t' + [y] == t; }
        Equivalents(t, e, less) + fx;
        { EquivalentsSnoc(t, x, e, less); }
        Equivalents(t + [x], e, less);
      }
    }
  }

  /** Sorting is stable: the elements incomparable with any `e` keep their
      relative order. */
  lemma {:induction false} SortedByStable<T(!new)>(s: seq<T>, e: T, less: (T, T) -> bool)
    requires IncomparableTransitive(less)
    ensures Equivalents(SortedBy(s, less), e, less) == Equivalents(s, e, less)
  {
    if s != [] {
      var s', x := s[..|s| - 1], s[|s| - 1];
      SortedByStable(s', e, less);
      InsertSortedStable(SortedBy(s', less), x, e, less);
      assert SortedBy(s, less) == InsertSorted(SortedBy(s', less), x, less);
      calc {
        Equivalents(SortedBy(s, less), e, less);
        Equivalents(SortedBy(s', less) + [x], e, less);
        { EquivalentsSnoc(SortedBy(s', less), x, e, less); }
        Equivalents(SortedBy(s', less), e, less) + (if Incomparable(less, x, e) then [x] else []);
        { EquivalentsSnoc(s', x, e, less); assert s' + [x] == s; }
        Equivalents(s, e, less);
      }
    }
  }

  /** A sequence that is already sorted is left as it is, whatever `less` is. */
  lemma {:induction false} SortedByOfSorted<T>(s: seq<T>, less: (T, T) -> bool)
    requires Sorted(s, less)
    ensures SortedBy(s, less) == s
  {
    if s != [] {
      var s' := s[..|s| - 1];
      assert Sorted(s', less);
      SortedByOfSorted(s', less);
      assert s' + [s[|s| - 1]] == s;
    }
  }

  lemma {:induction false} InsertSortedCongruent<T>(t: seq<T>, x: T, less: (T, T) -> bool, less': (T, T) -> bool)
    requires forall y :: y in t ==> less(x, y) == less'(x, y)
    ensures InsertSorted(t, x, less) == InsertSorted(t, x, less')
    decreases |t|
  {
    if t != [] {
      assert t[|t| - 1] in t;
      InsertSortedCongruent(t[..|t| - 1], x, less, less');
    }
  }

  /** Two comparators that agree on the elements of `s` sort it alike. */
  lemma {:induction false} SortedByCongruent<T>(s: seq<T>, less: (T, T) -> bool, less': (T, T) -> bool)
    requires forall x, y :: x in s && y in s ==> less(x, y) == less'(x, y)
    ensures SortedBy(s, less) == SortedBy(s, less')
  {
    if s != [] {
      var s', x := s[..|s| - 1], s[|s| - 1];
      forall y, z | y in s' && z in s' ensures less(y, z) == less'(y, z) {
        assert y in s && z in s;
      }
      SortedByCongruent(s', less, less');
      var t := SortedBy(s', less);
      SortedByPermutation(s', less);
      forall y | y in t ensures less(x, y) == less'(x, y) {
        assert y in multiset(t);
        assert multiset(t) == multiset(s');
        assert y in s;
      }
      InsertSortedCongruent(t, x, less, less');
    }
  }

  lemma InsertSortedShift<T>(t: seq<T>, x: T, j: nat, less: (T, T) -> bool)
    requires 0 < j <= |t| && less(x, t[j - 1])
    ensures InsertSorted(t[..j], x, less) + t[j..] == InsertSorted(t[..j - 1], x, less) + t[j - 1..]
  {
    assert t[..j][..j - 1] == t[..j - 1];
    assert [t[j - 1]] + t[j..] == t[j - 1..];
  }

  lemma SortedByPrefix<T>(s: seq<T>, i: nat, less: (T, T) -> bool)
    requires i < |s|
    ensures SortedBy(s[..i + 1], less) == InsertSorted(SortedBy(s[..i], less), s[i], less)
  {
    assert s[..i + 1][..i] == s[..i];
  }

  /** Move `a[i]` left into the sorted prefix `a[..i]`, shifting right every
      element it is `less` than. */
  method InsertInPlace<T>(a: array<T>, i: nat, less: (T, T) -> bool)
    requires i < a.Length
    modifies a
    ensures a[..i + 1] == InsertSorted(old(a[..i]), old(a[i]), less)
    ensures a[i + 1..] == old(a[i + 1..])
  {
    ghost var t := a[..i];
    ghost var rest := a[i + 1..];
    var x := a[i];
    var j := i;
    while j > 0 && less(x, a[j - 1])
      invariant 0 <= j <= i
      invariant a[..j] == t[..j]
      invariant a[j + 1..i + 1] == t[j..i]
      invariant a[i + 1..] == rest
      invariant InsertSorted(t, x, less) == InsertSorted(t[..j], x, less) + t[j..]
    {
      assert a[j - 1] == t[j - 1];
      InsertSortedShift(t, x, j, less);
      a[j] := a[j - 1];
      j := j - 1;
    }
    assert InsertSorted(t[..j], x, less) == t[..j] + [x];
    a[j] := x;
    assert a[..i + 1] == t[..j] + [x] + t[j..i];
  }

  /** Sort `a` in place, stably: after the call it holds `SortedBy` of what
      it held before. */
  method StableSortInPlace<T>(a: array<T>, less: (T, T) -> bool)
    modifies a
    ensures a[..] == SortedBy(old(a[..]), less)
  {
    ghost var s := a[..];
    var i := 0;
    while i < a.Length
      invariant 0 <= i <= a.Length
      invariant a[..i] == SortedBy(s[..i], less)
      invariant a[i..] == s[i..]
    {
      ghost var done, x := a[..i], a[i];
      assert x == s[i];
      assert a[i + 1..] == s[i + 1..];
      SortedByPrefix(s, i, less);
      InsertInPlace(a, i, less);
      assert a[..i + 1] == InsertSorted(done, x, less);
      i := i + 1;
    }
    assert s[..a.Length] == s;
  }
}
