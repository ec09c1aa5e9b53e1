/** Stable sorting, as Rust's `slice::sort_by` performs it.

    A comparator is given as `before(x, y)`: "x must be placed strictly before y",
    i.e. the closure passed to `sort_by` answers `Ordering::Less` for (x, y).
    `SortSpec` is insertion sort written as a function; `SortBy` is the in-place
    version on an array.  `SortSpecIsUnique` shows that every stable sort with the
    same comparator produces the same sequence, so the choice of algorithm (Rust uses a
    merge sort) does not matter. */
module Sorting {

  ghost predicate Asymmetric<T(!new)>(before: (T, T) -> bool)
  {
    forall x, y :: before(x, y) ==> !before(y, x)
  }

  /** "Not before" is transitive: together with asymmetry this makes `before` a strict
      weak order, which is what `sort_by` requires of its comparator. */
  ghost predicate NegativelyTransitive<T(!new)>(before: (T, T) -> bool)
  {
    forall x, y, z :: !before(x, y) && !before(y, z) ==> !before(x, z)
  }

  ghost predicate StrictWeakOrder<T(!new)>(before: (T, T) -> bool)
  {
    Asymmetric(before) && NegativelyTransitive(before)
  }

  /** No element is to be placed strictly before an element that precedes it. */
  predicate SortedBy<T(!new)>(s: seq<T>, before: (T, T) -> bool)
  {
    forall i, j :: 0 <= i < j < |s| ==> !before(s[j], s[i])
  }

  /** Neither element has to go before the other: their relative order is up to stability. */
  predicate Equivalent<T(!new)>(x: T, y: T, before: (T, T) -> bool)
  {
    !before(x, y) && !before(y, x)
  }

  /** The subsequence of `s` made of the elements equivalent to `y`, in their order in `s`. */
  function Class<T(!new)>(s: seq<T>, y: T, before: (T, T) -> bool): seq<T>
  {
    if s == [] then []
    else Class(s[..|s| - 1], y, before)
         + (if Equivalent(s[|s| - 1], y, before) then [s[|s| - 1]] else [])
  }

  /** Inserts `x` after the last element it does not have to precede. */
  function Insert<T(!new)>(s: seq<T>, x: T, before: (T, T) -> bool): seq<T>
  {
    if s == [] || !before(x, s[|s| - 1]) then s + [x]
    else Insert(s[..|s| - 1], x, before) + [s[|s| - 1]]
  }

  /** Insertion sort: the stable sort of `s` by `before`. */
  function SortSpec<T(!new)>(s: seq<T>, before: (T, T) -> bool): seq<T>
  {
    if s == [] then [] else Insert(SortSpec(s[..|s| - 1], before), s[|s| - 1], before)
  }

  // ---------------------------------------------------------------- Insert

  lemma {:induction false} InsertContents<T(!new)>(s: seq<T>, x: T, before: (T, T) -> bool)
    ensures |Insert(s, x, before)| == |s| + 1
    ensures multiset(Insert(s, x, before)) == multiset(s) + multiset{x}
  {
    if s != [] && before(x, s[|s| - 1]) {
      InsertContents(s[..|s| - 1], x, before);
      assert s == s[..|s| - 1] + [s[|s| - 1]];
    }
  }

  lemma {:induction false} InsertSorted<T(!new)>(s: seq<T>, x: T, before: (T, T) -> bool)
    requires StrictWeakOrder(before)
    requires SortedBy(s, before)
    ensures SortedBy(Insert(s, x, before), before)
  {
    var r := Insert(s, x, before);
    if s == [] || !before(x, s[|s| - 1]) {
      forall i, j | 0 <= i < j < |r| ensures !before(r[j], r[i]) {
        if j == |s| && i < |s| - 1 {
          assert !before(s[|s| - 1], s[i]);
        }
      }
    } else {
      var p, last := s[..|s| - 1], s[|s| - 1];
      InsertSorted(p, x, before);
      InsertContents(p, x, before);
      var q := Insert(p, x, before);
      assert r == q + [last];
      forall i, j | 0 <= i < j < |r| ensures !before(r[j], r[i]) {
        if j == |r| - 1 {
          assert r[i] == q[i];
          assert q[i] in multiset(p) + multiset{x} by { assert q[i] in multiset(q); }
          if q[i] != x {
            assert q[i] in p;
            var k :| 0 <= k < |p| && p[k] == q[i];
            assert !before(s[|s| - 1], s[k]);
          }
        }
      }
    }
  }

  lemma {:induction false} InsertClass<T(!new)>(s: seq<T>, x: T, y: T, before: (T, T) -> bool)
    requires StrictWeakOrder(before)
    ensures Class(Insert(s, x, before), y, before)
         == Class(s, y, before) + (if Equivalent(x, y, before) then [x] else [])
  {
    var r := Insert(s, x, before);
    if s == [] || !before(x, s[|s| - 1]) {
      assert r[..|r| - 1] == s;
    } else {
      var p, last := s[..|s| - 1], s[|s| - 1];
      InsertClass(p, x, y, before);
      var q := Insert(p, x, before);
      assert r == q + [last] && r[..|r| - 1] == q;
      assert s == p + [last] && s[..|s| - 1] == p;
      // x and last cannot both be equivalent to y, for x goes strictly before last.
      assert !(Equivalent(x, y, before) && Equivalent(last, y, before));
    }
  }

  /** Inserting `x` into `s` lands it at `j` when exactly the elements from `j` on must
      come after it: the position the inner loop of `SortBy` stops at. */
  lemma {:induction false} InsertAt<T(!new)>(s: seq<T>, x: T, j: nat, before: (T, T) -> bool)
    requires j <= |s|
    requires forall k :: j <= k < |s| ==> before(x, s[k])
    requires j == 0 || !before(x, s[j - 1])
    ensures Insert(s, x, before) == s[..j] + [x] + s[j..]
    decreases |s| - j
  {
    if j < |s| {
      var p := s[..|s| - 1];
      InsertAt(p, x, j, before);
      assert p[..j] == s[..j];
      assert s[j..] == p[j..] + [s[|s| - 1]];
    }
  }

  // ---------------------------------------------------------------- SortSpec

  /** The result of sorting is a permutation of the input. */
  lemma {:induction false} SortSpecPermutation<T(!new)>(s: seq<T>, before: (T, T) -> bool)
    ensures |SortSpec(s, before)| == |s|
    ensures multiset(SortSpec(s, before)) == multiset(s)
  {
    if s != [] {
      SortSpecPermutation(s[..|s| - 1], before);
      InsertContents(SortSpec(s[..|s| - 1], before), s[|s| - 1], before);
      assert s == s[..|s| - 1] + [s[|s| - 1]];
    }
  }

  /** The result of sorting is ordered by the comparator. */
  lemma {:induction false} SortSpecSorted<T(!new)>(s: seq<T>, before: (T, T) -> bool)
    requires StrictWeakOrder(before)
    ensures SortedBy(SortSpec(s, before), before)
  {
    if s != [] {
      SortSpecSorted(s[..|s| - 1], before);
      InsertSorted(SortSpec(s[..|s| - 1], before), s[|s| - 1], before);
    }
  }

  /** Stability: equivalent elements keep their relative order. */
  lemma {:induction false} SortSpecStable<T(!new)>(s: seq<T>, y: T, before: (T, T) -> bool)
    requires StrictWeakOrder(before)
    ensures Class(SortSpec(s, before), y, before) == Class(s, y, before)
  {
    if s != [] {
      SortSpecStable(s[..|s| - 1], y, before);
      InsertClass(SortSpec(s[..|s| - 1], before), s[|s| - 1], y, before);
    }
  }

  lemma SortSpecMembers<T(!new)>(s: seq<T>, before: (T, T) -> bool, x: T)
    ensures x in SortSpec(s, before) <==> x in s
  {
    SortSpecPermutation(s, before);
    assert x in SortSpec(s, before) <==> x in multiset(SortSpec(s, before));
    assert x in s <==> x in multiset(s);
  }

  lemma {:induction false} ClassCount<T(!new)>(s: seq<T>, y: T, x: T, before: (T, T) -> bool)
    ensures multiset(Class(s, y, before))[x]
         == if Equivalent(x, y, before) then multiset(s)[x] else 0
  {
    if s != [] {
      ClassCount(s[..|s| - 1], y, x, before);
      assert s == s[..|s| - 1] + [s[|s| - 1]];
    }
  }

  lemma ClassSnoc<T(!new)>(s: seq<T>, x: T, y: T, before: (T, T) -> bool)
    ensures Class(s + [x], y, before)
         == Class(s, y, before) + (if Equivalent(x, y, before) then [x] else [])
  {
    assert (s + [x])[..|s|] == s;
  }

  lemma ClassesGiveMultiset<T(!new)>(t: seq<T>, u: seq<T>, before: (T, T) -> bool)
    requires Asymmetric(before)
    requires forall y :: Class(t, y, before) == Class(u, y, before)
    ensures multiset(t) == multiset(u) && |t| == |u|
  {
    forall x ensures multiset(t)[x] == multiset(u)[x] {
      ClassCount(t, x, x, before);
      ClassCount(u, x, x, before);
      assert Class(t, x, before) == Class(u, x, before);
    }
    assert multiset(t) == multiset(u);
    assert |t| == |multiset(t)| == |multiset(u)| == |u|;
  }

  /** The last elements of two sorted sequences with the same elements are equivalent. */
  lemma LastEquivalent<T(!new)>(t: seq<T>, u: seq<T>, before: (T, T) -> bool)
    requires Asymmetric(before)
    requires SortedBy(t, before) && SortedBy(u, before)
    requires multiset(t) == multiset(u) && |t| == |u| > 0
    ensures Equivalent(t[|t| - 1], u[|u| - 1], before)
  {
    var n := |t|;
    var lt, lu := t[n - 1], u[n - 1];
    assert lu in multiset(t) by { assert lu in multiset(u); }
    var i :| 0 <= i < n && t[i] == lu;
    assert lt in multiset(u) by { assert lt in multiset(t); }
    var k :| 0 <= k < n && u[k] == lt;
    assert !before(lt, lu) by { if i < n - 1 { assert !before(t[n - 1], t[i]); } }
    assert !before(lu, lt) by { if k < n - 1 { assert !before(u[n - 1], u[k]); } }
  }

  /** Two sorted sequences whose equivalence classes agree, class by class, are equal. */
  lemma {:induction false} SortedClassesDetermine<T(!new)>(t: seq<T>, u: seq<T>, before: (T, T) -> bool)
    requires StrictWeakOrder(before)
    requires SortedBy(t, before) && SortedBy(u, before)
    requires forall y :: Class(t, y, before) == Class(u, y, before)
    ensures t == u
    decreases |t|
  {
    ClassesGiveMultiset(t, u, before);
    if t != [] {
      var n := |t|;
      var lt, lu := t[n - 1], u[n - 1];
      LastEquivalent(t, u, before);
      var t', u' := t[..n - 1], u[..n - 1];
      assert t == t' + [lt] && u == u' + [lu];
      ClassSnoc(t', lt, lt, before);
      ClassSnoc(u', lu, lt, before);
      assert lt == lu by {
        var c := Class(t, lt, before);
        assert c[|c| - 1] == lt;
      }
      forall y ensures Class(t', y, before) == Class(u', y, before) {
        ClassSnoc(t', lt, y, before);
        ClassSnoc(u', lt, y, before);
        var extra := if Equivalent(lt, y, before) then [lt] else [];
        var c := Class(t, y, before);
        assert Class(t', y, before) == c[..|c| - |extra|];
        assert Class(u', y, before) == c[..|c| - |extra|];
      }
      SortedClassesDetermine(t', u', before);
    }
  }

  /** Any sorted rearrangement of `s` that keeps every class in its original order is
      `SortSpec(s)`: every stable sort agrees with insertion sort. */
  lemma SortSpecIsUnique<T(!new)>(s: seq<T>, t: seq<T>, before: (T, T) -> bool)
    requires StrictWeakOrder(before)
    requires SortedBy(t, before)
    requires forall y :: Class(t, y, before) == Class(s, y, before)
    ensures t == SortSpec(s, before)
  {
    SortSpecSorted(s, before);
    forall y ensures Class(SortSpec(s, before), y, before) == Class(t, y, before) {
      SortSpecStable(s, y, before);
    }
    SortedClassesDetermine(SortSpec(s, before), t, before);
  }

  // ---------------------------------------------------------------- in place

  /** `a.sort_by(..)`: sorts the array in place, stably. */
  method SortBy<T(!new)>(a: array<T>, before: (T, T) -> bool)
    modifies a
    ensures a[..] == SortSpec(old(a[..]), before)
  {
    ghost var orig := a[..];
    var i := 0;
    while i < a.Length
      invariant 0 <= i <= a.Length
      invariant a[..i] == SortSpec(orig[..i], before)
      invariant a[i..] == orig[i..]
    {
      InsertInPlace(a, i, before);
      assert orig[..i + 1] == orig[..i] + [orig[i]];
      i := i + 1;
    }
    assert orig[..a.Length] == orig;
  }

  /** One step of insertion sort: moves `a[i]` into the sorted prefix `a[..i]`. */
  method InsertInPlace<T(!new)>(a: array<T>, i: nat, before: (T, T) -> bool)
    requires i < a.Length
    modifies a
    ensures a[..i + 1] == Insert(old(a[..i]), old(a[i]), before)
    ensures a[i + 1..] == old(a[i + 1..])
  {
    var x := a[i];
    ghost var done := a[..i];
    var j := i;
    while j > 0 && before(x, a[j - 1])
      invariant 0 <= j <= i
      invariant forall k :: 0 <= k < j ==> a[k] == done[k]
      invariant forall k :: j < k <= i ==> a[k] == done[k - 1]
      invariant forall k :: i < k < a.Length ==> a[k] == old(a[k])
      invariant forall k :: j <= k < i ==> before(x, done[k])
    {
      a[j] := a[j - 1];
      j := j - 1;
    }
    a[j] := x;
    InsertAt(done, x, j, before);
    Shifted(a[..i + 1], done, x, j);
  }

  /** A sequence that agrees with `s` before `j`, holds `x` at `j` and `s` shifted by one
      after it is `s` with `x` inserted at `j`. */
  lemma Shifted<T>(r: seq<T>, s: seq<T>, x: T, j: nat)
    requires j <= |s| && |r| == |s| + 1
    requires forall k :: 0 <= k < j ==> r[k] == s[k]
    requires r[j] == x
    requires forall k :: j < k < |r| ==> r[k] == s[k - 1]
    ensures r == s[..j] + [x] + s[j..]
  {
  }

  /** Sorts a copy of `s` (the collected `Vec` that `sort_by` then rearranges). */
  method SortSeq<T(!new)>(s: seq<T>, before: (T, T) -> bool) returns (r: seq<T>)
    ensures r == SortSpec(s, before)
  {
    var a := new T[|s|](i requires 0 <= i < |s| => s[i]);
    assert a[..] == s;
    SortBy(a, before);
    r := a[..];
  }
}
