/** The standard-library algorithms the column store relies on, over any strict total order:
    lexicographic comparison, std::sort, std::unique, std::lower_bound and std::upper_bound. */
module Ordering {

  ghost predicate StrictTotalOrder<T(!new)>(less: (T, T) -> bool) {
    && (forall x :: !less(x, x))
    && (forall x, y :: less(x, y) || x == y || less(y, x))
    && (forall x, y, z :: less(x, y) && less(y, z) ==> less(x, z))
  }

  // ---------------------------------------------------------------- lexicographic comparison

  predicate LexLess<T(==)>(less: (T, T) -> bool, a: seq<T>, b: seq<T>) {
    b != [] && (a == [] || less(a[0], b[0]) || (a[0] == b[0] && LexLess(less, a[1..], b[1..])))
  }

  lemma {:induction false} LexLessIrreflexive<T(!new)>(less: (T, T) -> bool, a: seq<T>)
    requires StrictTotalOrder(less)
    ensures !LexLess(less, a, a)
  {
    if a != [] {
      LexLessIrreflexive(less, a[1..]);
    }
  }

  lemma {:induction false} LexLessTotal<T(!new)>(less: (T, T) -> bool, a: seq<T>, b: seq<T>)
    requires StrictTotalOrder(less)
    ensures LexLess(less, a, b) || a == b || LexLess(less, b, a)
  {
    if a != [] && b != [] && a[0] == b[0] {
      LexLessTotal(less, a[1..], b[1..]);
      assert a == [a[0]] + a[1..] && b == [b[0]] + b[1..];
    }
  }

  lemma {:induction false} LexLessTransitive<T(!new)>(less: (T, T) -> bool, a: seq<T>, b: seq<T>, c: seq<T>)
    requires StrictTotalOrder(less)
    requires LexLess(less, a, b) && LexLess(less, b, c)
    ensures LexLess(less, a, c)
  {
    if a != [] && a[0] == b[0] && b[0] == c[0] {
      LexLessTransitive(less, a[1..], b[1..], c[1..]);
    }
  }

  /** a comes before b because of position n: they agree before it, and there a ends or has the smaller element. */
  ghost predicate DiffersAt<T(!new)>(less: (T, T) -> bool, a: seq<T>, b: seq<T>, n: nat) {
    && n <= |a| && n < |b|
    && (forall k :: 0 <= k < n ==> a[k] == b[k])
    && (n == |a| || less(a[n], b[n]))
  }

  /** Lexicographic order is decided by the first difference. */
  lemma {:induction false} LexLessMeaning<T(!new)>(less: (T, T) -> bool, a: seq<T>, b: seq<T>)
    ensures LexLess(less, a, b) <==> exists n: nat :: DiffersAt(less, a, b, n)
  {
    if LexLess(less, a, b) {
      if a == [] || less(a[0], b[0]) {
        assert DiffersAt(less, a, b, 0);
      } else {
        LexLessMeaning(less, a[1..], b[1..]);
        var n: nat :| DiffersAt(less, a[1..], b[1..], n);
        assert DiffersAt(less, a, b, n + 1);
      }
    }
    if n: nat :| DiffersAt(less, a, b, n) {
      if n > 0 {
        LexLessMeaning(less, a[1..], b[1..]);
        assert DiffersAt(less, a[1..], b[1..], n - 1);
      }
    }
  }

  // ---------------------------------------------------------------- sorting

  ghost predicate Sorted<T(!new)>(less: (T, T) -> bool, s: seq<T>) {
    forall i, j :: 0 <= i < j < |s| ==> !less(s[j], s[i])
  }

  ghost predicate StrictlySorted<T(!new)>(less: (T, T) -> bool, s: seq<T>) {
    forall i, j :: 0 <= i < j < |s| ==> less(s[i], s[j])
  }

  function Insert<T>(less: (T, T) -> bool, x: T, s: seq<T>): seq<T> {
    if s == [] || !less(s[0], x) then [x] + s else [s[0]] + Insert(less, x, s[1..])
  }

  /** std::sort. `SortedPermutationIsUnique` shows that the choice of algorithm cannot be observed. */
  function Sort<T>(less: (T, T) -> bool, s: seq<T>): seq<T> {
    if s == [] then [] else Insert(less, s[0], Sort(less, s[1..]))
  }

  lemma {:induction false} InsertPermutes<T>(less: (T, T) -> bool, x: T, s: seq<T>)
    ensures multiset(Insert(less, x, s)) == multiset{x} + multiset(s)
  {
    if s != [] && less(s[0], x) {
      InsertPermutes(less, x, s[1..]);
      assert s == [s[0]] + s[1..];
    }
  }

  lemma {:induction false} InsertSorts<T(!new)>(less: (T, T) -> bool, x: T, s: seq<T>)
    requires StrictTotalOrder(less) && Sorted(less, s)
    ensures Sorted(less, Insert(less, x, s))
    ensures forall y :: y in Insert(less, x, s) ==> y == x || y in s
  {
    if s != [] && less(s[0], x) {
      InsertSorts(less, x, s[1..]);
      var rest := Insert(less, x, s[1..]);
      forall i | 0 <= i < |rest| ensures !less(rest[i], s[0]) {
        assert rest[i] == x || rest[i] in s[1..];
      }
    }
  }

  /** std::sort returns an ascending rearrangement of its input. */
  lemma {:induction false} SortCorrect<T(!new)>(less: (T, T) -> bool, s: seq<T>)
    requires StrictTotalOrder(less)
    ensures Sorted(less, Sort(less, s))
    ensures multiset(Sort(less, s)) == multiset(s)
  {
    if s != [] {
      SortCorrect(less, s[1..]);
      InsertSorts(less, s[0], Sort(less, s[1..]));
      InsertPermutes(less, s[0], Sort(less, s[1..]));
      assert s == [s[0]] + s[1..];
    }
  }

  lemma SortElements<T(!new)>(less: (T, T) -> bool, s: seq<T>)
    requires StrictTotalOrder(less)
    ensures |Sort(less, s)| == |s|
    ensures forall x :: x in Sort(less, s) <==> x in s
  {
    SortCorrect(less, s);
    assert |multiset(Sort(less, s))| == |multiset(s)|;
    forall x ensures x in Sort(less, s) <==> x in s {
      assert x in multiset(Sort(less, s)) <==> x in multiset(s);
    }
  }

  lemma FirstIsLeast<T(!new)>(less: (T, T) -> bool, s: seq<T>, x: T)
    requires StrictTotalOrder(less) && Sorted(less, s) && x in multiset(s)
    ensures s != [] && !less(x, s[0])
  {
  }

  lemma DropFirst<T>(s: seq<T>)
    requires s != []
    ensures multiset(s[1..]) == multiset(s) - multiset{s[0]}
  {
    assert s == [s[0]] + s[1..];
  }

  /** Two ascending sequences holding the same elements, each equally often, are the same sequence. */
  lemma {:induction false} SortedPermutationIsUnique<T(!new)>(less: (T, T) -> bool, a: seq<T>, b: seq<T>)
    requires StrictTotalOrder(less)
    requires Sorted(less, a) && Sorted(less, b) && multiset(a) == multiset(b)
    ensures a == b
  {
    assert |multiset(a)| == |a| && |multiset(b)| == |b|;
    if a != [] {
      assert a[0] in multiset(a) && b[0] in multiset(b);
      FirstIsLeast(less, b, a[0]);
      FirstIsLeast(less, a, b[0]);
      DropFirst(a);
      DropFirst(b);
      SortedPermutationIsUnique(less, a[1..], b[1..]);
      assert a == [a[0]] + a[1..] && b == [b[0]] + b[1..];
    }
  }

  /** Sorting decides equality of multisets. */
  lemma SortEqualIffSameMultiset<T(!new)>(less: (T, T) -> bool, a: seq<T>, b: seq<T>)
    requires StrictTotalOrder(less)
    ensures Sort(less, a) == Sort(less, b) <==> multiset(a) == multiset(b)
  {
    SortCorrect(less, a);
    SortCorrect(less, b);
    if multiset(a) == multiset(b) {
      SortedPermutationIsUnique(less, Sort(less, a), Sort(less, b));
    }
  }

  // ---------------------------------------------------------------- removing duplicates

  /** std::unique followed by erase: of each group of equal neighbours one is kept. */
  function Unique<T(==)>(s: seq<T>): seq<T> {
    if |s| < 2 then s
    else if s[0] == s[1] then Unique(s[1..])
    else [s[0]] + Unique(s[1..])
  }

  lemma {:induction false} UniqueElements<T>(s: seq<T>)
    ensures forall x :: x in Unique(s) <==> x in s
    ensures s != [] ==> Unique(s) != [] && Unique(s)[0] == s[0]
  {
    if |s| >= 2 {
      UniqueElements(s[1..]);
      assert s == [s[0]] + s[1..];
    }
  }

  /** Removing neighbouring duplicates from an ascending sequence leaves a strictly ascending one. */
  lemma {:induction false} UniqueStrictlySorted<T(!new)>(less: (T, T) -> bool, s: seq<T>)
    requires StrictTotalOrder(less) && Sorted(less, s)
    ensures StrictlySorted(less, Unique(s))
  {
    if |s| >= 2 {
      UniqueStrictlySorted(less, s[1..]);
      UniqueElements(s[1..]);
      if s[0] != s[1] {
        var rest := Unique(s[1..]);
        forall i | 0 <= i < |rest| ensures less(s[0], rest[i]) {
          assert rest[i] in s[1..];
          assert less(s[0], s[1]);
        }
      }
    }
  }

  /** A set has exactly one strictly ascending enumeration. */
  lemma {:induction false} StrictEnumerationIsUnique<T(!new)>(less: (T, T) -> bool, a: seq<T>, b: seq<T>)
    requires StrictTotalOrder(less)
    requires StrictlySorted(less, a) && StrictlySorted(less, b)
    requires forall x :: x in a <==> x in b
    ensures a == b
  {
    if a == [] {
      StrictlySortedLength(less, b, a);
    } else {
      assert a[0] in b;
      assert b[0] in a;
      assert a[0] == b[0];
      forall x ensures x in a[1..] <==> x in b[1..] {
        assert a == [a[0]] + a[1..] && b == [b[0]] + b[1..];
        assert x in a <==> x in b;
      }
      StrictEnumerationIsUnique(less, a[1..], b[1..]);
      assert a == [a[0]] + a[1..] && b == [b[0]] + b[1..];
    }
  }

  /** A strictly ascending sequence is no longer than any sequence that holds its elements. */
  lemma StrictlySortedLength<T(!new)>(less: (T, T) -> bool, s: seq<T>, t: seq<T>)
    requires StrictTotalOrder(less) && StrictlySorted(less, s)
    requires forall x :: x in s ==> x in t
    ensures |s| <= |t|
  {
    DistinctSize(s);
    SetSize(t);
    assert (set x | x in s) <= (set x | x in t);
    SubsetSize(set x | x in s, set x | x in t);
  }

  lemma {:induction false} DistinctSize<T>(s: seq<T>)
    requires forall i, j :: 0 <= i < j < |s| ==> s[i] != s[j]
    ensures |set x | x in s| == |s|
  {
    if s != [] {
      DistinctSize(s[1..]);
      assert s == [s[0]] + s[1..];
      assert (set x | x in s) == {s[0]} + (set x | x in s[1..]);
      assert s[0] !in s[1..];
    }
  }

  lemma {:induction false} SetSize<T>(t: seq<T>)
    ensures |set x | x in t| <= |t|
  {
    if t != [] {
      SetSize(t[1..]);
      assert t == [t[0]] + t[1..];
      assert (set x | x in t) == {t[0]} + (set x | x in t[1..]);
    }
  }

  lemma {:induction false} SubsetSize<T>(a: set<T>, b: set<T>)
    requires a <= b
    ensures |a| <= |b|
    decreases a
  {
    if a != {} {
      var x :| x in a;
      SubsetSize(a - {x}, b - {x});
    }
  }

  // ---------------------------------------------------------------- binary search

  /** std::lower_bound on s[first..first + len], by halving. */
  function LowerBound<T(!new)>(less: (T, T) -> bool, s: seq<T>, v: T, first: nat, len: nat): (r: nat)
    requires first + len <= |s|
    requires StrictTotalOrder(less) && StrictlySorted(less, s)
    requires forall i :: 0 <= i < first ==> less(s[i], v)
    requires forall i :: first + len <= i < |s| ==> !less(s[i], v)
    ensures r <= |s|
    ensures forall i :: 0 <= i < r ==> less(s[i], v)
    ensures forall i :: r <= i < |s| ==> !less(s[i], v)
    decreases len
  {
    if len == 0 then first
    else
      var half := len / 2;
      if less(s[first + half], v) then LowerBound(less, s, v, first + half + 1, len - half - 1)
      else LowerBound(less, s, v, first, half)
  }

  /** std::upper_bound on s[first..first + len], by halving. */
  function UpperBound<T(!new)>(less: (T, T) -> bool, s: seq<T>, v: T, first: nat, len: nat): (r: nat)
    requires first + len <= |s|
    requires StrictTotalOrder(less) && StrictlySorted(less, s)
    requires forall i :: 0 <= i < first ==> !less(v, s[i])
    requires forall i :: first + len <= i < |s| ==> less(v, s[i])
    ensures r <= |s|
    ensures forall i :: 0 <= i < r ==> !less(v, s[i])
    ensures forall i :: r <= i < |s| ==> less(v, s[i])
    decreases len
  {
    if len == 0 then first
    else
      var half := len / 2;
      if less(v, s[first + half]) then UpperBound(less, s, v, first, half)
      else UpperBound(less, s, v, first + half + 1, len - half - 1)
  }

  /** The position of an entry against the two bounds of v is the entry's order against v. */
  lemma PositionDecidesOrder<T(!new)>(less: (T, T) -> bool, s: seq<T>, v: T, k: nat)
    requires StrictTotalOrder(less) && StrictlySorted(less, s) && k < |s|
    ensures less(s[k], v) <==> k < LowerBound(less, s, v, 0, |s|)
    ensures !less(v, s[k]) <==> k < UpperBound(less, s, v, 0, |s|)
  {
  }

  /** Binary search for an entry finds its position. */
  lemma PositionOfEntry<T(!new)>(less: (T, T) -> bool, s: seq<T>, k: nat)
    requires StrictTotalOrder(less) && StrictlySorted(less, s) && k < |s|
    ensures LowerBound(less, s, s[k], 0, |s|) == k
  {
    var v := s[k];
    var r := LowerBound(less, s, v, 0, |s|);
    PositionDecidesOrder(less, s, v, k);
    PositionDecidesOrder(less, s, v, if r < k then r else k);
  }
}
