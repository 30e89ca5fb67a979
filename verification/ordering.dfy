/** Strict total orders and the two uses of Python's `sorted` in the core:
    sorting the keys of a dictionary (a set: no two elements equal) and
    sorting a list that may hold equal elements. */
module Ordering {
  import Text

  ghost predicate IsStrictTotalOrder<T(!new)>(less: (T, T) -> bool)
  {
    && (forall a :: !less(a, a))
    && (forall a, b, c :: less(a, b) && less(b, c) ==> less(a, c))
    && (forall a, b :: a == b || less(a, b) || less(b, a))
  }

  /** Every element is below every later one. */
  predicate StrictlyAscending<T(!new)>(s: seq<T>, less: (T, T) -> bool)
  {
    forall i, j :: 0 <= i < j < |s| ==> less(s[i], s[j])
  }

  /** No element is below an earlier one. */
  predicate Ascending<T(!new)>(s: seq<T>, less: (T, T) -> bool)
  {
    forall i, j :: 0 <= i < j < |s| ==> !less(s[j], s[i])
  }

  predicate IsLeast<T(!new)>(m: T, s: set<T>, less: (T, T) -> bool)
  {
    m in s && forall x :: x in s && x != m ==> less(m, x)
  }

  lemma {:induction false} LeastExists<T(!new)>(s: set<T>, less: (T, T) -> bool)
    requires s != {} && IsStrictTotalOrder(less)
    ensures exists m :: IsLeast(m, s, less)
    decreases s
  {
    var y :| y in s;
    if s == {y} {
      assert IsLeast(y, s, less);
    } else {
      LeastExists(s - {y}, less);
      var m :| IsLeast(m, s - {y}, less);
      if less(y, m) {
        forall x | x in s && x != y ensures less(y, x) {
          if x != m {
            assert less(m, x);
          }
        }
        assert IsLeast(y, s, less);
      } else {
        assert less(m, y);
        assert IsLeast(m, s, less);
      }
    }
  }

  lemma LeastUnique<T(!new)>(m1: T, m2: T, s: set<T>, less: (T, T) -> bool)
    requires IsStrictTotalOrder(less)
    requires IsLeast(m1, s, less) && IsLeast(m2, s, less)
    ensures m1 == m2
  {
  }

  ghost function Least<T(!new)>(s: set<T>, less: (T, T) -> bool): (m: T)
    requires s != {} && IsStrictTotalOrder(less)
    ensures IsLeast(m, s, less)
  {
    LeastExists(s, less);
    var m :| IsLeast(m, s, less); m
  }

  /** The elements of a set in ascending order: what `sorted` gives for the
      keys of a dictionary. */
  ghost function SortedElements<T(!new)>(s: set<T>, less: (T, T) -> bool): (r: seq<T>)
    requires IsStrictTotalOrder(less)
    decreases s
  {
    if s == {} then []
    else
      var m := Least(s, less);
      [m] + SortedElements(s - {m}, less)
  }

  /** SortedElements lists every element of the set once, in strictly
      ascending order. */
  lemma {:induction false} SortedElementsSpec<T(!new)>(s: set<T>, less: (T, T) -> bool)
    requires IsStrictTotalOrder(less)
    ensures |SortedElements(s, less)| == |s|
    ensures forall x :: x in SortedElements(s, less) <==> x in s
    ensures StrictlyAscending(SortedElements(s, less), less)
    decreases s
  {
    if s != {} {
      var m := Least(s, less);
      var rest := SortedElements(s - {m}, less);
      SortedElementsSpec(s - {m}, less);
      assert SortedElements(s, less) == [m] + rest;
      PrependLeast(m, rest, less);
    }
  }

  lemma PrependLeast<T(!new)>(m: T, rest: seq<T>, less: (T, T) -> bool)
    requires StrictlyAscending(rest, less)
    requires forall x :: x in rest ==> less(m, x)
    ensures StrictlyAscending([m] + rest, less)
  {
    forall i, j | 0 <= i < j < |[m] + rest| ensures less(([m] + rest)[i], ([m] + rest)[j]) {
      if i == 0 {
        assert ([m] + rest)[j] == rest[j - 1];
      } else {
        assert ([m] + rest)[i] == rest[i - 1] && ([m] + rest)[j] == rest[j - 1];
      }
    }
  }

  lemma SortedElementsOfLeast<T(!new)>(s: set<T>, m: T, less: (T, T) -> bool)
    requires IsStrictTotalOrder(less) && IsLeast(m, s, less)
    ensures SortedElements(s, less) == [m] + SortedElements(s - {m}, less)
  {
    LeastUnique(m, Least(s, less), s, less);
  }

  /** `sorted(keys)`: repeatedly take the least remaining element. */
  method SortSet<T(==,!new)>(s: set<T>, less: (T, T) -> bool) returns (r: seq<T>)
    requires IsStrictTotalOrder(less)
    ensures r == SortedElements(s, less)
  {
    r := [];
    var rest := s;
    while rest != {}
      invariant SortedElements(s, less) == r + SortedElements(rest, less)
      decreases rest
    {
      LeastExists(rest, less);
      var m :| IsLeast(m, rest, less);
      SortedElementsOfLeast(rest, m, less);
      r := r + [m];
      rest := rest - {m};
    }
  }

  /** Place `x` before the first element it is not below. */
  function Insert<T(!new)>(x: T, s: seq<T>, less: (T, T) -> bool): (r: seq<T>)
    ensures multiset(r) == multiset(s) + multiset{x}
  {
    if s == [] || !less(s[0], x) then [x] + s
    else
      assert s == [s[0]] + s[1..];
      [s[0]] + Insert(x, s[1..], less)
  }

  lemma {:induction false} InsertAscending<T(!new)>(x: T, s: seq<T>, less: (T, T) -> bool)
    requires IsStrictTotalOrder(less) && Ascending(s, less)
    ensures Ascending(Insert(x, s, less), less)
  {
    if s == [] {
    } else if !less(s[0], x) {
      forall j | 0 <= j < |s| ensures !less(s[j], x) {
        if j > 0 {
          assert !less(s[j], s[0]);
        }
      }
      AscendingCons(x, s, less);
    } else {
      var t := Insert(x, s[1..], less);
      assert Ascending(s[1..], less);
      InsertAscending(x, s[1..], less);
      forall y | y in t ensures !less(y, s[0]) {
        assert y in multiset(t);
        if y != x {
          assert y in multiset(s[1..]);
          var j :| 0 <= j < |s[1..]| && s[1..][j] == y;
          assert s[j + 1] == y;
        }
      }
      forall j | 0 <= j < |t| ensures !less(t[j], s[0]) {
        assert t[j] in t;
      }
      AscendingCons(s[0], t, less);
    }
  }

  lemma AscendingCons<T(!new)>(x: T, s: seq<T>, less: (T, T) -> bool)
    requires Ascending(s, less)
    requires forall j :: 0 <= j < |s| ==> !less(s[j], x)
    ensures Ascending([x] + s, less)
  {
    forall i, j | 0 <= i < j < |[x] + s| ensures !less(([x] + s)[j], ([x] + s)[i]) {
      assert ([x] + s)[j] == s[j - 1];
      if i > 0 {
        assert ([x] + s)[i] == s[i - 1];
      }
    }
  }

  /** `sorted(items)`: an ascending permutation of the input. */
  function Sort<T(!new)>(s: seq<T>, less: (T, T) -> bool): (r: seq<T>)
    requires IsStrictTotalOrder(less)
    ensures multiset(r) == multiset(s)
    ensures Ascending(r, less)
  {
    if s == [] then []
    else
      assert s == [s[0]] + s[1..];
      var t := Sort(s[1..], less);
      InsertAscending(s[0], t, less);
      Insert(s[0], t, less)
  }

  /** No element of an ascending sequence is below its first one. */
  lemma FirstIsLeast<T(!new)>(s: seq<T>, x: T, less: (T, T) -> bool)
    requires IsStrictTotalOrder(less)
    requires Ascending(s, less) && x in s
    ensures !less(x, s[0])
  {
    var i :| 0 <= i < |s| && s[i] == x;
    if i > 0 {
      assert !less(s[i], s[0]);
    }
  }

  /** Two ascending arrangements of the same elements are the same sequence,
      so a sort result does not depend on the order of its input. */
  lemma {:induction false} AscendingUnique<T(!new)>(a: seq<T>, b: seq<T>, less: (T, T) -> bool)
    requires IsStrictTotalOrder(less)
    requires Ascending(a, less) && Ascending(b, less)
    requires multiset(a) == multiset(b)
    ensures a == b
  {
    if a == [] {
      assert |multiset(b)| == 0;
    } else {
      assert |b| == |a| by {
        assert |multiset(a)| == |a| && |multiset(b)| == |b|;
      }
      assert a[0] in multiset(b) && b[0] in multiset(a);
      FirstIsLeast(b, a[0], less);
      FirstIsLeast(a, b[0], less);
      assert a[0] == b[0];
      assert multiset(a) == multiset{a[0]} + multiset(a[1..]) by { assert a == [a[0]] + a[1..]; }
      assert multiset(b) == multiset{b[0]} + multiset(b[1..]) by { assert b == [b[0]] + b[1..]; }
      forall o ensures multiset(a[1..])[o] == multiset(b[1..])[o] {
        assert multiset(a)[o] == multiset{a[0]}[o] + multiset(a[1..])[o];
        assert multiset(b)[o] == multiset{b[0]}[o] + multiset(b[1..])[o];
      }
      assert multiset(a[1..]) == multiset(b[1..]);
      assert Ascending(a[1..], less) && Ascending(b[1..], less);
      AscendingUnique(a[1..], b[1..], less);
      assert a == [a[0]] + a[1..] && b == [b[0]] + b[1..];
    }
  }

  lemma StrLessIsOrder()
    ensures IsStrictTotalOrder(Text.StrLess)
  {
    forall a: string ensures !Text.StrLess(a, a) {
      Text.StrLessIrreflexive(a);
    }
    forall a: string, b: string, c: string | Text.StrLess(a, b) && Text.StrLess(b, c)
      ensures Text.StrLess(a, c)
    {
      Text.StrLessTransitive(a, b, c);
    }
    forall a: string, b: string ensures a == b || Text.StrLess(a, b) || Text.StrLess(b, a) {
      Text.StrLessTotal(a, b);
    }
  }
}
