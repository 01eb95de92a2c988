/** Orders used to sort the keys of the tables and the country catalogue,
    and the "sorted list of distinct values" that Python's `sorted(set(...))`
    and the pandas pivot produce. */
module Ordering {

  /** `lt` is irreflexive, transitive and relates any two distinct values. */
  ghost predicate StrictTotalOrder<T(!new)>(lt: (T, T) -> bool) {
    && (forall x :: !lt(x, x))
    && (forall x, y, z :: lt(x, y) && lt(y, z) ==> lt(x, z))
    && (forall x, y :: x != y ==> lt(x, y) || lt(y, x))
  }

  predicate StrictlySorted<T>(lt: (T, T) -> bool, s: seq<T>) {
    forall i, j :: 0 <= i < j < |s| ==> lt(s[i], s[j])
  }

  predicate Distinct<T(==)>(s: seq<T>) {
    forall i, j :: 0 <= i < j < |s| ==> s[i] != s[j]
  }

  /** Python compares `str` values by code point, first difference decides,
      and a proper prefix comes first. */
  predicate StrLess(a: string, b: string) {
    if |a| == 0 then |b| > 0
    else if |b| == 0 then false
    else if a[0] != b[0] then a[0] < b[0]
    else StrLess(a[1..], b[1..])
  }

  predicate IntLess(a: int, b: int) {
    a < b
  }

  lemma {:induction false} StrLessIrreflexive(a: string)
    ensures !StrLess(a, a)
  {
    if |a| > 0 {
      StrLessIrreflexive(a[1..]);
    }
  }

  lemma {:induction false} StrLessTransitive(a: string, b: string, c: string)
    requires StrLess(a, b) && StrLess(b, c)
    ensures StrLess(a, c)
  {
    if |a| > 0 && |b| > 0 && |c| > 0 && a[0] == b[0] && b[0] == c[0] {
      StrLessTransitive(a[1..], b[1..], c[1..]);
    }
  }

  lemma {:induction false} StrLessTotal(a: string, b: string)
    requires a != b
    ensures StrLess(a, b) || StrLess(b, a)
  {
    if |a| > 0 && |b| > 0 && a[0] == b[0] {
      assert a == [a[0]] + a[1..] && b == [b[0]] + b[1..];
      StrLessTotal(a[1..], b[1..]);
    }
  }

  lemma StrLessIsStrictTotalOrder()
    ensures StrictTotalOrder(StrLess)
  {
    forall a: string ensures !StrLess(a, a) {
      StrLessIrreflexive(a);
    }
    forall a: string, b: string, c: string | StrLess(a, b) && StrLess(b, c)
      ensures StrLess(a, c)
    {
      StrLessTransitive(a, b, c);
    }
    forall a: string, b: string | a != b ensures StrLess(a, b) || StrLess(b, a) {
      StrLessTotal(a, b);
    }
  }

  lemma IntLessIsStrictTotalOrder()
    ensures StrictTotalOrder(IntLess)
  {
  }

  lemma {:induction false} SortedIsDistinct<T(!new)>(lt: (T, T) -> bool, s: seq<T>)
    requires StrictTotalOrder(lt) && StrictlySorted(lt, s)
    ensures Distinct(s)
  {
    forall i, j | 0 <= i < j < |s| ensures s[i] != s[j] {
      assert lt(s[i], s[j]);
    }
  }

  /** Adds `x` to a strictly sorted sequence, keeping it strictly sorted. */
  function Insert<T(==,!new)>(lt: (T, T) -> bool, x: T, s: seq<T>): (r: seq<T>)
    requires StrictTotalOrder(lt) && StrictlySorted(lt, s)
    ensures StrictlySorted(lt, r)
    ensures forall y :: y in r <==> y == x || y in s
  {
    if s == [] then [x]
    else if x == s[0] then s
    else if lt(x, s[0]) then [x] + s
    else
      var rest := Insert(lt, x, s[1..]);
      assert forall y :: y in rest ==> lt(s[0], y);
      [s[0]] + rest
  }

  /** The distinct values of `xs` in ascending order. */
  function SortedUnique<T(==,!new)>(lt: (T, T) -> bool, xs: seq<T>): (r: seq<T>)
    requires StrictTotalOrder(lt)
    ensures StrictlySorted(lt, r)
    ensures forall y :: y in r <==> y in xs
  {
    if xs == [] then []
    else Insert(lt, xs[|xs| - 1], SortedUnique(lt, xs[..|xs| - 1]))
  }

  lemma HeadIsLeast<T(!new)>(lt: (T, T) -> bool, s: seq<T>, y: T)
    requires StrictTotalOrder(lt) && StrictlySorted(lt, s)
    requires y in s && y != s[0]
    ensures lt(s[0], y)
  {
    var k :| 0 <= k < |s| && s[k] == y;
  }

  lemma TailMembers<T(!new)>(lt: (T, T) -> bool, s: seq<T>, y: T)
    requires StrictTotalOrder(lt) && StrictlySorted(lt, s) && s != []
    ensures y in s[1..] <==> y in s && y != s[0]
  {
    if y in s[1..] {
      var k :| 1 <= k < |s| && s[k] == y;
      assert lt(s[0], s[k]);
    }
    if y in s && y != s[0] {
      var k :| 0 <= k < |s| && s[k] == y;
      assert s[1..][k - 1] == y;
    }
  }

  /** There is only one strictly sorted arrangement of a given set of values:
      the sorted catalogue depends on which values occur, not on their order
      or multiplicity in the input. */
  lemma {:induction false} SortedArrangementIsUnique<T(!new)>(lt: (T, T) -> bool, a: seq<T>, b: seq<T>)
    requires StrictTotalOrder(lt)
    requires StrictlySorted(lt, a) && StrictlySorted(lt, b)
    requires forall y :: y in a <==> y in b
    ensures a == b
  {
    assert a == [] <==> b == [] by {
      if a != [] {
        assert a[0] in b;
      }
      if b != [] {
        assert b[0] in a;
      }
    }
    if a != [] && b != [] {
      assert a[0] == b[0] by {
        if a[0] != b[0] {
          HeadIsLeast(lt, a, b[0]);
          HeadIsLeast(lt, b, a[0]);
        }
      }
      forall y ensures y in a[1..] <==> y in b[1..] {
        if y in a[1..] {
          TailMembers(lt, a, y);
          TailMembers(lt, b, y);
        }
        if y in b[1..] {
          TailMembers(lt, b, y);
          TailMembers(lt, a, y);
        }
      }
      assert StrictlySorted(lt, a[1..]) && StrictlySorted(lt, b[1..]);
      SortedArrangementIsUnique(lt, a[1..], b[1..]);
      assert a[1..] == b[1..];
      assert a == [a[0]] + a[1..] && b == [b[0]] + b[1..];
    }
  }
}
