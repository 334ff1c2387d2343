/** Byte-wise string order (Go's strings.Compare) and what strictly increasing
    sequences over a strict total order have in common. */
module Ordering {

  /** strings.Compare: -1, 0 or 1 as a is before, equal to or after b. */
  function Compare(a: string, b: string): (c: int)
    ensures c == -1 || c == 0 || c == 1
    ensures c == 0 <==> a == b
    decreases |a|
  {
    if a == [] then (if b == [] then 0 else -1)
    else if b == [] then 1
    else if a[0] < b[0] then -1
    else if a[0] > b[0] then 1
    else
      assert a == [a[0]] + a[1..] && b == [b[0]] + b[1..];
      Compare(a[1..], b[1..])
  }

  predicate Less(a: string, b: string) {
    Compare(a, b) == -1
  }

  lemma {:induction false} CompareFlips(a: string, b: string)
    ensures Compare(a, b) == -Compare(b, a)
    decreases |a|
  {
    if a != [] && b != [] && a[0] == b[0] {
      CompareFlips(a[1..], b[1..]);
    }
  }

  lemma {:induction false} LessTransitive(a: string, b: string, c: string)
    requires Less(a, b) && Less(b, c)
    ensures Less(a, c)
    decreases |a|
  {
    if a != [] && b != [] && c != [] && a[0] == b[0] == c[0] {
      LessTransitive(a[1..], b[1..], c[1..]);
    }
  }

  ghost predicate StrictTotalOrder<T(!new)>(lt: (T, T) -> bool) {
    && (forall x :: !lt(x, x))
    && (forall x, y :: x != y ==> lt(x, y) || lt(y, x))
    && (forall x, y, z :: lt(x, y) && lt(y, z) ==> lt(x, z))
  }

  /** strings.Compare orders all strings. */
  lemma LessIsStrictTotal()
    ensures StrictTotalOrder(Less)
  {
    forall x: string, y: string | x != y ensures Less(x, y) || Less(y, x) {
      CompareFlips(x, y);
    }
    forall x: string, y: string, z: string | Less(x, y) && Less(y, z) ensures Less(x, z) {
      LessTransitive(x, y, z);
    }
  }

  ghost predicate Increasing<T(!new)>(s: seq<T>, lt: (T, T) -> bool) {
    forall i, j :: 0 <= i < j < |s| ==> lt(s[i], s[j])
  }

  lemma TailMembers<T(!new)>(s: seq<T>, lt: (T, T) -> bool)
    requires StrictTotalOrder(lt) && Increasing(s, lt) && s != []
    ensures forall x :: x in s[1..] <==> x in s && x != s[0]
    ensures forall x :: x in s[1..] ==> lt(s[0], x)
  {
    assert s == [s[0]] + s[1..];
    assert forall i :: 0 <= i < |s[1..]| ==> s[1..][i] == s[i + 1];
  }

  lemma InitIncreases<T(!new)>(s: seq<T>, lt: (T, T) -> bool)
    requires Increasing(s, lt) && s != []
    ensures Increasing(s[..|s| - 1], lt)
    ensures forall x {:trigger x in s[..|s| - 1]} :: x in s[..|s| - 1] ==> lt(x, s[|s| - 1])
  {
  }

  /** Two strictly increasing sequences with the same members are equal. */
  lemma {:induction false} IncreasingIsUnique<T(!new)>(s: seq<T>, t: seq<T>, lt: (T, T) -> bool)
    requires StrictTotalOrder(lt)
    requires Increasing(s, lt) && Increasing(t, lt)
    requires forall x :: x in s <==> x in t
    ensures s == t
    decreases |s|
  {
    assert t != [] ==> t[0] in t;
    if s == [] {
    } else {
      assert s[0] in s;
      var i :| 0 <= i < |t| && t[i] == s[0];
      assert t[0] in t;
      var j :| 0 <= j < |s| && s[j] == t[0];
      assert s[0] == t[0];
      TailMembers(s, lt);
      TailMembers(t, lt);
      IncreasingIsUnique(s[1..], t[1..], lt);
      assert s == [s[0]] + s[1..] && t == [t[0]] + t[1..];
    }
  }

  lemma IncreasingConcat<T(!new)>(s: seq<T>, t: seq<T>, lt: (T, T) -> bool)
    requires Increasing(s, lt) && Increasing(t, lt)
    requires forall x, y :: x in s && y in t ==> lt(x, y)
    ensures Increasing(s + t, lt)
  {
    var u := s + t;
    forall i, j | 0 <= i < j < |u| ensures lt(u[i], u[j]) {
      if i < |s| <= j {
        assert u[i] in s && u[j] in t;
      }
    }
  }

  lemma IncreasingHasNoDuplicates<T(!new)>(s: seq<T>, lt: (T, T) -> bool)
    requires StrictTotalOrder(lt) && Increasing(s, lt)
    ensures |set x | x in s| == |s|
  {
    if s == [] {
      assert (set x | x in s) == {};
    } else {
      var p, last := s[..|s| - 1], s[|s| - 1];
      IncreasingHasNoDuplicates(p, lt);
      assert s == p + [last];
      assert last !in p;
      assert (set x | x in s) == (set x | x in p) + {last};
    }
  }

  lemma {:induction false} SubsetIsNoLarger<T>(a: set<T>, b: set<T>)
    requires a <= b
    ensures |a| <= |b|
    decreases a
  {
    if a != {} {
      var x :| x in a;
      SubsetIsNoLarger(a - {x}, b - {x});
    }
  }

  /** slices.Sort followed by slices.Compact: the distinct members, in order.
      Modelled by insertion; the library's own algorithm is not. */
  function InsertDistinct<T(==, !new)>(x: T, s: seq<T>, lt: (T, T) -> bool): (r: seq<T>)
    requires StrictTotalOrder(lt) && Increasing(s, lt)
    ensures Increasing(r, lt)
    ensures forall y :: y in r <==> y == x || y in s
  {
    if s == [] then [x]
    else if lt(x, s[0]) then [x] + s
    else if x == s[0] then s
    else
      var r := InsertDistinct(x, s[1..], lt);
      assert s == [s[0]] + s[1..];
      assert forall y :: y in r ==> lt(s[0], y) by {
        TailMembers(s, lt);
      }
      [s[0]] + r
  }

  function SortDistinct<T(==, !new)>(s: seq<T>, lt: (T, T) -> bool): (r: seq<T>)
    requires StrictTotalOrder(lt)
    ensures Increasing(r, lt)
    ensures forall y :: y in r <==> y in s
  {
    if s == [] then [] else InsertDistinct(s[0], SortDistinct(s[1..], lt), lt)
  }

  /** Sorting what is already strictly increasing changes nothing. */
  lemma SortDistinctOfIncreasing<T(!new)>(s: seq<T>, lt: (T, T) -> bool)
    requires StrictTotalOrder(lt) && Increasing(s, lt)
    ensures SortDistinct(s, lt) == s
  {
    IncreasingIsUnique(SortDistinct(s, lt), s, lt);
  }
}
