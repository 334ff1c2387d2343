/** ociunify/lister.go: the listings of two registries as one. */
module Merged {
  import opened Bytes
  import opened Ordering
  import opened Listing

  /** Concatenated, sorted and compacted. */
  function MergedItems(xs: seq<string>, ys: seq<string>): (zs: seq<string>)
    ensures Increasing(zs, Less)
    ensures forall t :: t in zs <==> t in xs || t in ys
  {
    LessIsStrictTotal();
    SortDistinct(xs + ys, Less)
  }

  function Collected(l: List): seq<string> {
    if l.err.None? then l.items else []
  }

  predicate Counts(err: Option<Error>) {
    err.Some? && err.value != NameUnknown
  }

  /** The items of both registries, then the first error that counts: a registry
      that does not know the repository is empty unless neither knows it. */
  function Merge(it0: List, it1: List): List {
    if it0.err == Some(NameUnknown) && it1.err == Some(NameUnknown) then List([], Some(NameUnknown))
    else
      List(MergedItems(Collected(it0), Collected(it1)),
           if Counts(it0.err) then it0.err else if Counts(it1.err) then it1.err else None)
  }

  /** merged has the tags of the listings that did not fail, in order and once
      each; it does not know the repository exactly when neither listing does, and
      otherwise has the first of the other errors. */
  ghost predicate IsMergeOf(it0: List, it1: List, merged: List) {
    && (merged.err == Some(NameUnknown) <==> it0.err == Some(NameUnknown) && it1.err == Some(NameUnknown))
    && (merged.err == Some(NameUnknown) ==> merged.items == [])
    && (merged.err != Some(NameUnknown) ==>
          merged.err == if it0.err.Some? && it0.err != Some(NameUnknown) then it0.err
                        else if it1.err != Some(NameUnknown) then it1.err else None)
    && Increasing(merged.items, Less)
    && forall t :: t in merged.items <==> (it0.err.None? && t in it0.items) || (it1.err.None? && t in it1.items)
  }

  lemma MergeIsExact(it0: List, it1: List)
    ensures IsMergeOf(it0, it1, Merge(it0, it1))
  {
    assert forall t :: t in MergedItems(Collected(it0), Collected(it1)) <==>
                       t in Collected(it0) || t in Collected(it1);
  }

  /** mergeIter */
  method MergeIter(it0: List, it1: List) returns (merged: List)
    ensures merged == Merge(it0, it1)
    ensures IsMergeOf(it0, it1, merged)
  {
    MergeIsExact(it0, it1);
    var xs0, err0 := All(it0);
    var xs1, err1 := All(it1);
    if err0.Some? || err1.Some? {
      var notFound0 := err0 == Some(NameUnknown);
      var notFound1 := err1 == Some(NameUnknown);
      if notFound0 && notFound1 {
        return List([], err0);
      }
      if notFound0 { err0 := None; }
      if notFound1 { err1 := None; }
    }
    var xs := [];
    if |xs0| + |xs1| > 0 {
      LessIsStrictTotal();
      xs := SortDistinct(xs0 + xs1, Less);
    }
    var err := err0;
    if err.None? { err := err1; }
    merged := List(xs, err);
  }

  /** Tags of the unified registry: each backend is asked for the limit, and so is
      the merged listing. */
  method Tags(it0: List, it1: List, limit: int) returns (tags: List)
    ensures tags == if limit > 0 then Limited(Merge(it0, it1), limit) else Merge(it0, it1)
  {
    var it := MergeIter(it0, it1);
    if limit > 0 {
      var items, err := LimitIter(it, limit);
      return List(items, err);
    }
    tags := it;
  }

  // Limiting before merging.

  /** The position of a member is no earlier in a larger listing. */
  lemma {:induction false} Later(xs: seq<string>, us: seq<string>, j: nat, k: nat)
    requires Increasing(xs, Less) && Increasing(us, Less)
    requires forall t :: t in xs ==> t in us
    requires j < |xs| && k < |us| && xs[j] == us[k]
    ensures j <= k
    decreases j
  {
    if j > 0 {
      assert xs[j - 1] in us;
      var i :| 0 <= i < |us| && us[i] == xs[j - 1];
      LessIsStrictTotal();
      assert i < k;
      Later(xs, us, j - 1, i);
    }
  }

  function First(s: seq<string>, n: nat): seq<string> {
    if |s| < n then s else s[..n]
  }

  /** The first n of the union come from the first n of each part. */
  lemma FirstOfUnion(xs: seq<string>, ys: seq<string>, n: nat, k: nat)
    requires Increasing(xs, Less) && Increasing(ys, Less)
    requires k < n && k < |MergedItems(xs, ys)|
    ensures MergedItems(xs, ys)[k] in MergedItems(First(xs, n), First(ys, n))
  {
    var us := MergedItems(xs, ys);
    assert us[k] in us;
    if us[k] in xs {
      var j :| 0 <= j < |xs| && xs[j] == us[k];
      Later(xs, us, j, k);
      assert First(xs, n)[j] == us[k];
    } else {
      var j :| 0 <= j < |ys| && ys[j] == us[k];
      Later(ys, us, j, k);
      assert First(ys, n)[j] == us[k];
    }
  }

  /** A listing between a prefix of us and us has that prefix. */
  lemma {:induction false} PrefixStays(us: seq<string>, vs: seq<string>, n: nat)
    requires Increasing(us, Less) && Increasing(vs, Less) && n <= |us|
    requires forall t :: t in vs ==> t in us
    requires forall k :: 0 <= k < n ==> us[k] in vs
    ensures n <= |vs| && us[..n] == vs[..n]
    decreases n
  {
    if n > 0 {
      PrefixStays(us, vs, n - 1);
      var i :| 0 <= i < |vs| && vs[i] == us[n - 1];
      LessIsStrictTotal();
      forall j | 0 <= j < n - 1 ensures vs[j] == us[j] {
        assert us[..n - 1][j] == vs[..n - 1][j];
      }
      assert i >= n - 1;
      Later(vs, us, i, n - 1);
      assert us[..n] == us[..n - 1] + [us[n - 1]] && vs[..n] == vs[..n - 1] + [vs[n - 1]];
    }
  }

  function IndexOf(s: seq<string>, t: string): (i: nat)
    requires t in s
    ensures i < |s| && s[i] == t
  {
    if s[0] == t then 0 else 1 + IndexOf(s[1..], t)
  }

  /** Limiting each listing to n, merging and limiting again gives the first n of
      the merged full listings. */
  lemma LimitThenMerge(xs: seq<string>, ys: seq<string>, n: nat)
    requires Increasing(xs, Less) && Increasing(ys, Less) && n > 0
    ensures First(MergedItems(First(xs, n), First(ys, n)), n) == First(MergedItems(xs, ys), n)
  {
    var us, vs := MergedItems(xs, ys), MergedItems(First(xs, n), First(ys, n));
    var m := if n <= |us| then n else |us|;
    assert forall t :: t in vs ==> t in us;
    forall k | 0 <= k < m ensures us[k] in vs {
      FirstOfUnion(xs, ys, n, k);
    }
    PrefixStays(us, vs, m);
    if m < n {
      LessIsStrictTotal();
      forall t ensures t in us ==> t in vs {
        if t in us { assert us[IndexOf(us, t)] in vs; }
      }
      IncreasingIsUnique(us, vs, Less);
    }
  }

  /** Two registries that list tags themselves, either of which may not know the
      repository: the limited unified listing is the first n of the union. */
  lemma UnifiedTags(repo0: Option<seq<string>>, repo1: Option<seq<string>>, startAfter: string, n: nat)
    requires n > 0 && (repo0.Some? || repo1.Some?)
    ensures var order := (if repo0.Some? then repo0.value else []) + (if repo1.Some? then repo1.value else []);
            Limited(Merge(Listing.Tags(repo0, startAfter, n), Listing.Tags(repo1, startAfter, n)), n)
              == List(First(KeysAfter(order, startAfter), n), None)
  {
    var order0 := if repo0.Some? then repo0.value else [];
    var order1 := if repo1.Some? then repo1.value else [];
    var xs, ys := KeysAfter(order0, startAfter), KeysAfter(order1, startAfter);
    LimitThenMerge(xs, ys, n);
    LessIsStrictTotal();
    IncreasingIsUnique(MergedItems(xs, ys), KeysAfter(order0 + order1, startAfter), Less);
    assert First(xs, n) == Collected(Listing.Tags(repo0, startAfter, n));
    assert First(ys, n) == Collected(Listing.Tags(repo1, startAfter, n));
  }

  /** A limit hides the registries' failures exactly when there are enough tags
      without those of a registry that failed. */
  lemma FailureHiddenExactly(it0: List, it1: List, n: nat)
    requires n > 0 && (Counts(it0.err) || Counts(it1.err))
    ensures Merge(it0, it1).err.Some?
    ensures Limited(Merge(it0, it1), n).err.None? <==> |MergedItems(Collected(it0), Collected(it1))| >= n
  {
  }
}
