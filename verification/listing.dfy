/** iter.go and ocimem/lister.go: sorted listings, whole and limited. An iterator
    is the items it yields, then possibly an error. */
module Listing {
  import opened Bytes
  import opened Ordering

  datatype Error = NameUnknown | BadRequest | OtherError

  datatype List = List(items: seq<string>, err: Option<Error>)

  /** What LimitIter(l, limit) yields: an error after the last item allowed is
      never reached. */
  function Limited(l: List, limit: int): List {
    if limit <= 0 || |l.items| < limit then l else List(l.items[..limit], None)
  }

  /** LimitIter */
  method LimitIter(l: List, limit: int) returns (yielded: seq<string>, err: Option<Error>)
    ensures List(yielded, err) == Limited(l, limit)
  {
    if limit <= 0 { return l.items, l.err; }
    yielded := [];
    var n := 0;
    for i := 0 to |l.items|
      invariant n == i < limit && yielded == l.items[..i]
    {
      yielded := yielded + [l.items[i]];
      n := n + 1;
      if n >= limit {
        return yielded, None;
      }
    }
    err := l.err;
  }

  /** All: the items, or none of them and the error. */
  method All(l: List) returns (xs: seq<string>, err: Option<Error>)
    ensures err == l.err
    ensures xs == if l.err.None? then l.items else []
  {
    xs := [];
    for i := 0 to |l.items|
      invariant xs == l.items[..i]
    {
      xs := xs + [l.items[i]];
    }
    if l.err.Some? { return [], l.err; }
    err := None;
  }

  /** The members of order that come after last, sorted. A map's keys are
      visited once each, in any order. */
  function KeysAfter(order: seq<string>, last: string): (keys: seq<string>)
    ensures Increasing(keys, Less)
    ensures forall t :: t in keys <==> t in order && Less(last, t)
  {
    LessIsStrictTotal();
    SortDistinct(After(order, last), Less)
  }

  function After(order: seq<string>, last: string): (keys: seq<string>)
    ensures forall t :: t in keys <==> t in order && Less(last, t)
  {
    if order == [] then []
    else
      var i := |order| - 1;
      assert order == order[..i] + [order[i]];
      After(order[..i], last) + if Compare(last, order[i]) < 0 then [order[i]] else []
  }

  /** The listing does not depend on the order in which the map was visited. */
  lemma OrderDoesNotMatter(order: seq<string>, order': seq<string>, last: string)
    requires forall t :: t in order <==> t in order'
    ensures KeysAfter(order, last) == KeysAfter(order', last)
  {
    LessIsStrictTotal();
    IncreasingIsUnique(KeysAfter(order, last), KeysAfter(order', last), Less);
  }

  /** mapKeysIter, up to the sort. */
  method MapKeysIter(order: seq<string>, startAfter: string) returns (keys: seq<string>)
    ensures keys == KeysAfter(order, startAfter)
  {
    LessIsStrictTotal();
    var ks := [];
    for i := 0 to |order|
      invariant ks == After(order[..i], startAfter)
    {
      var k := order[i];
      assert order[..i + 1][..i] == order[..i];
      if Compare(startAfter, k) < 0 {
        ks := ks + [k];
      }
    }
    assert order[..|order|] == order;
    keys := SortDistinct(ks, Less);
  }

  /** ocimem's Tags, for a repository whose tags are visited in the given order. */
  function Tags(repo: Option<seq<string>>, startAfter: string, limit: int): List {
    match repo
    case None => List([], Some(NameUnknown))
    case Some(order) => Limited(List(KeysAfter(order, startAfter), None), limit)
  }
}
