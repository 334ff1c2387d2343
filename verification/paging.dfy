/** ociclient/lister.go: a listing fetched page by page from a server, while what
    there is to list comes and goes. */
module Paging {
  import opened Bytes
  import opened Ordering
  import opened Listing

  /** The n query parameter, once strconv.Atoi has seen it. */
  datatype Count = Absent | Number(value: int) | Garbled

  /** The last and n query parameters; no last is the empty one. */
  datatype Request = Request(last: string, n: Count)

  datatype Reply = Page(tags: seq<string>, link: Option<Request>) | Refused(error: Error)

  /** The tags of the repository when a page is served, in the order in which the
      map is visited; None when there is no such repository. */
  type Snapshot = Option<seq<string>>

  /** Whatever answers the requests. */
  type Server = (Snapshot, Request) -> Reply

  /** listQuery: a negative limit is not sent. */
  function Query(limit: int, last: string): Request {
    Request(last, if limit >= 0 then Number(limit) else Absent)
  }

  /** nextLink: the server's link, or else the first request from the last item on. */
  function NextLink(link: Option<Request>, limit: int, last: string): Request {
    if link.Some? then link.value else Query(limit, last)
  }

  /** Waiting: the pages so far did not end the listing. */
  datatype Status = Ended | Failed(error: Error) | Waiting

  datatype Pages = Pages(items: seq<string>, status: Status)

  predicate LastPage(items: seq<string>, limit: int) {
    |items| == 0 || (limit > 0 && |items| < limit)
  }

  function Next(reply: Reply, limit: int): Request
    requires reply.Page? && reply.tags != []
  {
    NextLink(reply.link, limit, reply.tags[|reply.tags| - 1])
  }

  /** Pages after those that yielded the items before. */
  function Preceded(before: seq<string>, rest: Pages): Pages {
    Pages(before + rest.items, rest.status)
  }

  /** What the pager yields when page i is served from snapshots[i]. */
  function Paged(serve: Server, snapshots: seq<Snapshot>, req: Request, limit: int): Pages
    decreases |snapshots|
  {
    if snapshots == [] then Pages([], Waiting)
    else
      var reply := serve(snapshots[0], req);
      if reply.Refused? then Pages([], Failed(reply.error))
      else if LastPage(reply.tags, limit) then Pages(reply.tags, Ended)
      else Preceded(reply.tags, Paged(serve, snapshots[1..], Next(reply, limit), limit))
  }

  lemma PrecededTwice(a: seq<string>, b: seq<string>, rest: Pages)
    ensures Preceded(a, Preceded(b, rest)) == Preceded(a + b, rest)
  {
    assert a + (b + rest.items) == a + b + rest.items;
  }

  /** pager */
  method Pager(serve: Server, snapshots: seq<Snapshot>, startAfter: string, limit: int)
    returns (yielded: seq<string>, status: Status)
    ensures Pages(yielded, status) == Paged(serve, snapshots, Query(limit, startAfter), limit)
  {
    yielded := [];
    var req := Query(limit, startAfter);
    var page := 0;
    ghost var all := Paged(serve, snapshots, req, limit);
    assert snapshots[0..] == snapshots && [] + all.items == all.items;
    while page < |snapshots|
      invariant page <= |snapshots|
      invariant all == Preceded(yielded, Paged(serve, snapshots[page..], req, limit))
    {
      assert snapshots[page..][0] == snapshots[page] && snapshots[page..][1..] == snapshots[page + 1..];
      var reply := serve(snapshots[page], req);
      if reply.Refused? {
        assert yielded + [] == yielded;
        return yielded, Failed(reply.error);
      }
      var items := reply.tags;
      ghost var before := yielded;
      yielded := yielded + items;
      if |items| == 0 || (limit > 0 && |items| < limit) {
        return yielded, Ended;
      }
      req := NextLink(reply.link, limit, items[|items| - 1]);
      page := page + 1;
      PrecededTwice(before, items, Paged(serve, snapshots[page..], req, limit));
    }
    assert yielded + [] == yielded;
    status := Waiting;
  }

  // What the pager needs of a server.

  /** A page holds the first of the tags after last; one that ends the listing
      holds them all; and the next request starts after its last tag. */
  ghost predicate GoodPage(repo: seq<string>, req: Request, limit: int, page: Reply)
    requires page.Page?
  {
    && Increasing(page.tags, Less)
    && (forall t :: t in page.tags ==> t in repo && Less(req.last, t))
    && if LastPage(page.tags, limit) then forall t :: t in repo && Less(req.last, t) ==> t in page.tags
       else
         var last := page.tags[|page.tags| - 1];
         && Next(page, limit) == Request(last, req.n)
         && forall t :: t in repo && Less(req.last, t) && t !in page.tags ==> Less(last, t)
  }

  /** Every page it serves is such a page. */
  ghost predicate GoodServer(serve: Server) {
    forall s: Snapshot, req: Request, limit: int :: req.n == Query(limit, "").n && serve(s, req).Page? ==>
      s.Some? && GoodPage(s.value, req, limit, serve(s, req))
  }

  lemma PagesJoin(first: seq<string>, rest: seq<string>, start: string)
    requires first != [] && Increasing(first, Less) && Increasing(rest, Less)
    requires Less(start, first[|first| - 1])
    requires forall t :: t in rest ==> Less(first[|first| - 1], t)
    ensures Increasing(first + rest, Less)
    ensures forall t :: t in rest ==> Less(start, t)
  {
    LessIsStrictTotal();
    forall x, y | x in first && y in rest ensures Less(x, y) {
      var i :| 0 <= i < |first| && first[i] == x;
      assert i < |first| - 1 ==> Less(x, first[|first| - 1]);
    }
    IncreasingConcat(first, rest, Less);
  }

  ghost predicate InSome(snapshots: seq<Snapshot>, t: string) {
    exists s :: s in snapshots && s.Some? && t in s.value
  }

  ghost predicate InAll(snapshots: seq<Snapshot>, t: string) {
    forall s :: s in snapshots ==> s.Some? && t in s.value
  }

  lemma TailSnapshots(snapshots: seq<Snapshot>)
    requires snapshots != []
    ensures snapshots[0] in snapshots && forall s :: s in snapshots[1..] ==> s in snapshots
    ensures forall t :: InSome(snapshots[1..], t) ==> InSome(snapshots, t)
    ensures forall t :: InAll(snapshots, t) ==> InAll(snapshots[1..], t)
  {
  }

  /** What is yielded is strictly increasing, comes after the starting point and
      was there when its page was served. */
  lemma {:induction false} PagingIncreases(serve: Server, snapshots: seq<Snapshot>, req: Request, limit: int)
    requires GoodServer(serve) && req.n == Query(limit, "").n
    ensures var items := Paged(serve, snapshots, req, limit).items;
            Increasing(items, Less) && forall t :: t in items ==> Less(req.last, t) && InSome(snapshots, t)
    decreases |snapshots|
  {
    if snapshots != [] && serve(snapshots[0], req).Page? {
      var page := serve(snapshots[0], req);
      TailSnapshots(snapshots);
      assert GoodPage(snapshots[0].value, req, limit, page);
      if !LastPage(page.tags, limit) {
        var next := Next(page, limit);
        assert next.last in page.tags;
        PagingIncreases(serve, snapshots[1..], next, limit);
        PagesJoin(page.tags, Paged(serve, snapshots[1..], next, limit).items, req.last);
      }
    }
  }

  /** Once the listing has ended, a tag that was there throughout was yielded. */
  lemma {:induction false} PagingIsComplete(serve: Server, snapshots: seq<Snapshot>, req: Request, limit: int,
                                            t: string)
    requires GoodServer(serve) && req.n == Query(limit, "").n
    requires Paged(serve, snapshots, req, limit).status.Ended? && Less(req.last, t) && InAll(snapshots, t)
    ensures t in Paged(serve, snapshots, req, limit).items
    decreases |snapshots|
  {
    var page := serve(snapshots[0], req);
    TailSnapshots(snapshots);
    assert GoodPage(snapshots[0].value, req, limit, page);
    if !LastPage(page.tags, limit) && t !in page.tags {
      PagingIsComplete(serve, snapshots[1..], Next(page, limit), limit, t);
    }
  }

  /** Whatever happens to the tags between pages: what is yielded is strictly
      increasing, comes after the starting point and was there when its page was
      served; and when the listing has ended, every tag after the starting point
      that was in all the snapshots has been yielded, once. */
  lemma PagingIsSound(serve: Server, snapshots: seq<Snapshot>, req: Request, limit: int)
    requires GoodServer(serve) && req.n == Query(limit, "").n
    ensures var pages := Paged(serve, snapshots, req, limit);
            && Increasing(pages.items, Less)
            && (forall t :: t in pages.items ==> Less(req.last, t) && InSome(snapshots, t))
            && (pages.status.Ended? ==> forall t :: Less(req.last, t) && InAll(snapshots, t) ==> t in pages.items)
  {
    PagingIncreases(serve, snapshots, req, limit);
    if Paged(serve, snapshots, req, limit).status.Ended? {
      forall t | Less(req.last, t) && InAll(snapshots, t) ensures t in Paged(serve, snapshots, req, limit).items {
        PagingIsComplete(serve, snapshots, req, limit, t);
      }
    }
  }

  function AfterSet(repo: seq<string>, last: string): set<string> {
    set t | t in repo && Less(last, t)
  }

  lemma FewerAfter(repo: seq<string>, start: string, last: string)
    requires Less(start, last) && last in repo
    ensures |AfterSet(repo, last)| < |AfterSet(repo, start)|
  {
    LessIsStrictTotal();
    assert AfterSet(repo, last) <= AfterSet(repo, start) - {last};
    SubsetIsNoLarger(AfterSet(repo, last), AfterSet(repo, start) - {last});
  }

  ghost predicate SameTags(s: seq<string>, repo: seq<string>) {
    forall t :: t in s <==> t in repo
  }

  /** Every page is served from the same tags, visited in any order. */
  ghost predicate Unchanged(snapshots: seq<Snapshot>, repo: seq<string>) {
    forall s :: s in snapshots ==> s.Some? && SameTags(s.value, repo)
  }

  /** The server refuses no request that starts at the beginning or after a tag
      of the repository. */
  ghost predicate Answers(serve: Server, repo: seq<string>, limit: int) {
    forall s: seq<string>, last ::
      SameTags(s, repo) && (last == "" || last in repo) ==> serve(Some(s), Query(limit, last)).Page?
  }

  /** Enough pages over an unchanging repository end the listing. */
  lemma {:induction false} UnchangedEnds(serve: Server, snapshots: seq<Snapshot>, repo: seq<string>, last: string,
                                         limit: int)
    requires GoodServer(serve) && Answers(serve, repo, limit) && Unchanged(snapshots, repo)
    requires snapshots != [] && serve(snapshots[0], Query(limit, last)).Page?
    requires |snapshots| > |AfterSet(repo, last)|
    ensures Paged(serve, snapshots, Query(limit, last), limit).status == Ended
    decreases |snapshots|
  {
    var page := serve(snapshots[0], Query(limit, last));
    TailSnapshots(snapshots);
    assert Query(limit, last).n == Query(limit, "").n;
    assert GoodPage(snapshots[0].value, Query(limit, last), limit, page);
    if !LastPage(page.tags, limit) {
      var next := Next(page, limit);
      assert next.last in page.tags && next == Query(limit, next.last);
      FewerAfter(repo, last, next.last);
      if |snapshots| > 1 { assert snapshots[1] in snapshots; }
      UnchangedEnds(serve, snapshots[1..], repo, next.last, limit);
    }
  }

  /** Yielding what was in some snapshot, and all that was in every one, is
      yielding the listing when the snapshots agree. */
  lemma AgreementIsListing(snapshots: seq<Snapshot>, repo: seq<string>, items: seq<string>, start: string)
    requires snapshots != [] && Unchanged(snapshots, repo) && Increasing(items, Less)
    requires forall t :: t in items ==> Less(start, t) && InSome(snapshots, t)
    requires forall t :: Less(start, t) && InAll(snapshots, t) ==> t in items
    ensures items == KeysAfter(repo, start)
  {
    LessIsStrictTotal();
    forall t ensures InSome(snapshots, t) <==> t in repo {
      assert snapshots[0] in snapshots;
    }
    forall t ensures InAll(snapshots, t) <==> t in repo {
      assert snapshots[0] in snapshots;
    }
    IncreasingIsUnique(items, KeysAfter(repo, start), Less);
  }

  /** With no changes, paging ends and yields the full sorted list, whatever the
      page size. */
  lemma UnchangedListing(serve: Server, snapshots: seq<Snapshot>, repo: seq<string>, startAfter: string, limit: int)
    requires GoodServer(serve) && Answers(serve, repo, limit) && Unchanged(snapshots, repo)
    requires |snapshots| > |AfterSet(repo, startAfter)|
    requires serve(snapshots[0], Query(limit, startAfter)).Page?
    ensures Paged(serve, snapshots, Query(limit, startAfter), limit) == Pages(KeysAfter(repo, startAfter), Ended)
  {
    var req := Query(limit, startAfter);
    UnchangedEnds(serve, snapshots, repo, startAfter, limit);
    PagingIsSound(serve, snapshots, req, limit);
    AgreementIsListing(snapshots, repo, Paged(serve, snapshots, req, limit).items, startAfter);
  }
}
