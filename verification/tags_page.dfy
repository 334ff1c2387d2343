/** ociserver/tags.go: one page of tags, and paging over it. */
module TagsPage {
  import opened Bytes
  import opened Ordering
  import opened Names
  import opened Listing
  import opened Paging

  const MAX_INT: int := 0x7FFF_FFFF_FFFF_FFFF

  /** limit + 1 in Go's int. */
  function OneMore(limit: nat): int {
    if limit == MAX_INT then -MAX_INT - 1 else limit + 1
  }

  predicate BadRequestFor(req: Request) {
    || (req.last != "" && !IsValidTag(req.last))
    || req.n.Garbled? || (req.n.Number? && req.n.value < 0)
  }

  /** The page cut out of the tags after last, for a limit of 0 or more. */
  function Cut(keys: seq<string>, limit: nat): Reply {
    if limit > 0 && |keys| > limit then Page(keys[..limit], Some(Request(keys[limit - 1], Number(limit))))
    else Page(keys, None)
  }

  /** tagsGet: one tag more than asked for is fetched, to know whether there is
      a next page. */
  function Serve(repo: Snapshot, req: Request): Reply {
    if BadRequestFor(req) then Refused(BadRequest)
    else
      var limit := if req.n.Number? then req.n.value else 0;
      var all := Tags(repo, req.last, if limit > 0 then OneMore(limit) else limit);
      if all.err.Some? then Refused(all.err.value) else Cut(all.items, limit)
  }

  /** tagsGet as the handler computes it. */
  method TagsGet(repo: Snapshot, req: Request) returns (reply: Reply)
    ensures reply == Serve(repo, req)
  {
    if req.last != "" && !IsValidTag(req.last) { return Refused(BadRequest); }
    var limit := 0;
    match req.n {
      case Absent =>
      case Garbled => return Refused(BadRequest);
      case Number(i) =>
        if i < 0 { return Refused(BadRequest); }
        limit := i;
    }
    var fetchLimit: int := limit;
    if limit > 0 { fetchLimit := OneMore(limit); }
    var tags, err := All(Tags(repo, req.last, fetchLimit));
    if err.Some? { return Refused(err.value); }
    var link := None;
    if limit > 0 && |tags| > limit {
      tags := tags[..limit];
      link := Some(Request(tags[|tags| - 1], Number(limit)));
    }
    reply := Page(tags, link);
  }

  /** Fetching one more and cutting is cutting the whole listing. */
  lemma ServeCutsTheListing(repo: Snapshot, req: Request)
    ensures Serve(repo, req) ==
            if BadRequestFor(req) then Refused(BadRequest)
            else if repo.None? then Refused(NameUnknown)
            else Cut(KeysAfter(repo.value, req.last), if req.n.Number? then req.n.value else 0)
  {
    if !BadRequestFor(req) && repo.Some? {
      var keys := KeysAfter(repo.value, req.last);
      var limit := if req.n.Number? then req.n.value else 0;
      if limit > 0 && |keys| > limit {
        assert keys[..limit + 1][..limit] == keys[..limit];
      }
    }
  }

  lemma CutIsGood(keys: seq<string>, repo: seq<string>, req: Request, limit: int)
    requires Increasing(keys, Less) && forall t :: t in keys <==> t in repo && Less(req.last, t)
    requires req.n == Query(limit, "").n
    ensures GoodPage(repo, req, limit, Cut(keys, if limit > 0 then limit else 0))
  {
    var page := Cut(keys, if limit > 0 then limit else 0);
    var m := |page.tags|;
    assert page.tags == keys[..m];
    assert forall t :: t in page.tags ==> t in keys;
    if m > 0 {
      forall t | t in keys && t !in page.tags ensures Less(page.tags[m - 1], t) {
        var j :| 0 <= j < |keys| && keys[j] == t;
        AfterPrefix(keys, m, j);
      }
    }
  }

  lemma AfterPrefix(keys: seq<string>, m: nat, j: nat)
    requires Increasing(keys, Less) && 0 < m <= |keys| && j < |keys| && keys[j] !in keys[..m]
    ensures Less(keys[m - 1], keys[j])
  {
  }

  lemma ServeIsGood()
    ensures GoodServer(Serve)
  {
    forall s: Snapshot, req: Request, limit: int | req.n == Query(limit, "").n && Serve(s, req).Page?
      ensures s.Some? && GoodPage(s.value, req, limit, Serve(s, req))
    {
      ServeCutsTheListing(s, req);
      CutIsGood(KeysAfter(s.value, req.last), s.value, req, limit);
    }
  }

  lemma ServeAnswers(repo: seq<string>, limit: int, last: string)
    requires last == "" || IsValidTag(last)
    ensures Serve(Some(repo), Query(limit, last)).Page?
  {
    ServeCutsTheListing(Some(repo), Query(limit, last));
  }

  /** Paging over this server, with tags added and removed between pages. */
  lemma TagPagingIsSound(snapshots: seq<Snapshot>, startAfter: string, limit: int)
    ensures var pages := Paged(Serve, snapshots, Query(limit, startAfter), limit);
            && Increasing(pages.items, Less)
            && (forall t :: t in pages.items ==> Less(startAfter, t) && InSome(snapshots, t))
            && (pages.status.Ended? ==> forall t :: Less(startAfter, t) && InAll(snapshots, t) ==> t in pages.items)
  {
    ServeIsGood();
    PagingIsSound(Serve, snapshots, Query(limit, startAfter), limit);
  }

  /** Paging over this server with no changes, where every tag is one that
      PushManifest accepts. */
  lemma TagPagingIsListing(snapshots: seq<Snapshot>, repo: seq<string>, startAfter: string, limit: int)
    requires Unchanged(snapshots, repo) && (forall t :: t in repo ==> IsValidTag(t))
    requires startAfter == "" || IsValidTag(startAfter)
    requires |snapshots| > |AfterSet(repo, startAfter)|
    ensures Paged(Serve, snapshots, Query(limit, startAfter), limit) == Pages(KeysAfter(repo, startAfter), Ended)
  {
    ServeIsGood();
    forall s: seq<string>, last | SameTags(s, repo) && (last == "" || last in repo)
      ensures Serve(Some(s), Query(limit, last)).Page?
    {
      ServeAnswers(s, limit, last);
    }
    assert snapshots[0] in snapshots;
    ServeAnswers(snapshots[0].value, limit, startAfter);
    UnchangedListing(Serve, snapshots, repo, startAfter, limit);
  }

  /** The listing fails as a bad request before anything is yielded exactly when
      the starting point is not a tag; as an unknown name exactly when it is one
      and there is no such repository. */
  lemma FirstPageRefused(snapshots: seq<Snapshot>, startAfter: string, limit: int)
    requires snapshots != []
    ensures var pages := Paged(Serve, snapshots, Query(limit, startAfter), limit);
            && (pages == Pages([], Failed(BadRequest)) <==> startAfter != "" && !IsValidTag(startAfter))
            && (pages == Pages([], Failed(NameUnknown)) <==>
                  (startAfter == "" || IsValidTag(startAfter)) && snapshots[0].None?)
  {
    ServeCutsTheListing(snapshots[0], Query(limit, startAfter));
  }
}
