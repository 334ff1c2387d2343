/** Exactly when the requests of a chunked upload succeed, and what a try that
    does not get through leaves behind. */
module UploadSuccess {
  import opened Bytes
  import opened Ranges
  import opened Upload
  import opened UploadRuns

  /** The request arrives with all of its body, and its reply gets back. */
  predicate ArrivesWhole(net: Net, length: nat) {
    net.arrives && net.bodyBytes >= length && net.replyArrives
  }

  /** The session with the body appended; its next write is unchecked. */
  function Grown(s: Server, body: Bytes): Server {
    s.(buf := s.buf + body, checkStartOffset := -1)
  }

  lemma ReceivedIsPrefix(s: Server, body: Bytes, got: nat)
    ensures var received := if got < |body| then body[..got] else body;
            && received <= body && |received| == Min(got, |body|)
            && |s.buf + received| == |s.buf| + Min(got, |body|)
  {
  }

  /** A PATCH with a body is accepted exactly when it starts where the upload
      ends and arrives whole, and then appends its body. */
  lemma {:induction false} PatchAccepts(s: Server, start: int, body: Bytes, got: nat)
    requires body != []
    ensures var (s1, status) := Patch(s, Request(start, start + |body|, body), got);
            && (status == Accepted <==> start == |s.buf| && got >= |body|)
            && (status == Accepted ==> s1 == Grown(s, body))
  {
    if start >= 0 {
      assert Seen(start, start + |body|) == Some((start, start + |body|, |body|));
    }
  }

  /** A PUT is created exactly when its body, if it has one, could be appended as
      by a PATCH, the session has not failed, and the digest is that of the whole
      upload, which is then stored. */
  lemma PutCreates(s: Server, hash: Bytes -> Digest, start: int, body: Bytes, digest: Digest, got: nat)
    ensures var (s1, status) := Put(s, hash, Request(start, start + |body|, body), digest, got);
            && (status == Created <==>
                  && (body == [] || (start == |s.buf| && got >= |body|))
                  && !s.failed && hash(s.buf + body) == digest)
            && (status == Created ==>
                  s1 == Grown(s, body).(committed := true, blobs := s.blobs[digest := s.buf + body]))
            && (status != Created ==> s1.blobs == s.blobs)
  {
    assert s.buf + [] == s.buf;
    if body != [] && start >= 0 {
      assert Seen(start, start + |body|) == Some((start, start + |body|, |body|));
    }
  }

  /** A flush succeeds exactly when there is nothing to do, or its request arrives
      whole, starts where the upload ends unless it is empty, and what it commits,
      if anything, is what the digest says. */
  lemma FlushSucceeds(c: Client, s: Server, hash: Bytes -> Digest, buf: Bytes, commit: Option<Digest>, net: Net)
    ensures var (c1, s1, ok) := Flush(c, s, hash, buf, commit, net);
            FlushIsExact(c, s, hash, c.chunk + buf, commit, net, c1, s1, ok)
  {
    var body := c.chunk + buf;
    if commit.Some? {
      PutCreates(s, hash, c.flushed, body, commit.value, net.bodyBytes);
    } else if body != [] {
      PatchAccepts(s, c.flushed, body, net.bodyBytes);
    }
  }

  ghost predicate FlushIsExact(c: Client, s: Server, hash: Bytes -> Digest, body: Bytes, commit: Option<Digest>,
                               net: Net, c1: Client, s1: Server, ok: bool)
  {
    if commit.None? && body == [] then ok && c1 == c && s1 == s
    else
      && (ok <==> && ArrivesWhole(net, |body|) && (body == [] || c.flushed == |s.buf|)
                  && (commit.Some? ==> !s.failed && hash(s.buf + body) == commit.value))
      && c1 == (if ok then c.(flushed := c.flushed + |body|, chunk := []) else c)
      && (ok ==> s1 == if commit.None? then Grown(s, body)
                       else Grown(s, body).(committed := true, blobs := s.blobs[commit.value := s.buf + body]))
      && (!net.arrives ==> s1 == s)
  }

  /** A write is held back while it fits into the chunk, and else flushed with it. */
  ghost predicate WriteIsExact(c: Client, s: Server, hash: Bytes -> Digest, buf: Bytes, net: Net, c1: Client,
                               s1: Server, ok: bool)
  {
    if |c.chunk| + |buf| <= c.chunkSize then
      ok && c1 == c.(chunk := c.chunk + buf, size := c.size + |buf|) && s1 == s
    else
      && c1.size == (if ok then c.size + |buf| else c.size)
      && FlushIsExact(c, s, hash, c.chunk + buf, None, net, c1.(size := c.size), s1, ok)
  }

  lemma WriteSucceeds(c: Client, s: Server, hash: Bytes -> Digest, buf: Bytes, net: Net)
    ensures var (c1, s1, ok) := Write(c, s, hash, buf, net);
            WriteIsExact(c, s, hash, buf, net, c1, s1, ok)
  {
    FlushSucceeds(c, s, hash, buf, None, net);
  }

  /** The first close flushes what was held back and keeps its outcome; any other
      only repeats it. */
  ghost predicate CloseIsExact(c: Client, s: Server, hash: Bytes -> Digest, net: Net, c1: Client, s1: Server,
                               ok: bool)
  {
    && c1.closed && ok == !c1.closeFailed
    && if c.closed then c1 == c && s1 == s
       else FlushIsExact(c, s, hash, c.chunk, None, net, c1.(closed := false, closeFailed := c.closeFailed), s1, ok)
  }

  lemma CloseSucceeds(c: Client, s: Server, hash: Bytes -> Digest, net: Net)
    ensures var (c1, s1, ok) := Close(c, s, hash, net);
            CloseIsExact(c, s, hash, net, c1, s1, ok)
  {
    assert c.chunk + [] == c.chunk;
    FlushSucceeds(c, s, hash, [], None, net);
  }

  lemma CommitSucceeds(c: Client, s: Server, hash: Bytes -> Digest, digest: Digest, net: Net)
    ensures var (c1, s1, ok) := Commit(c, s, hash, digest, net);
            FlushIsExact(c, s, hash, c.chunk, Some(digest), net, c1, s1, ok)
  {
    assert c.chunk + [] == c.chunk;
    FlushSucceeds(c, s, hash, [], Some(digest), net);
  }

  /** An upload of at least two bytes goes on where it was: the offset recovered
      is the server's, and the next flush that arrives whole is appended. */
  lemma {:induction false} RecoveredUploadGoesOn(c: Client, s: Server, hash: Bytes -> Digest, net: Net, buf: Bytes, next: Net)
    requires |s.buf| >= 2 && buf != [] && net.arrives && net.replyArrives && ArrivesWhole(next, |buf|)
    ensures var (c1, s1, ok) := Recover(c, s, net);
            && ok && c1.size == c1.flushed == |s.buf| && s1.buf == s.buf
            && var (_, s2, ok2) := Flush(c1, s1, hash, buf, None, next);
               ok2 && s2.buf == s.buf + buf
  {
    var (c1, s1, ok) := Recover(c, s, net);
    assert c1.chunk + buf == buf;
    FlushSucceeds(c1, s1, hash, buf, None, next);
  }

  // Retrying a chunk.

  /** Of the tries from the t-th on, three in all, the first that arrives does so
      whole. */
  predicate Delivered(tries: nat -> Net, t: nat, length: nat)
    decreases 3 - t
  {
    t < 3 && (ArrivesWhole(tries(t), length) || (!tries(t).arrives && Delivered(tries, t + 1, length)))
  }

  /** A chunk of n bytes needs no request, or its request is delivered. */
  predicate ChunkDelivered(tries: nat -> Net, pending: nat, n: nat, limit: int) {
    pending + n <= limit || Delivered(tries, 0, pending + n)
  }

  /** The network lets a whole upload through: `left` bytes in chunks, `pending`
      of them before held back by the writer, the first chunk being the k-th; net
      nets(k)(t) is the fate of the t-th try of the k-th chunk. */
  predicate UploadDelivered(nets: nat -> nat -> Net, k: nat, left: nat, pending: nat, chunkSize: nat, limit: int,
                            commitNet: Net)
    requires chunkSize > 0
    decreases left
  {
    if left == 0 then ArrivesWhole(commitNet, pending)
    else
      var n := Min(left, chunkSize);
      && ChunkDelivered(nets(k), pending, n, limit)
      && UploadDelivered(nets, k + 1, left - n, if pending + n > limit then 0 else pending + n, chunkSize, limit,
                         commitNet)
  }

  /** No chunk needs more than three tries: the fate of the first that arrives
      decides. */
  lemma {:induction false} FirstArrivalDecides(tries: nat -> Net, from: nat, t: nat, length: nat)
    requires from <= t < 3 && tries(t).arrives && forall u: nat :: from <= u < t ==> !tries(u).arrives
    ensures Delivered(tries, from, length) <==> ArrivesWhole(tries(t), length)
    decreases t - from
  {
    if from < t { FirstArrivalDecides(tries, from + 1, t, length); }
  }

  /** Up to two requests of each chunk are lost on the way, and the next one and
      the commit arrive whole. */
  ghost predicate TwoLostAtMost(nets: nat -> nat -> Net, length: nat, commitNet: Net) {
    ArrivesWhole(commitNet, length) && forall k: nat :: LostThenWhole(nets(k), length)
  }

  ghost predicate LostThenWhole(tries: nat -> Net, length: nat) {
    exists t: nat :: t < 3 && ArrivesWhole(tries(t), length) && forall u: nat :: u < t ==> !tries(u).arrives
  }

  lemma {:induction false} TwoLostIsDelivered(nets: nat -> nat -> Net, length: nat, k: nat, left: nat, pending: nat,
                                              chunkSize: nat, limit: int, commitNet: Net)
    requires TwoLostAtMost(nets, length, commitNet) && chunkSize > 0 && pending + left <= length
    ensures UploadDelivered(nets, k, left, pending, chunkSize, limit, commitNet)
    decreases left
  {
    if left > 0 {
      var n := Min(left, chunkSize);
      assert LostThenWhole(nets(k), length);
      var t: nat :| t < 3 && ArrivesWhole(nets(k)(t), length) && forall u: nat :: u < t ==> !nets(k)(u).arrives;
      FirstArrivalDecides(nets(k), 0, t, pending + n);
      TwoLostIsDelivered(nets, length, k + 1, left - n, if pending + n > limit then 0 else pending + n, chunkSize,
                         limit, commitNet);
    }
  }

  /** The session has failed, or holds bytes the writer was not told of. */
  predicate Spoiled(sys: System) {
    sys.s.failed || sys.c.flushed < |sys.s.buf|
  }

  /** The chunk after some tries: written, and the session has failed if it had
      before or if the chunk was not delivered; or not written, because every
      request was lost or because the upload is spoiled. */
  predicate TriesLeave(was: System, now: System, tries: nat -> Net, n: nat, attempt: nat, written: bool) {
    var delivered := ChunkDelivered(tries, |was.c.chunk|, n, was.c.chunkSize);
    if written then
      && now.s.failed == (was.s.failed || !delivered)
      && |now.c.chunk| == (if |was.c.chunk| + n > was.c.chunkSize then 0 else |was.c.chunk| + n)
      && now.c.chunkSize == was.c.chunkSize
    else
      && now.c == was.c && was.c.flushed <= |now.s.buf|
      && (if attempt == 0 then now == was
          else
            && |was.c.chunk| + n > was.c.chunkSize
            && ((now == was && delivered == Delivered(tries, attempt, |was.c.chunk| + n)) ||
                (Spoiled(now) && !delivered)))
  }

  /** What a flush that does not succeed leaves. */
  lemma FailedFlushSpoils(c: Client, s: Server, hash: Bytes -> Digest, buf: Bytes, net: Net)
    requires c.chunk + buf != [] && 0 <= c.flushed <= |s.buf|
    ensures var (c1, s1, ok) := Flush(c, s, hash, buf, None, net);
            && (s.failed ==> s1.failed) && |s.buf| <= |s1.buf|
            && (!ok && net.arrives ==> Spoiled(System(c1, s1)))
  {
    var body := c.chunk + buf;
    if net.arrives {
      ReceivedIsPrefix(s, body, net.bodyBytes);
      assert Seen(c.flushed, c.flushed + |body|) == Some((c.flushed, c.flushed + |body|, |body|));
    }
  }

  /** One more try of the chunk. */
  lemma {:induction false} OneMoreTry(stream: Bytes, hash: Bytes -> Digest, was: System, now: System, tries: nat -> Net, n: nat,
                   attempt: nat)
    requires Inv(stream, hash, was) && Inv(stream, hash, now) && Position(was.c) + n <= |stream|
    requires n > 0 && attempt < 3 && 0 <= was.c.flushed == |was.s.buf|
    requires TriesLeave(was, now, tries, n, attempt, false)
    ensures var (next, ok) := Step(stream, hash, now, WriteNext(n, tries(attempt)));
            TriesLeave(was, next, tries, n, attempt + 1, ok)
  {
    var p, net := Position(was.c), tries(attempt);
    if |was.c.chunk| + n > was.c.chunkSize {
      WriteFlushes(stream, hash, now, n, net);
      FlushTryLeaves(hash, was, now, tries, stream[p..p + n], attempt);
    } else {
      WriteBuffers(stream, hash, now, n, net);
    }
  }

  lemma FlushTryLeaves(hash: Bytes -> Digest, was: System, now: System, tries: nat -> Net, buf: Bytes, attempt: nat)
    requires buf != [] && attempt < 3 && 0 <= was.c.flushed == |was.s.buf|
    requires |was.c.chunk| + |buf| > was.c.chunkSize
    requires TriesLeave(was, now, tries, |buf|, attempt, false)
    ensures var (c1, s1, ok) := Flush(now.c, now.s, hash, buf, None, tries(attempt));
            TriesLeave(was, System(if ok then c1.(size := c1.size + |buf|) else c1, s1), tries, |buf|, attempt + 1, ok)
  {
    var (c1, s1, ok) := Flush(now.c, now.s, hash, buf, None, tries(attempt));
    FlushSucceeds(now.c, now.s, hash, buf, None, tries(attempt));
    FailedFlushSpoils(now.c, now.s, hash, buf, tries(attempt));
    FlushedTryLeaves(hash, was, now, tries, buf, attempt, c1, s1, ok);
  }

  lemma FlushedTryLeaves(hash: Bytes -> Digest, was: System, now: System, tries: nat -> Net, buf: Bytes, attempt: nat,
                         c1: Client, s1: Server, ok: bool)
    requires buf != [] && attempt < 3 && 0 <= was.c.flushed == |was.s.buf|
    requires |was.c.chunk| + |buf| > was.c.chunkSize
    requires TriesLeave(was, now, tries, |buf|, attempt, false)
    requires FlushIsExact(now.c, now.s, hash, now.c.chunk + buf, None, tries(attempt), c1, s1, ok)
    requires now.s.failed ==> s1.failed
    requires |now.s.buf| <= |s1.buf| && (!ok && tries(attempt).arrives ==> Spoiled(System(c1, s1)))
    ensures TriesLeave(was, System(if ok then c1.(size := c1.size + |buf|) else c1, s1), tries, |buf|, attempt + 1, ok)
  {
  }
}
