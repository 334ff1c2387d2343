/** What a chunked upload keeps over any sequence of writes, retries, lost
    replies, broken bodies, resumptions and commits of one stream. */
module UploadRuns {
  import opened Bytes
  import opened Ranges
  import opened Upload

  datatype System = System(c: Client, s: Server)

  /** What a caller uploading one stream can do; each with what the network does. */
  datatype Op =
    | WriteNext(n: nat, net: Net)      // Write of the next n bytes, as the writer's Size says
    | CloseWriter(net: Net)
    | CommitUpload(digest: Digest, net: Net)
    | RecoverOffset(net: Net)          // PushBlobChunkedResume(-1)
    | ResumeAt(offset: nat)            // PushBlobChunkedResume(offset)

  function Position(c: Client): nat {
    if c.size < 0 then 0 else c.size
  }

  predicate Possible(stream: Bytes, sys: System, op: Op) {
    match op
    case WriteNext(n, _) => Position(sys.c) + n <= |stream|
    case ResumeAt(offset) => offset <= |stream|
    case _ => true
  }

  /** The next state, and whether the caller is told of success. */
  function Step(stream: Bytes, hash: Bytes -> Digest, sys: System, op: Op): (r: (System, bool))
    requires Possible(stream, sys, op)
  {
    match op
    case WriteNext(n, net) =>
      var p := Position(sys.c);
      var (c, s, ok) := Write(sys.c, sys.s, hash, stream[p..p + n], net);
      (System(c, s), ok)
    case CloseWriter(net) =>
      var (c, s, ok) := Close(sys.c, sys.s, hash, net);
      (System(c, s), ok)
    case CommitUpload(digest, net) =>
      var (c, s, ok) := Commit(sys.c, sys.s, hash, digest, net);
      (System(c, s), ok)
    case RecoverOffset(net) =>
      var (c, s, ok) := Recover(sys.c, sys.s, net);
      (System(c, s), ok)
    case ResumeAt(offset) => (System(ResumedWriter(sys.c.chunkSize, offset), sys.s), true)
  }

  predicate ClientInv(stream: Bytes, c: Client) {
    && -1 <= c.flushed
    && c.size == c.flushed + |c.chunk| <= |stream|
    && (c.flushed >= 0 ==> c.chunk == stream[c.flushed..c.size])
  }

  predicate ServerInv(stream: Bytes, hash: Bytes -> Digest, s: Server) {
    && s.buf <= stream
    && forall d :: d in s.blobs ==> s.blobs[d] <= stream && hash(s.blobs[d]) == d
  }

  /** The writer holds a window of the stream, the server a prefix of it. */
  predicate Inv(stream: Bytes, hash: Bytes -> Digest, sys: System) {
    ClientInv(stream, sys.c) && ServerInv(stream, hash, sys.s)
  }

  lemma AppendStaysPrefix(stream: Bytes, before: Bytes, after: Bytes, start: nat, end: nat)
    requires start <= end <= |stream| && before <= stream
    requires AppendsAtStart(before, after, start, stream[start..end])
    ensures before <= after <= stream
  {
    if before != after {
      var k: nat :| k <= end - start && after == before + stream[start..end][..k];
      assert after == stream[..start + k];
    }
  }

  /** A writer whose offset was recovered as -1 gets no byte through. */
  lemma RefusedWhenNegative(c: Client, s: Server, hash: Bytes -> Digest, body: Bytes, commit: Option<Digest>, got: nat)
    requires c.flushed == -1 && (commit.Some? || body != [])
    ensures var (s1, status) := Handle(s, hash, Request(-1, -1 + |body|, body), commit, got);
            && s1.buf == s.buf
            && (body != [] ==> status == BadRequest && s1.blobs == s.blobs)
            && (status == Created ==>
                  commit.Some? && hash(s.buf) == commit.value && s1.blobs == s.blobs[commit.value := s.buf])
            && (status != Created ==> s1.blobs == s.blobs)
  {
  }

  /** Everything that a flush of body can do: an acknowledged one was appended
      whole, at the offset the writer believed in; any other appended a prefix of
      it there, or nothing; blobs change only by a commit. */
  ghost predicate FlushEffect(hash: Bytes -> Digest, c: Client, s: Server, body: Bytes, commit: Option<Digest>,
                              c1: Client, s1: Server, ok: bool)
  {
    && c1 == (if ok then c.(flushed := c.flushed + |body|, chunk := []) else c)
    && AppendsAtStart(s.buf, s1.buf, c.flushed, body)
    && (ok ==> s1.buf == s.buf + body && (body != [] ==> c.flushed == |s.buf|))
    && (s1.blobs == s.blobs || Committed(hash, s, commit, s1))
    && (ok && commit.Some? ==> Committed(hash, s, commit, s1))
  }

  ghost predicate Committed(hash: Bytes -> Digest, s: Server, commit: Option<Digest>, s1: Server) {
    commit.Some? && hash(s1.buf) == commit.value && s1.blobs == s.blobs[commit.value := s1.buf]
  }

  lemma FlushHasEffect(c: Client, s: Server, hash: Bytes -> Digest, buf: Bytes, commit: Option<Digest>, net: Net)
    requires -1 <= c.flushed
    ensures var (c1, s1, ok) := Flush(c, s, hash, buf, commit, net);
            FlushEffect(hash, c, s, c.chunk + buf, commit, c1, s1, ok)
  {
    var body := c.chunk + buf;
    assert s.buf + [] == s.buf;
    if commit.Some? || body != [] {
      if c.flushed < 0 {
        RefusedWhenNegative(c, s, hash, body, commit, net.bodyBytes);
      } else {
        HandleAppends(s, hash, c.flushed, body, commit, net.bodyBytes);
      }
    }
  }

  /** What a flush of the next n bytes leaves: a client and a server in order. */
  ghost predicate FlushKept(stream: Bytes, hash: Bytes -> Digest, sys: System, n: nat, c1: Client, s1: Server,
                            ok: bool) {
    && ServerInv(stream, hash, s1) && sys.s.buf <= s1.buf
    && c1.size == sys.c.size
    && (!ok ==> c1 == sys.c)
    && (ok ==> ClientInv(stream, c1.(size := c1.size + n)))
  }

  /** One flush of the next n bytes, whatever the network does to it. */
  lemma FlushKeepsInv(stream: Bytes, hash: Bytes -> Digest, sys: System, buf: Bytes, commit: Option<Digest>, net: Net)
    requires Inv(stream, hash, sys) && IsNext(stream, sys.c, buf)
    ensures var (c1, s1, ok) := Flush(sys.c, sys.s, hash, buf, commit, net);
            FlushKept(stream, hash, sys, |buf|, c1, s1, ok)
  {
    var (c1, s1, ok) := Flush(sys.c, sys.s, hash, buf, commit, net);
    FlushHasEffect(sys.c, sys.s, hash, buf, commit, net);
    EffectKeepsInv(stream, hash, sys, buf, commit, c1, s1, ok);
  }

  /** buf is what comes next in the stream. */
  predicate IsNext(stream: Bytes, c: Client, buf: Bytes) {
    Position(c) + |buf| <= |stream| && buf == stream[Position(c)..Position(c) + |buf|]
  }

  lemma EffectKeepsInv(stream: Bytes, hash: Bytes -> Digest, sys: System, buf: Bytes, commit: Option<Digest>,
                       c1: Client, s1: Server, ok: bool)
    requires Inv(stream, hash, sys) && IsNext(stream, sys.c, buf)
    requires FlushEffect(hash, sys.c, sys.s, sys.c.chunk + buf, commit, c1, s1, ok)
    ensures FlushKept(stream, hash, sys, |buf|, c1, s1, ok)
  {
    WindowMoves(stream, sys.c, |buf|);
    if s1.buf != sys.s.buf {
      BodyIsNext(stream, sys.c, |buf|);
      AppendStaysPrefix(stream, sys.s.buf, s1.buf, sys.c.flushed, sys.c.size + |buf|);
    }
  }

  /** What a flush sends is the stream from the flushed position on. */
  lemma BodyIsNext(stream: Bytes, c: Client, n: nat)
    requires ClientInv(stream, c) && Position(c) + n <= |stream| && c.flushed >= 0
    ensures c.chunk + stream[Position(c)..Position(c) + n] == stream[c.flushed..c.size + n]
  {
  }

  /** A step keeps the invariant, never shortens the server's buffer, and a
      write that fails leaves the writer as it was (so the caller can retry). */
  ghost predicate Kept(stream: Bytes, hash: Bytes -> Digest, sys: System, op: Op, next: System, ok: bool) {
    && Inv(stream, hash, next) && sys.s.buf <= next.s.buf
    && (op.WriteNext? && !ok ==> next.c == sys.c)
    && (op.WriteNext? && ok ==> next.c.size == sys.c.size + op.n)
  }

  /** Every operation is of that kind, whatever the network does. */
  lemma StepKeepsInv(stream: Bytes, hash: Bytes -> Digest, sys: System, op: Op)
    requires Inv(stream, hash, sys) && Possible(stream, sys, op)
    ensures var (next, ok) := Step(stream, hash, sys, op);
            Kept(stream, hash, sys, op, next, ok)
  {
    match op {
      case WriteNext(n, net) => WriteKeepsInv(stream, hash, sys, n, net);
      case CloseWriter(net) => CloseKeepsInv(stream, hash, sys, net);
      case CommitUpload(digest, net) => CommitKeepsInv(stream, hash, sys, digest, net);
      case _ => ResumeKeepsInv(stream, hash, sys, op);
    }
  }

  lemma ResumeKeepsInv(stream: Bytes, hash: Bytes -> Digest, sys: System, op: Op)
    requires Inv(stream, hash, sys) && Possible(stream, sys, op) && (op.RecoverOffset? || op.ResumeAt?)
    ensures var (next, ok) := Step(stream, hash, sys, op);
            Kept(stream, hash, sys, op, next, ok)
  {
    ResumedInv(stream, sys.c.chunkSize, if op.ResumeAt? then op.offset else Recovered(|sys.s.buf|));
  }

  lemma CloseKeepsInv(stream: Bytes, hash: Bytes -> Digest, sys: System, net: Net)
    requires Inv(stream, hash, sys)
    ensures var (next, ok) := Step(stream, hash, sys, CloseWriter(net));
            Kept(stream, hash, sys, CloseWriter(net), next, ok)
  {
    IdleFlushKeepsInv(stream, hash, sys, None, net);
  }

  lemma CommitKeepsInv(stream: Bytes, hash: Bytes -> Digest, sys: System, digest: Digest, net: Net)
    requires Inv(stream, hash, sys)
    ensures var (next, ok) := Step(stream, hash, sys, CommitUpload(digest, net));
            Kept(stream, hash, sys, CommitUpload(digest, net), next, ok)
  {
    IdleFlushKeepsInv(stream, hash, sys, Some(digest), net);
  }

  /** Close and Commit flush without new data. */
  lemma IdleFlushKeepsInv(stream: Bytes, hash: Bytes -> Digest, sys: System, commit: Option<Digest>, net: Net)
    requires Inv(stream, hash, sys)
    ensures var (c1, s1, ok) := Flush(sys.c, sys.s, hash, [], commit, net);
            ClientInv(stream, c1) && ServerInv(stream, hash, s1) && sys.s.buf <= s1.buf
  {
    var p := Position(sys.c);
    assert stream[p..p + 0] == [];
    FlushKeepsInv(stream, hash, sys, [], commit, net);
  }

  lemma WriteKeepsInv(stream: Bytes, hash: Bytes -> Digest, sys: System, n: nat, net: Net)
    requires Inv(stream, hash, sys) && Position(sys.c) + n <= |stream|
    ensures var (next, ok) := Step(stream, hash, sys, WriteNext(n, net));
            Kept(stream, hash, sys, WriteNext(n, net), next, ok)
  {
    if |sys.c.chunk| + n > sys.c.chunkSize {
      FlushingWriteKeepsInv(stream, hash, sys, n, net);
    } else {
      BufferingWriteKeepsInv(stream, hash, sys, n, net);
    }
  }

  lemma BufferingWriteKeepsInv(stream: Bytes, hash: Bytes -> Digest, sys: System, n: nat, net: Net)
    requires Inv(stream, hash, sys) && Position(sys.c) + n <= |stream|
    requires |sys.c.chunk| + n <= sys.c.chunkSize
    ensures var (next, ok) := Step(stream, hash, sys, WriteNext(n, net));
            Kept(stream, hash, sys, WriteNext(n, net), next, ok)
  {
    WriteBuffers(stream, hash, sys, n, net);
    WindowMoves(stream, sys.c, n);
  }

  lemma FlushingWriteKeepsInv(stream: Bytes, hash: Bytes -> Digest, sys: System, n: nat, net: Net)
    requires Inv(stream, hash, sys) && Position(sys.c) + n <= |stream|
    requires |sys.c.chunk| + n > sys.c.chunkSize
    ensures var (next, ok) := Step(stream, hash, sys, WriteNext(n, net));
            Kept(stream, hash, sys, WriteNext(n, net), next, ok)
  {
    var buf := stream[Position(sys.c)..Position(sys.c) + n];
    var (c1, s1, ok) := Flush(sys.c, sys.s, hash, buf, None, net);
    FlushKeepsInv(stream, hash, sys, buf, None, net);
    assert FlushKept(stream, hash, sys, n, c1, s1, ok);
    FlushedWriteIsKept(stream, hash, sys, n, net, c1, s1, ok);
    WriteFlushes(stream, hash, sys, n, net);
  }

  lemma FlushedWriteIsKept(stream: Bytes, hash: Bytes -> Digest, sys: System, n: nat, net: Net, c1: Client, s1: Server,
                           ok: bool)
    requires Inv(stream, hash, sys) && FlushKept(stream, hash, sys, n, c1, s1, ok)
    ensures Kept(stream, hash, sys, WriteNext(n, net), System(if ok then c1.(size := c1.size + n) else c1, s1), ok)
  {
  }

  lemma WriteFlushes(stream: Bytes, hash: Bytes -> Digest, sys: System, n: nat, net: Net)
    requires Inv(stream, hash, sys) && Position(sys.c) + n <= |stream|
    requires |sys.c.chunk| + n > sys.c.chunkSize
    ensures var p := Position(sys.c);
            var (c1, s1, ok) := Flush(sys.c, sys.s, hash, stream[p..p + n], None, net);
            Step(stream, hash, sys, WriteNext(n, net)) ==
            (System(if ok then c1.(size := c1.size + n) else c1, s1), ok)
  {
  }

  /** Buffering the next bytes, or flushing them all, keeps the window. */
  lemma WindowMoves(stream: Bytes, c: Client, n: nat)
    requires ClientInv(stream, c) && Position(c) + n <= |stream|
    ensures var p := Position(c);
            ClientInv(stream, c.(chunk := c.chunk + stream[p..p + n], size := c.size + n))
    ensures ClientInv(stream, c.(flushed := c.size + n, chunk := [], size := c.size + n))
  {
    var p := Position(c);
    if c.flushed >= 0 {
      assert stream[c.flushed..p] + stream[p..p + n] == stream[c.flushed..p + n];
    }
    if c.size + n >= 0 {
      assert stream[c.size + n..c.size + n] == [];
    }
  }

  lemma ResumedInv(stream: Bytes, chunkSize: int, offset: int)
    requires -1 <= offset <= |stream|
    ensures ClientInv(stream, ResumedWriter(chunkSize, offset))
  {
    if offset >= 0 { assert stream[offset..offset] == []; }
  }

  ghost predicate Run(stream: Bytes, hash: Bytes -> Digest, sys: System, ops: seq<Op>, end: System)
    decreases |ops|
  {
    if ops == [] then sys == end
    else Possible(stream, sys, ops[0]) && Run(stream, hash, Step(stream, hash, sys, ops[0]).0, ops[1..], end)
  }

  function Start(chunkSize: int): System {
    System(ResumedWriter(chunkSize, 0), Server([], 0, false, false, map[]))
  }

  /** In every reachable state the server holds a prefix of the stream and every
      stored blob is a prefix of it under its own digest. */
  lemma {:induction false} RunKeepsInv(stream: Bytes, hash: Bytes -> Digest, sys: System, ops: seq<Op>, end: System)
    requires Inv(stream, hash, sys) && Run(stream, hash, sys, ops, end)
    ensures Inv(stream, hash, end) && sys.s.buf <= end.s.buf
    decreases |ops|
  {
    if ops != [] {
      StepKeepsInv(stream, hash, sys, ops[0]);
      RunKeepsInv(stream, hash, Step(stream, hash, sys, ops[0]).0, ops[1..], end);
    }
  }

  lemma StartInv(stream: Bytes, hash: Bytes -> Digest, chunkSize: int)
    ensures Inv(stream, hash, Start(chunkSize))
  {
    assert stream[0..0] == [];
  }

  /** Unless the caller names an offset of its own, the writer never believes
      more bytes flushed than the server has. */
  lemma StepKeepsFlushedWithin(stream: Bytes, hash: Bytes -> Digest, sys: System, op: Op)
    requires Inv(stream, hash, sys) && Possible(stream, sys, op) && !op.ResumeAt?
    requires sys.c.flushed <= |sys.s.buf|
    ensures var next := Step(stream, hash, sys, op).0; next.c.flushed <= |next.s.buf|
  {
    match op {
      case WriteNext(n, net) => WriteAcknowledges(stream, hash, sys, n, net);
      case CloseWriter(net) => CloseAcknowledges(stream, hash, sys, net);
      case CommitUpload(digest, net) => CommitAcknowledges(stream, hash, sys, digest, net);
      case RecoverOffset(net) =>
    }
  }

  lemma CloseAcknowledges(stream: Bytes, hash: Bytes -> Digest, sys: System, net: Net)
    requires Inv(stream, hash, sys) && sys.c.flushed <= |sys.s.buf|
    ensures var next := Step(stream, hash, sys, CloseWriter(net)).0; next.c.flushed <= |next.s.buf|
  {
    FlushAcknowledges(stream, hash, sys, [], None, net);
  }

  lemma CommitAcknowledges(stream: Bytes, hash: Bytes -> Digest, sys: System, digest: Digest, net: Net)
    requires Inv(stream, hash, sys) && sys.c.flushed <= |sys.s.buf|
    ensures var next := Step(stream, hash, sys, CommitUpload(digest, net)).0; next.c.flushed <= |next.s.buf|
  {
    FlushAcknowledges(stream, hash, sys, [], Some(digest), net);
  }

  /** A write that is acknowledged leaves the writer and the server agreeing, if
      it sent anything or they agreed before. */
  lemma WriteAcknowledges(stream: Bytes, hash: Bytes -> Digest, sys: System, n: nat, net: Net)
    requires Inv(stream, hash, sys) && Position(sys.c) + n <= |stream|
    ensures var (next, ok) := Step(stream, hash, sys, WriteNext(n, net));
            && (sys.c.flushed <= |sys.s.buf| ==> next.c.flushed <= |next.s.buf|)
            && (ok && (|sys.c.chunk| + n > sys.c.chunkSize >= 0 || sys.c.flushed == |sys.s.buf|) ==>
                  next.c.flushed == |next.s.buf|)
            && (!ok ==> |sys.c.chunk| + n > sys.c.chunkSize)
            && next.s.blobs == sys.s.blobs
  {
    if |sys.c.chunk| + n > sys.c.chunkSize {
      FlushingWriteAcknowledges(stream, hash, sys, n, net);
    } else {
      WriteBuffers(stream, hash, sys, n, net);
    }
  }

  lemma WriteBuffers(stream: Bytes, hash: Bytes -> Digest, sys: System, n: nat, net: Net)
    requires Inv(stream, hash, sys) && Position(sys.c) + n <= |stream|
    requires |sys.c.chunk| + n <= sys.c.chunkSize
    ensures var c, p := sys.c, Position(sys.c);
            Step(stream, hash, sys, WriteNext(n, net)) ==
            (System(c.(chunk := c.chunk + stream[p..p + n], size := c.size + n), sys.s), true)
  {
  }

  ghost predicate WriteAcknowledged(sys: System, next: System, ok: bool) {
    && (sys.c.flushed <= |sys.s.buf| ==> next.c.flushed <= |next.s.buf|)
    && (ok && (sys.c.chunkSize >= 0 || sys.c.flushed == |sys.s.buf|) ==> next.c.flushed == |next.s.buf|)
    && next.s.blobs == sys.s.blobs
  }

  lemma FlushingWriteAcknowledges(stream: Bytes, hash: Bytes -> Digest, sys: System, n: nat, net: Net)
    requires Inv(stream, hash, sys) && Position(sys.c) + n <= |stream|
    requires |sys.c.chunk| + n > sys.c.chunkSize
    ensures var (next, ok) := Step(stream, hash, sys, WriteNext(n, net)); WriteAcknowledged(sys, next, ok)
  {
    var c, p := sys.c, Position(sys.c);
    var (c1, s1, ok) := Flush(c, sys.s, hash, stream[p..p + n], None, net);
    WriteFlushes(stream, hash, sys, n, net);
    FlushHasEffect(c, sys.s, hash, stream[p..p + n], None, net);
    EffectIsAcknowledged(hash, sys, stream[p..p + n], n, c1, s1, ok);
  }

  lemma EffectIsAcknowledged(hash: Bytes -> Digest, sys: System, buf: Bytes, n: nat, c1: Client, s1: Server, ok: bool)
    requires |sys.c.chunk| + n > sys.c.chunkSize && |buf| == n
    requires FlushEffect(hash, sys.c, sys.s, sys.c.chunk + buf, None, c1, s1, ok)
    ensures WriteAcknowledged(sys, System(if ok then c1.(size := c1.size + n) else c1, s1), ok)
  {
  }

  /** A successful flush means that the server's buffer ends where the writer
      now thinks it does, unless nothing was sent. */
  lemma FlushAcknowledges(stream: Bytes, hash: Bytes -> Digest, sys: System, buf: Bytes, commit: Option<Digest>,
                          net: Net)
    requires Inv(stream, hash, sys)
    ensures var (c1, s1, ok) := Flush(sys.c, sys.s, hash, buf, commit, net);
            && sys.s.buf <= s1.buf
            && (ok && sys.c.chunk + buf != [] ==> c1.flushed == |s1.buf|)
            && (sys.c.flushed <= |sys.s.buf| ==> c1.flushed <= |s1.buf|)
            && (commit.None? ==> s1.blobs == sys.s.blobs)
  {
    var (c1, s1, ok) := Flush(sys.c, sys.s, hash, buf, commit, net);
    FlushHasEffect(sys.c, sys.s, hash, buf, commit, net);
    EffectAcknowledges(hash, sys.c, sys.s, sys.c.chunk + buf, commit, c1, s1, ok);
  }

  lemma EffectAcknowledges(hash: Bytes -> Digest, c: Client, s: Server, body: Bytes, commit: Option<Digest>,
                           c1: Client, s1: Server, ok: bool)
    requires FlushEffect(hash, c, s, body, commit, c1, s1, ok)
    ensures s.buf <= s1.buf
    ensures ok && body != [] ==> c1.flushed == |s1.buf|
    ensures c.flushed <= |s.buf| ==> c1.flushed <= |s1.buf|
    ensures commit.None? ==> s1.blobs == s.blobs
  {
  }

  ghost predicate Injective(hash: Bytes -> Digest) {
    forall x: Bytes, y: Bytes :: hash(x) == hash(y) ==> x == y
  }

  /** A Commit of the digest of everything written that succeeds has stored
      exactly the bytes written. Nothing is needed of the hash when the last
      chunk is not empty, or when writer and server agree on what was flushed. */
  lemma CommitStoresTheStream(stream: Bytes, hash: Bytes -> Digest, sys: System, net: Net)
    requires Inv(stream, hash, sys)
    requires sys.c.chunk != [] || sys.c.flushed == |sys.s.buf| || Injective(hash)
    ensures var written := stream[..Position(sys.c)];
            var (next, ok) := Step(stream, hash, sys, CommitUpload(hash(written), net));
            ok ==> hash(written) in next.s.blobs && next.s.blobs[hash(written)] == written
  {
    var digest := hash(stream[..Position(sys.c)]);
    var (c1, s1, ok) := Flush(sys.c, sys.s, hash, [], Some(digest), net);
    FlushHasEffect(sys.c, sys.s, hash, [], Some(digest), net);
    assert sys.c.chunk + [] == sys.c.chunk;
    EffectStores(stream, hash, sys.c, sys.s, c1, s1, ok);
  }

  lemma EffectStores(stream: Bytes, hash: Bytes -> Digest, c: Client, s: Server, c1: Client, s1: Server, ok: bool)
    requires ClientInv(stream, c) && ServerInv(stream, hash, s)
    requires c.chunk != [] || c.flushed == |s.buf| || Injective(hash)
    requires FlushEffect(hash, c, s, c.chunk, Some(hash(stream[..Position(c)])), c1, s1, ok)
    ensures var written := stream[..Position(c)];
            ok ==> hash(written) in s1.blobs && s1.blobs[hash(written)] == written
  {
    if ok && (c.chunk != [] || c.flushed == |s.buf|) {
      assert s.buf == stream[..c.flushed];
      assert stream[..c.flushed] + c.chunk == stream[..c.size];
    }
  }

  /** Safety over whole uploads: after any run, a successful commit of the
      digest of what was written stores what was written. */
  lemma UploadIsExact(stream: Bytes, hash: Bytes -> Digest, chunkSize: int, ops: seq<Op>, end: System, net: Net)
    requires Injective(hash) && Run(stream, hash, Start(chunkSize), ops, end)
    ensures end.s.buf <= stream && Position(end.c) <= |stream|
    ensures var written := stream[..Position(end.c)];
            var (next, ok) := Step(stream, hash, end, CommitUpload(hash(written), net));
            ok ==> hash(written) in next.s.blobs && next.s.blobs[hash(written)] == written
  {
    StartInv(stream, hash, chunkSize);
    RunKeepsInv(stream, hash, Start(chunkSize), ops, end);
    CommitStoresTheStream(stream, hash, end, net);
  }

  lemma {:induction false} FlushedWithin(stream: Bytes, hash: Bytes -> Digest, sys: System, ops: seq<Op>, end: System)
    requires Inv(stream, hash, sys) && Run(stream, hash, sys, ops, end)
    requires sys.c.flushed <= |sys.s.buf| && forall op :: op in ops ==> !op.ResumeAt?
    ensures end.c.flushed <= |end.s.buf|
    decreases |ops|
  {
    if ops != [] {
      StepKeepsInv(stream, hash, sys, ops[0]);
      StepKeepsFlushedWithin(stream, hash, sys, ops[0]);
      FlushedWithin(stream, hash, Step(stream, hash, sys, ops[0]).0, ops[1..], end);
    }
  }
}
