/** The buffer, the handlers and the client writer of a chunked upload, as the
    objects they are, and the upload loop of ocilarge/upload.go. */
module UploadWriter {
  import opened Bytes
  import opened Decimal
  import opened Ranges
  import opened Upload
  import opened UploadRuns
  import opened UploadSuccess

  /** One session of the server: ocimem.Buffer with the blobs it commits to. */
  class UploadSession {
    const hash: Bytes -> Digest
    var buf: Bytes
    var checkStartOffset: int
    var committed: bool
    var failed: bool
    var blobs: map<Digest, Bytes>

    function View(): Server
      reads this
    {
      Server(buf, checkStartOffset, committed, failed, blobs)
    }

    constructor (hash: Bytes -> Digest)
      ensures View() == Server([], 0, false, false, map[]) && this.hash == hash
    {
      this.hash := hash;
      buf, checkStartOffset, committed, failed, blobs := [], 0, false, false, map[];
    }

    /** PushBlobChunkedResume on this session. */
    method ResumeSession(offset: int)
      modifies this
      ensures View() == Resume(old(View()), offset)
    {
      checkStartOffset := offset;
    }

    /** Buffer.Write */
    method WriteBuffer(data: Bytes) returns (ok: bool)
      modifies this
      ensures (View(), ok) == BufferWrite(old(View()), data)
      ensures ok <==> old(checkStartOffset) in {-1, |old(buf)|}
      ensures View() == if ok then Grown(old(View()), data) else old(View())
    {
      if checkStartOffset != -1 {
        if |buf| != checkStartOffset { return false; }
        checkStartOffset := -1;
      }
      buf := buf + data;
      return true;
    }

    /** Buffer.Cancel */
    method CancelBuffer()
      modifies this
      ensures View() == CancelUpload(old(View()))
    {
      failed := true;
    }

    /** Buffer.Commit */
    method CommitBuffer(digest: Digest) returns (ok: bool)
      modifies this
      ensures (View(), ok) == BufferCommit(old(View()), hash, digest)
    {
      if failed { return false; }
      if hash(buf) != digest {
        failed := true;
        return false;
      }
      committed := true;
      blobs := blobs[digest := buf];
      return true;
    }

    /** io.Copy: however the arriving bytes are cut into pieces, the buffer is
        checked once and then receives them all. */
    method CopyFrom(body: Bytes, got: nat, pieceSize: nat) returns (copied: Copied)
      requires pieceSize > 0
      modifies this
      ensures (View(), copied) == CopyBody(old(View()), body, got)
    {
      var arrived := if got < |body| then got else |body|;
      var i := 0;
      while i < arrived
        invariant 0 <= i <= arrived
        invariant i == 0 ==> View() == old(View())
        invariant i > 0 ==> (View(), true) == BufferWrite(old(View()), body[..i])
      {
        var n := if arrived - i < pieceSize then arrived - i else pieceSize;
        var ok := WriteBuffer(body[i..i + n]);
        if !ok {
          assert i == 0;
          return Refused;
        }
        assert old(buf) + body[..i] + body[i..i + n] == old(buf) + body[..i + n];
        i := i + n;
      }
      assert body[..|body|] == body;
      return if got < |body| then Broken else Done;
    }

    /** blobUploadPatch, from the header text on; no header is the empty text, and
        a streaming body has no Content-Length. */
    method BlobUploadPatch(contentRange: string, streaming: bool, body: Bytes, got: nat) returns (status: Status)
      modifies this
      ensures (View(), status) ==
              match BoundsOf(contentRange, streaming, |body|) {
                case None => (old(View()), BadRequest)
                case Some((start, size)) => PatchAt(old(View()), start, size, body, got)
              }
    {
      var length := if streaming then 0 else |body|;
      var rangeStart, size := 0, length;
      if contentRange != "" {
        var range := ParseRange(contentRange);
        if range.None? { return BadRequest; }
        rangeStart, size := range.value.0, range.value.2;
      }
      if length > 0 && length != size { return BadRequest; }
      ResumeSession(rangeStart);
      var copied := Done;
      if size > 0 || streaming { copied := CopyFrom(body, got, 0x8000); }
      match copied {
        case Refused => return OutOfOrder;
        case Broken =>
          CancelBuffer();
          return ServerError;
        case Done => return Accepted;
      }
    }

    /** blobUploadPut, from the header text on. */
    method BlobUploadPut(contentRange: string, streaming: bool, body: Bytes, digest: Digest, got: nat)
      returns (status: Status)
      modifies this
      ensures (View(), status) ==
              PutWith(old(View()), hash, BoundsOf(contentRange, streaming, |body|), streaming, body, digest, got)
    {
      if streaming || |body| != 0 {
        var length := if streaming then 0 else |body|;
        var rangeStart, size := 0, length;
        if contentRange != "" {
          var range := ParseRange(contentRange);
          if range.None? { return BadRequest; }
          rangeStart, size := range.value.0, range.value.2;
        }
        if length > 0 && length != size { return BadRequest; }
        ResumeSession(rangeStart);
        var copied := CopyFrom(body, got, 0x8000);
        match copied {
          case Refused => return OutOfOrder;
          case Broken => return ServerError;
          case Done =>
        }
      }
      ResumeSession(-1);
      var ok := CommitBuffer(digest);
      return if ok then Created else BadRequest;
    }
  }

  /** Where a body of the given length starts, and the size it is checked against:
      what the header says, or, without one, all of it from 0 on. Nothing is
      checked of a streaming body. */
  function BoundsOf(contentRange: string, streaming: bool, length: nat): Option<(int, int)> {
    if contentRange == "" then Some((0, length))
    else
      match ParseRange(contentRange)
      case None => None
      case Some((start, _, size)) => Some((start, if streaming then length else size))
  }

  lemma HeaderIsNotEmpty(start: int, end: int)
    ensures ContentRange(start, end) != ""
  {
  }

  /** The header the client writes says what its request says. */
  lemma BoundsOfRequest(s: Server, hash: Bytes -> Digest, contentRange: string, start: int, end: int, body: Bytes,
                        digest: Digest, got: nat)
    requires contentRange != "" && ParseRange(contentRange) == Seen(start, end)
    ensures var req, bounds := Request(start, end, body), BoundsOf(contentRange, false, |body|);
            && PutWith(s, hash, bounds, false, body, digest, got) == Put(s, hash, req, digest, got)
            && Patch(s, req, got) ==
                 if bounds.None? then (s, BadRequest) else PatchAt(s, bounds.value.0, bounds.value.1, body, got)
  {
  }

  /** Without a Content-Range, streamed or not, a body is only ever appended to an
      upload that is still empty. */
  lemma HeaderlessNeedsEmpty(s: Server, streaming: bool, body: Bytes, got: nat)
    requires body != []
    ensures var bounds := BoundsOf("", streaming, |body|);
            && bounds.Some?
            && var (s1, status) := PatchAt(s, bounds.value.0, bounds.value.1, body, got);
               AppendsAtStart(s.buf, s1.buf, 0, body) && (status == Accepted ==> s.buf == [] && s1.buf == body)
  {
    PatchAtAppends(s, 0, body, got);
    assert [] + body == body;
  }

  /** ociclient.blobWriter, talking to one session. */
  class BlobWriter {
    const session: UploadSession
    const chunkSize: nat
    var chunk: Bytes
    var size: int
    var flushed: int
    var closed: bool
    var closeFailed: bool

    function View(): Client
      reads this
    {
      Client(chunkSize, chunk, size, flushed, closed, closeFailed)
    }

    constructor (session: UploadSession, chunkSize: nat)
      ensures View() == ResumedWriter(chunkSize, 0) && this.session == session
    {
      this.session, this.chunkSize := session, chunkSize;
      chunk, size, flushed, closed, closeFailed := [], 0, 0, false, false;
    }

    /** The request that flush makes, on its arrival at the server. */
    method SendRequest(body: Bytes, commit: Option<Digest>, got: nat) returns (status: Status)
      requires -1 <= flushed && flushed + |body| < LIMIT
      modifies session
      ensures (session.View(), status) ==
              Handle(old(session.View()), session.hash, Request(flushed, flushed + |body|, body), commit, got)
    {
      var contentRange := ContentRange(flushed, flushed + |body|);
      SeenThroughTheWire(flushed, flushed + |body|);
      HeaderIsNotEmpty(flushed, flushed + |body|);
      BoundsOfRequest(session.View(), session.hash, contentRange, flushed, flushed + |body|, body,
                      if commit.Some? then commit.value else "", got);
      if commit.Some? {
        status := session.BlobUploadPut(contentRange, false, body, commit.value, got);
      } else {
        status := session.BlobUploadPatch(contentRange, false, body, got);
      }
    }

    /** blobWriter.flush */
    method FlushTo(buf: Bytes, commit: Option<Digest>, net: Net) returns (ok: bool)
      requires -1 <= flushed && flushed + |chunk| + |buf| < LIMIT
      modifies this`chunk, this`flushed, session
      ensures (View(), session.View(), ok) ==
              Flush(old(View()), old(session.View()), session.hash, buf, commit, net)
      ensures FlushIsExact(old(View()), old(session.View()), session.hash, old(chunk) + buf, commit, net, View(),
                           session.View(), ok)
    {
      FlushSucceeds(View(), session.View(), session.hash, buf, commit, net);
      if commit.None? && |buf| + |chunk| == 0 { return true; }
      if !net.arrives { return false; }
      var body := chunk + buf;
      var status := SendRequest(body, commit, net.bodyBytes);
      if !net.replyArrives || status != (if commit.Some? then Created else Accepted) { return false; }
      flushed := flushed + |body|;
      chunk := [];
      return true;
    }

    /** blobWriter.Write */
    method WriteBytes(buf: Bytes, net: Net) returns (ok: bool)
      requires -1 <= flushed && flushed + |chunk| + |buf| < LIMIT
      modifies this, session
      ensures (View(), session.View(), ok) == Write(old(View()), old(session.View()), session.hash, buf, net)
      ensures WriteIsExact(old(View()), old(session.View()), session.hash, buf, net, View(), session.View(), ok)
    {
      WriteSucceeds(View(), session.View(), session.hash, buf, net);
      if |chunk| + |buf| > chunkSize {
        var flushOk := FlushTo(buf, None, net);
        if !flushOk { return false; }
      } else {
        chunk := chunk + buf;
      }
      size := size + |buf|;
      return true;
    }

    /** blobWriter.Close */
    method CloseUpload(net: Net) returns (ok: bool)
      requires -1 <= flushed && flushed + |chunk| < LIMIT
      modifies this, session
      ensures (View(), session.View(), ok) == Close(old(View()), old(session.View()), session.hash, net)
      ensures CloseIsExact(old(View()), old(session.View()), session.hash, net, View(), session.View(), ok)
    {
      CloseSucceeds(View(), session.View(), session.hash, net);
      if closed { return !closeFailed; }
      ok := FlushTo([], None, net);
      closed := true;
      closeFailed := !ok;
    }

    /** blobWriter.Commit */
    method CommitUploaded(digest: Digest, net: Net) returns (ok: bool)
      requires -1 <= flushed && flushed + |chunk| < LIMIT
      modifies this, session
      ensures (View(), session.View(), ok) == Commit(old(View()), old(session.View()), session.hash, digest, net)
      ensures FlushIsExact(old(View()), old(session.View()), session.hash, old(chunk), Some(digest), net, View(),
                           session.View(), ok)
    {
      CommitSucceeds(View(), session.View(), session.hash, digest, net);
      ok := FlushTo([], Some(digest), net);
    }
  }

  /** The loop of UploadLargeBlob is at offset: all went well so far, and the
      writer and the server agree on what was flushed. */
  ghost predicate InStep(stream: Bytes, hash: Bytes -> Digest, sys: System, offset: nat) {
    && Inv(stream, hash, sys) && sys.s.blobs == map[]
    && sys.c.size == offset && 0 <= sys.c.flushed == |sys.s.buf|
  }

  /** The tries so far: the chunk is written, or the writer is as it was. */
  ghost predicate Trying(stream: Bytes, hash: Bytes -> Digest, was: System, now: System, offset: nat,
                         n: nat, tried: bool, written: bool)
  {
    if written then InStep(stream, hash, now, offset + n)
    else
      && Inv(stream, hash, now) && now.c == was.c && now.s.blobs == map[]
      && (if tried then |was.c.chunk| + n > was.c.chunkSize else now == was)
  }

  lemma OneTry(stream: Bytes, hash: Bytes -> Digest, was: System, now: System, offset: nat, n: nat,
               tried: bool, net: Net)
    requires InStep(stream, hash, was, offset) && was.c.chunkSize >= 0 && offset + n <= |stream|
    requires Trying(stream, hash, was, now, offset, n, tried, false)
    ensures var (next, ok) := Step(stream, hash, now, WriteNext(n, net));
            Trying(stream, hash, was, next, offset, n, true, ok)
  {
    WriteKeepsInv(stream, hash, now, n, net);
    WriteAcknowledges(stream, hash, now, n, net);
  }

  /** The chunk after its tries. */
  ghost predicate ChunkDone(stream: Bytes, hash: Bytes -> Digest, was: System, now: System, tries: nat -> Net,
                            offset: nat, n: nat, written: bool)
  {
    var pending := |was.c.chunk| + n;
    && Inv(stream, hash, now) && now.s.blobs == map[]
    && (written ==> InStep(stream, hash, now, offset + n) &&
                    |now.c.chunk| == if pending > was.c.chunkSize then 0 else pending)
    && (written && !now.s.failed <==>
          !was.s.failed && ChunkDelivered(tries, |was.c.chunk|, n, was.c.chunkSize))
  }

  lemma TriesAreDone(stream: Bytes, hash: Bytes -> Digest, was: System, now: System, tries: nat -> Net, offset: nat,
                     n: nat, attempt: nat, written: bool)
    requires Trying(stream, hash, was, now, offset, n, attempt > 0, written)
    requires TriesLeave(was, now, tries, n, attempt, written) && attempt >= 3
    ensures ChunkDone(stream, hash, was, now, tries, offset, n, written)
  {
  }

  /** The inner loop: one chunk, tried up to three times. It is written, on a
      session that has not failed, exactly when the network delivers it. */
  method WriteWithRetries(w: BlobWriter, stream: Bytes, offset: nat, n: nat, tries: nat -> Net)
    returns (written: bool)
    requires 0 < n && offset + n <= |stream| < LIMIT
    requires InStep(stream, w.session.hash, System(w.View(), w.session.View()), offset)
    modifies w, w.session
    ensures ChunkDone(stream, w.session.hash, old(System(w.View(), w.session.View())),
                      System(w.View(), w.session.View()), tries, offset, n, written)
  {
    written := false;
    ghost var hash, was := w.session.hash, System(w.View(), w.session.View());
    for attempt := 0 to 3
      invariant Trying(stream, hash, was, System(w.View(), w.session.View()), offset, n, attempt > 0,
                       written)
      invariant TriesLeave(was, System(w.View(), w.session.View()), tries, n, attempt, written)
    {
      if !written {
        ghost var sys := System(w.View(), w.session.View());
        OneTry(stream, hash, was, sys, offset, n, attempt > 0, tries(attempt));
        OneMoreTry(stream, hash, was, sys, tries, n, attempt);
        written := w.WriteBytes(stream[offset..offset + n], tries(attempt));
        assert (System(w.View(), w.session.View()), written) == Step(stream, hash, sys, WriteNext(n, tries(attempt)));
      }
    }
    TriesAreDone(stream, hash, was, System(w.View(), w.session.View()), tries, offset, n, 3, written);
  }

  /** chunkSizeFromResponse, with the server's minimum, 0 when it names none. */
  function ChunkSizeFromResponse(minChunkSize: int, chunkSize: nat): nat {
    if minChunkSize > chunkSize then minChunkSize else chunkSize
  }

  /** The loop of UploadLargeBlob before the k-th chunk: the upload will succeed
      exactly when the rest of it is delivered. */
  ghost predicate RestDecides(sys: System, nets: nat -> nat -> Net, k: nat, left: nat, chunkSize: nat, commitNet: Net,
                              delivered: bool)
    requires chunkSize > 0
  {
    delivered <==>
    && !sys.s.failed
    && UploadDelivered(nets, k, left, |sys.c.chunk|, chunkSize, sys.c.chunkSize, commitNet)
  }

  lemma RestMoves(stream: Bytes, hash: Bytes -> Digest, was: System, now: System, nets: nat -> nat -> Net, k: nat,
                  offset: nat, left: nat, n: nat, chunkSize: nat, commitNet: Net, delivered: bool, written: bool)
    requires 0 < n == Min(left, chunkSize) && RestDecides(was, nets, k, left, chunkSize, commitNet, delivered)
    requires now.c.chunkSize == was.c.chunkSize
    requires ChunkDone(stream, hash, was, now, nets(k), offset, n, written)
    ensures if written then RestDecides(now, nets, k + 1, left - n, chunkSize, commitNet, delivered) else !delivered
  {
  }

  /** The last step of UploadLargeBlob. */
  ghost predicate Stored(stream: Bytes, hash: Bytes -> Digest, sys: System, commitNet: Net, next: System, ok: bool) {
    && next.s.buf <= stream
    && (ok ==> hash(stream) in next.s.blobs && next.s.blobs[hash(stream)] == stream)
    && (ok <==> !sys.s.failed && ArrivesWhole(commitNet, |sys.c.chunk|))
  }

  lemma CommitOutcome(stream: Bytes, hash: Bytes -> Digest, sys: System, net: Net)
    requires InStep(stream, hash, sys, |stream|)
    ensures var (next, ok) := Step(stream, hash, sys, CommitUpload(hash(stream), net));
            Stored(stream, hash, sys, net, next, ok)
  {
    assert stream[..|stream|] == stream;
    CommitStoresTheStream(stream, hash, sys, net);
    CommitKeepsInv(stream, hash, sys, hash(stream), net);
    FlushSucceeds(sys.c, sys.s, hash, [], Some(hash(stream)), net);
    assert sys.c.chunk + [] == sys.c.chunk;
    assert sys.s.buf + sys.c.chunk == stream;
  }

  /** The loop of UploadLargeBlob over the chunks of the stream. */
  method WriteChunks(w: BlobWriter, stream: Bytes, chunkSize: nat, nets: nat -> nat -> Net, ghost commitNet: Net)
    returns (sent: bool)
    requires 0 < chunkSize && |stream| < LIMIT
    requires InStep(stream, w.session.hash, System(w.View(), w.session.View()), 0)
    requires !w.session.failed && w.chunk == []
    modifies w, w.session
    ensures Inv(stream, w.session.hash, System(w.View(), w.session.View())) && w.session.blobs == map[]
    ensures var delivered := UploadDelivered(nets, 0, |stream|, 0, chunkSize, w.chunkSize, commitNet);
            if sent then
              && InStep(stream, w.session.hash, System(w.View(), w.session.View()), |stream|)
              && (delivered <==> !w.session.failed && ArrivesWhole(commitNet, |w.chunk|))
            else !delivered
  {
    ghost var delivered := UploadDelivered(nets, 0, |stream|, 0, chunkSize, w.chunkSize, commitNet);
    var offset, k := 0, 0;
    while offset < |stream|
      invariant 0 <= offset <= |stream|
      invariant InStep(stream, w.session.hash, System(w.View(), w.session.View()), offset)
      invariant RestDecides(System(w.View(), w.session.View()), nets, k, |stream| - offset, chunkSize, commitNet,
                            delivered)
      decreases |stream| - offset
    {
      var n := if |stream| - offset < chunkSize then |stream| - offset else chunkSize;   // io.ReadFull
      ghost var was := System(w.View(), w.session.View());
      var written := WriteWithRetries(w, stream, offset, n, nets(k));
      RestMoves(stream, w.session.hash, was, System(w.View(), w.session.View()), nets, k, offset, |stream| - offset, n,
                chunkSize, commitNet, delivered, written);
      if !written { return false; }
      offset, k := offset + n, k + 1;
    }
    return true;
  }

  /** ocilarge.UploadLargeBlob on a new session: whatever the network does to the
      requests (nets(k)(t) is the fate of the t-th try of the k-th chunk), and
      whatever chunk size the server asks for, success means that the server has
      stored exactly the stream under its digest, and the upload succeeds exactly
      when the file can be read and each request is delivered within three tries.
      The stream is what the file gives before its end, or before a read fails.
      Nothing is assumed about the hash. */
  method UploadLargeBlob(session: UploadSession, stream: Bytes, readFails: bool, chunkSize: nat, minChunkSize: int,
                         nets: nat -> nat -> Net, commitNet: Net)
    returns (ok: bool)
    requires session.View() == Server([], 0, false, false, map[])
    requires 0 < chunkSize && |stream| < LIMIT
    modifies session
    ensures session.buf <= stream
    ensures ok ==> !readFails && session.hash(stream) in session.blobs && session.blobs[session.hash(stream)] == stream
    ensures readFails ==> session.blobs == map[]
    ensures ok <==> !readFails && UploadDelivered(nets, 0, |stream|, 0, chunkSize,
                                                  ChunkSizeFromResponse(minChunkSize, chunkSize), commitNet)
    ensures !readFails && TwoLostAtMost(nets, |stream|, commitNet) ==> ok
  {
    var w := new BlobWriter(session, ChunkSizeFromResponse(minChunkSize, chunkSize));
    if TwoLostAtMost(nets, |stream|, commitNet) {
      TwoLostIsDelivered(nets, |stream|, 0, |stream|, 0, chunkSize, w.chunkSize, commitNet);
    }
    assert stream[0..0] == [];
    var sent := WriteChunks(w, stream, chunkSize, nets, commitNet);
    if !sent || readFails { return false; }
    ghost var sys := System(w.View(), session.View());
    CommitOutcome(stream, session.hash, sys, commitNet);
    ok := w.CommitUploaded(session.hash(stream), commitNet);
    assert (System(w.View(), session.View()), ok) ==
           Step(stream, session.hash, sys, CommitUpload(session.hash(stream), commitNet));
  }
}
