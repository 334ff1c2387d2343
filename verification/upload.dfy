/** Chunked uploads: ociclient/writer.go against ociserver/blobuploads.go over
    the buffer of ocimem/blob.go, on values. */
module Upload {
  import opened Bytes
  import opened Ranges

  /** One upload session and the blobs of its repository. */
  datatype Server = Server(
    buf: Bytes,
    checkStartOffset: int,   // -1: the next write is not checked
    committed: bool,
    failed: bool,            // commitErr is set
    blobs: map<Digest, Bytes>)

  datatype Client = Client(
    chunkSize: int,
    chunk: Bytes,
    size: int,               // the upload as the caller sees it
    flushed: int,            // the upload as the server has acknowledged it
    closed: bool,
    closeFailed: bool)

  /** What the network does to one request: whether it arrives, after how many
      body bytes the connection breaks, and whether the reply gets back. */
  datatype Net = Net(arrives: bool, bodyBytes: nat, replyArrives: bool)

  datatype Status = Accepted | Created | BadRequest | OutOfOrder | ServerError

  /** A PATCH or PUT: the bounds announced in Content-Range, and the body. */
  datatype Request = Request(start: int, end: int, body: Bytes)

  // The buffer (ocimem).

  /** Buffer.Write */
  function BufferWrite(s: Server, data: Bytes): (r: (Server, bool)) {
    if s.checkStartOffset != -1 && |s.buf| != s.checkStartOffset then (s, false)
    else (s.(buf := s.buf + data, checkStartOffset := -1), true)
  }

  /** Registry.PushBlobChunkedResume on an existing session. */
  function Resume(s: Server, offset: int): Server {
    s.(checkStartOffset := offset)
  }

  /** Buffer.Cancel */
  function CancelUpload(s: Server): Server {
    s.(failed := true)
  }

  /** Buffer.Commit with the registry's commit function. */
  function BufferCommit(s: Server, hash: Bytes -> Digest, digest: Digest): (r: (Server, bool)) {
    if s.failed then (s, false)
    else if hash(s.buf) != digest then (s.(failed := true), false)
    else (s.(committed := true, blobs := s.blobs[digest := s.buf]), true)
  }

  // The handlers (ociserver).

  datatype Copied = Done | Refused | Broken

  /** io.Copy from a body of which only the first `got` bytes arrive. */
  function CopyBody(s: Server, body: Bytes, got: nat): (r: (Server, Copied)) {
    var received := if got < |body| then body[..got] else body;
    if received == [] then (s, if got < |body| then Broken else Done)
    else
      var (s', ok) := BufferWrite(s, received);
      (s', if !ok then Refused else if got < |body| then Broken else Done)
  }

  /** blobUploadPatch once the Content-Range has been parsed. */
  function PatchAt(s: Server, start: int, size: int, body: Bytes, got: nat): (r: (Server, Status)) {
    if |body| > 0 && |body| != size then (s, BadRequest)
    else
      var (s1, copied) := CopyBody(Resume(s, start), body, got);
      match copied
      case Refused => (s1, OutOfOrder)
      case Broken => (CancelUpload(s1), ServerError)
      case Done => (s1, Accepted)
  }

  /** blobUploadPatch */
  function Patch(s: Server, req: Request, got: nat): (r: (Server, Status)) {
    match Seen(req.start, req.end)
    case None => (s, BadRequest)
    case Some((start, _, size)) => PatchAt(s, start, size, req.body, got)
  }

  /** The part of blobUploadPut that appends a non-empty final body. */
  function PutBodyAt(s: Server, start: int, size: int, body: Bytes, got: nat): (r: (Server, Option<Status>)) {
    if |body| != size then (s, Some(BadRequest))
    else
      var (s1, copied) := CopyBody(Resume(s, start), body, got);
      match copied
      case Refused => (s1, Some(OutOfOrder))
      case Broken => (s1, Some(ServerError))
      case Done => (s1, None)
  }

  function PutBody(s: Server, req: Request, got: nat): (r: (Server, Option<Status>)) {
    if req.body == [] then (s, None)
    else
      match Seen(req.start, req.end)
      case None => (s, Some(BadRequest))
      case Some((start, _, size)) => PutBodyAt(s, start, size, req.body, got)
  }

  /** blobUploadPut */
  function Put(s: Server, hash: Bytes -> Digest, req: Request, digest: Digest, got: nat): (r: (Server, Status)) {
    var (s1, problem) := PutBody(s, req, got);
    if problem.Some? then (s1, problem.value)
    else
      var (s2, ok) := BufferCommit(Resume(s1, -1), hash, digest);
      (s2, if ok then Created else BadRequest)
  }

  /** blobUploadPut from the bounds of its body, or None when their header cannot
      be parsed. A streaming body has no Content-Length. */
  function PutWith(s: Server, hash: Bytes -> Digest, bounds: Option<(int, int)>, streaming: bool, body: Bytes,
                   digest: Digest, got: nat): (r: (Server, Status))
  {
    var (s1, problem) :=
      if !streaming && body == [] then (s, None)
      else if bounds.None? then (s, Some(BadRequest))
      else PutBodyAt(s, bounds.value.0, bounds.value.1, body, got);
    if problem.Some? then (s1, problem.value)
    else
      var (s2, ok) := BufferCommit(Resume(s1, -1), hash, digest);
      (s2, if ok then Created else BadRequest)
  }

  /** The handler of a PATCH, or of a PUT when there is a digest to commit. */
  function Handle(s: Server, hash: Bytes -> Digest, req: Request, commit: Option<Digest>, got: nat)
    : (r: (Server, Status))
  {
    if commit.Some? then Put(s, hash, req, commit.value, got) else Patch(s, req, got)
  }

  // The writer (ociclient).

  /** blobWriter.flush */
  function Flush(c: Client, s: Server, hash: Bytes -> Digest, buf: Bytes, commit: Option<Digest>, net: Net)
    : (r: (Client, Server, bool))
  {
    if commit.None? && |buf| + |c.chunk| == 0 then (c, s, true)
    else
      var body := c.chunk + buf;
      var req := Request(c.flushed, c.flushed + |body|, body);
      if !net.arrives then (c, s, false)
      else
        var (s1, status) := Handle(s, hash, req, commit, net.bodyBytes);
        if !net.replyArrives || status != (if commit.Some? then Created else Accepted) then (c, s1, false)
        else (c.(flushed := c.flushed + |body|, chunk := []), s1, true)
  }

  /** blobWriter.Write */
  function Write(c: Client, s: Server, hash: Bytes -> Digest, buf: Bytes, net: Net): (r: (Client, Server, bool)) {
    if |c.chunk| + |buf| > c.chunkSize then
      var (c1, s1, ok) := Flush(c, s, hash, buf, None, net);
      if !ok then (c1, s1, false) else (c1.(size := c1.size + |buf|), s1, true)
    else (c.(chunk := c.chunk + buf, size := c.size + |buf|), s, true)
  }

  /** blobWriter.Close */
  function Close(c: Client, s: Server, hash: Bytes -> Digest, net: Net): (r: (Client, Server, bool)) {
    if c.closed then (c, s, !c.closeFailed)
    else
      var (c1, s1, ok) := Flush(c, s, hash, [], None, net);
      (c1.(closed := true, closeFailed := !ok), s1, ok)
  }

  /** blobWriter.Commit */
  function Commit(c: Client, s: Server, hash: Bytes -> Digest, digest: Digest, net: Net): (r: (Client, Server, bool)) {
    Flush(c, s, hash, [], Some(digest), net)
  }

  /** The writer PushBlobChunkedResume makes for an offset. */
  function ResumedWriter(chunkSize: int, offset: int): Client {
    Client(chunkSize, [], offset, offset, false, false)
  }

  /** PushBlobChunkedResume with offset -1 through blobUploadGet. */
  function Recover(c: Client, s: Server, net: Net): (r: (Client, Server, bool)) {
    if !net.arrives then (c, s, false)
    else
      var s1 := Resume(s, -1);
      if !net.replyArrives then (c, s1, false)
      else (ResumedWriter(c.chunkSize, Recovered(|s.buf|)), s1, true)
  }

  // What a request can do to the buffer.

  /** The only change a request can make to the buffer: append a prefix of its
      body at exactly its announced start. */
  ghost predicate AppendsAtStart(before: Bytes, after: Bytes, start: int, body: Bytes) {
    before == after || (start == |before| && exists k: nat :: k <= |body| && after == before + body[..k])
  }

  lemma CopyAppends(s: Server, start: nat, body: Bytes, got: nat)
    ensures var (s1, copied) := CopyBody(Resume(s, start), body, got);
            && AppendsAtStart(s.buf, s1.buf, start, body)
            && (copied.Done? ==> s1.buf == s.buf + body && (body != [] ==> start == |s.buf|))
            && s1.blobs == s.blobs && s1.failed == s.failed
  {
    var received := if got < |body| then body[..got] else body;
    assert body[..|body|] == body;
    assert received == body[..|received|];
    assert s.buf + [] == s.buf;
  }

  lemma PatchAtAppends(s: Server, start: nat, body: Bytes, got: nat)
    requires body != []
    ensures var (s1, status) := PatchAt(s, start, |body|, body, got);
            && AppendsAtStart(s.buf, s1.buf, start, body)
            && (status == Accepted ==> s1.buf == s.buf + body && start == |s.buf|)
            && s1.blobs == s.blobs
  {
    CopyAppends(s, start, body, got);
  }

  lemma PatchAppends(s: Server, start: nat, body: Bytes, got: nat)
    requires body != []
    ensures var (s1, status) := Patch(s, Request(start, start + |body|, body), got);
            && AppendsAtStart(s.buf, s1.buf, start, body)
            && (status == Accepted ==> s1.buf == s.buf + body && start == |s.buf|)
            && s1.blobs == s.blobs
  {
    PatchAtAppends(s, start, body, got);
  }

  lemma PutBodyAtAppends(s: Server, start: nat, body: Bytes, got: nat)
    ensures var (s1, problem) := PutBodyAt(s, start, |body|, body, got);
            && AppendsAtStart(s.buf, s1.buf, start, body)
            && (problem.None? ==> s1.buf == s.buf + body && (body != [] ==> start == |s.buf|))
            && s1.blobs == s.blobs && problem != Some(Created)
  {
    CopyAppends(s, start, body, got);
  }

  lemma PutBodyAppends(s: Server, start: nat, body: Bytes, got: nat)
    ensures var (s1, problem) := PutBody(s, Request(start, start + |body|, body), got);
            && AppendsAtStart(s.buf, s1.buf, start, body)
            && (problem.None? ==> s1.buf == s.buf + body && (body != [] ==> start == |s.buf|))
            && s1.blobs == s.blobs && problem != Some(Created)
  {
    assert s.buf + [] == s.buf;
    if body != [] {
        PutBodyAtAppends(s, start, body, got);
    }
  }

  lemma PutAppends(s: Server, hash: Bytes -> Digest, start: nat, body: Bytes, digest: Digest, got: nat)
    ensures var (s1, status) := Put(s, hash, Request(start, start + |body|, body), digest, got);
            && AppendsAtStart(s.buf, s1.buf, start, body)
            && (status == Created ==> s1.buf == s.buf + body && (body != [] ==> start == |s.buf|) &&
                                      hash(s1.buf) == digest && s1.blobs == s.blobs[digest := s1.buf])
            && (status != Created ==> s1.blobs == s.blobs)
  {
    PutBodyAppends(s, start, body, got);
  }

  /** Either request appends at its start or nowhere, succeeds only when the
      whole body was appended, and stores only what it commits. */
  lemma HandleAppends(s: Server, hash: Bytes -> Digest, start: nat, body: Bytes, commit: Option<Digest>, got: nat)
    requires (commit.Some? || body != [])
    ensures var (s1, status) := Handle(s, hash, Request(start, start + |body|, body), commit, got);
            && AppendsAtStart(s.buf, s1.buf, start, body)
            && (status == Accepted || status == Created ==>
                  s1.buf == s.buf + body && (body != [] ==> start == |s.buf|))
            && (status == Created ==> commit.Some? && hash(s1.buf) == commit.value &&
                                      s1.blobs == s.blobs[commit.value := s1.buf])
            && (status != Created ==> s1.blobs == s.blobs)
  {
    if commit.Some? {
      PutAppends(s, hash, start, body, commit.value, got);
    } else {
      PatchAppends(s, start, body, got);
    }
  }

  /** No request takes effect twice: once the buffer has grown past the
      announced start of a non-empty request, repeating it changes nothing and
      is not acknowledged. */
  lemma StaleRequestIsRefused(s: Server, hash: Bytes -> Digest, start: nat, body: Bytes, digest: Digest, got: nat)
    requires body != [] && start < |s.buf|
    ensures var req := Request(start, start + |body|, body);
            && Patch(s, req, got).0.buf == s.buf && Patch(s, req, got).1 != Accepted
            && Put(s, hash, req, digest, got).0.buf == s.buf && Put(s, hash, req, digest, got).1 != Created
  {
    PatchAppends(s, start, body, got);
    PutAppends(s, hash, start, body, digest, got);
  }
}
