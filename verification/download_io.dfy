/** ocilarge/download.go: fetching one range, sizing chunks, and the verifying reader. */
module DownloadIO {
  import opened Bytes
  import opened Download

  const MAX_RETRIES: nat := 3
  const MIB: nat := 1024 * 1024
  const MIN_CHUNK_SIZE: nat := 4 * MIB
  const MAX_CHUNK_SIZE: nat := 256 * MIB

  /** What one attempt of fetchRange meets. */
  datatype Attempt =
    | ContextDone                                            // ctx.Err() before the request
    | NoReader                                               // GetBlobRange fails
    | Body(content: Bytes, readFails: bool, closeFails: bool) // the body the server sends

  /** The attempt delivers the range: a clean body of at least size bytes. */
  predicate Good(a: Attempt, size: nat) {
    a.Body? && !a.readFails && !a.closeFails && |a.content| >= size
  }

  predicate FirstGood(attempts: seq<Attempt>, size: nat, k: nat)
    requires k < |attempts|
  {
    Good(attempts[k], size) && forall j :: 0 <= j < k ==> !Good(attempts[j], size) && !attempts[j].ContextDone?
  }

  /** fetchRange: the first good attempt wins, and exactly the requested number
      of bytes is returned however long the body is. */
  method FetchRange(r: Range, attempts: seq<Attempt>) returns (result: Fetch)
    requires r.start <= r.end && |attempts| == MAX_RETRIES
    ensures result.Ok? <==> exists k :: 0 <= k < MAX_RETRIES && FirstGood(attempts, Size(r), k)
    ensures forall k :: 0 <= k < MAX_RETRIES && FirstGood(attempts, Size(r), k) ==>
              result == Ok(attempts[k].content[..Size(r)])
  {
    var size := Size(r);
    for i := 0 to MAX_RETRIES
      invariant forall j :: 0 <= j < i ==> !Good(attempts[j], size) && !attempts[j].ContextDone?
    {
      match attempts[i] {
        case ContextDone => return Failed;
        case NoReader => continue;
        case Body(content, readFails, closeFails) =>
          var data := content[..Min(|content|, size)];   // io.LimitReader
          if readFails { continue; }
          if closeFails { continue; }
          if |data| != size { continue; }
          assert FirstGood(attempts, size, i);
          return Ok(data);
      }
    }
    return Failed;
  }

  /** deriveChunkSize over the reals; int64 conversion truncates. */
  function DeriveChunkSize(probeBytes: nat, elapsedSeconds: real): (size: nat)
    ensures MIN_CHUNK_SIZE <= size <= MAX_CHUNK_SIZE
    ensures elapsedSeconds > 0.0 && MIN_CHUNK_SIZE < size ==>
              size as real * elapsedSeconds <= 2.0 * probeBytes as real
  {
    if elapsedSeconds <= 0.0 then MAX_CHUNK_SIZE
    else
      var perTarget := probeBytes as real / elapsedSeconds * 2.0;
      var cs := perTarget.Floor;
      assert perTarget * elapsedSeconds == 2.0 * probeBytes as real;
      assert cs as real <= perTarget;
      if cs < MIN_CHUNK_SIZE then MIN_CHUNK_SIZE
      else if cs > MAX_CHUNK_SIZE then
        Scaled(MAX_CHUNK_SIZE as real, perTarget, elapsedSeconds);
        MAX_CHUNK_SIZE
      else
        Scaled(cs as real, perTarget, elapsedSeconds);
        cs
  }

  lemma Scaled(a: real, b: real, t: real)
    requires a <= b && t > 0.0
    ensures a * t <= b * t
  {
  }

  /** What one Read of the underlying pipe reports besides its bytes. */
  datatype ReadEnd = More | End | Broken

  datatype ReadError = NoError | CleanEof | Upstream | SizeInvalid | DigestMismatch

  class BlobReader<Digest(==)> {
    const hash: Bytes -> Digest
    const size: nat
    const digest: Digest
    const verify: bool
    var n: nat
    var seen: Bytes      // what the digester has been fed

    ghost predicate Valid()
      reads this
    {
      n == |seen|
    }

    constructor (hash: Bytes -> Digest, size: nat, digest: Digest, verify: bool)
      ensures Valid() && seen == []
      ensures this.hash == hash && this.size == size && this.digest == digest && this.verify == verify
    {
      this.hash, this.size, this.digest, this.verify := hash, size, digest, verify;
      n, seen := 0, [];
    }

    /** Read: all bytes are passed on and hashed; a clean EOF is reported only
        for content of the announced size and digest. */
    method Read(data: Bytes, end: ReadEnd) returns (err: ReadError)
      requires Valid()
      modifies this
      ensures Valid() && seen == old(seen) + data
      ensures err == CleanEof <==> end.End? && (verify ==> |seen| == size && hash(seen) == digest)
      ensures err == NoError <==> end.More? && |seen| <= size
      ensures err == Upstream <==> end.Broken?
      ensures err == SizeInvalid <==> (end.More? && |seen| > size) || (end.End? && verify && |seen| != size)
      ensures err == DigestMismatch <==> end.End? && verify && |seen| == size && hash(seen) != digest
    {
      n := n + |data|;
      seen := seen + data;
      if end.More? {
        if n > size { return SizeInvalid; }
        return NoError;
      }
      if !end.End? { return Upstream; }
      if !verify { return CleanEof; }
      if n != size { return SizeInvalid; }
      if hash(seen) != digest { return DigestMismatch; }
      return CleanEof;
    }
  }
}
