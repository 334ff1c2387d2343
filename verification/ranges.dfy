/** Byte ranges on the wire: Content-Range of uploads (ociclient/writer.go,
    ociserver/blobuploads.go) and Range of blob reads (ociclient/reader.go,
    ociserver/blobs.go, ocimem/reader.go). */
module Ranges {
  import opened Bytes
  import opened Text
  import opened Decimal

  // Uploads.

  /** ociclient contentRange: [start, end) in inclusive form. */
  function ContentRange(start: int, end: int): string {
    var last := if end - 1 < 0 then 0 else end - 1;
    Itoa(start) + "-" + Itoa(last)
  }

  /** ociclient parseContentRange */
  function ParseContentRange(s: string): Option<(int, int)> {
    var (p0s, p1s, ok) := Cut(s, '-');
    var p0, p1 := ParseInt(p0s), ParseInt(p1s);
    if !ok || p0.None? || p1.None? then None
    else Some((p0.value, if p1.value > 0 then p1.value + 1 else p1.value))
  }

  /** ociserver parseRange: (start, end exclusive, size). */
  function ParseRange(contentRange: string): Option<(int, int, int)> {
    ParsePair(Cut(TrimPrefix(contentRange, "bytes "), '/').0)
  }

  function ParsePair(body: string): Option<(int, int, int)> {
    var (first, last, ok) := Cut(body, '-');
    if ok then CheckedBounds(ParseInt(first), ParseInt(last)) else None
  }

  function CheckedBounds(start: Option<int>, end: Option<int>): Option<(int, int, int)> {
    if start.None? || end.None? then None
    else if start.value < 0 || end.value < 0 || end.value < start.value then None
    else Some((start.value, end.value + 1, end.value - start.value + 1))
  }

  /** Two printed numbers around a dash, as the parsers see them. */
  lemma TextPair(first: string, last: string, a: int, b: int)
    requires '-' !in first && ParseInt(first) == Some(a) && ParseInt(last) == Some(b)
    ensures Cut(first + "-" + last, '-') == (first, last, true)
    ensures ParsePair(first + "-" + last) == CheckedBounds(Some(a), Some(b))
    ensures ParseContentRange(first + "-" + last) == Some((a, if b > 0 then b + 1 else b))
  {
    assert first + "-" + last == first + ['-'] + last;
    CutAt(first, '-', last);
  }

  /** Such a pair has no unit to trim and no total to cut off. */
  lemma TextPairIsBare(first: string, last: string)
    requires first != [] && first[0] != 'b' && '/' !in first && '/' !in last
    ensures ParseRange(first + "-" + last) == ParsePair(first + "-" + last)
  {
    var s := first + "-" + last;
    assert s[0] == first[0] && "bytes "[0] == 'b';
    assert TrimPrefix(s, "bytes ") == s;
    assert '/' !in s;
    assert Cut(s, '/').0 == s;
  }

  lemma DigitsParse(first: string, last: string, a: int, b: int)
    requires first != [] && first[0] != 'b' && '/' !in first && '/' !in last && '-' !in first
    requires ParseInt(first) == Some(a) && ParseInt(last) == Some(b)
    ensures ParseRange(first + "-" + last) == CheckedBounds(Some(a), Some(b))
  {
    TextPair(first, last, a, b);
    TextPairIsBare(first, last);
  }

  lemma PairParses(a: int, b: int, text: string)
    requires 0 <= a < LIMIT && 0 <= b < LIMIT && text == Itoa(a) + "-" + Itoa(b)
    ensures ParseRange(text) == if b < a then None else Some((a, b + 1, b - a + 1))
  {
    PrintedHasOnlyDigits(a);
    PrintedHasOnlyDigits(b);
    ParsePrinted(a);
    ParsePrinted(b);
    DigitsParse(Itoa(a), Itoa(b), a, b);
  }

  /** An announced range that starts below zero is refused. */
  lemma NegativeStartIsRefused(start: int, end: int)
    requires -LIMIT <= start < 0
    ensures ParseRange(ContentRange(start, end)) == None
  {
    var s := ContentRange(start, end);
    assert s[0] == '-';
    assert TrimPrefix(s, "bytes ") == s;
    var body := Cut(s, '/').0;
    assert body == [] || body[0] == '-';
    assert Cut(body, '-').0 == [];
  }

  /** What parseRange makes of the text that contentRange writes. */
  function Seen(start: int, end: int): Option<(int, int, int)> {
    if start < 0 then None
    else if start < end then Some((start, end, end - start))
    else if start == 0 then Some((0, 1, 1))
    else None
  }

  /** Seen is the round trip through the header text, for empty and refused
      ranges too. */
  lemma SeenThroughTheWire(start: int, end: int)
    requires -LIMIT <= start <= end < LIMIT
    ensures ParseRange(ContentRange(start, end)) == Seen(start, end)
  {
    if start < 0 {
      NegativeStartIsRefused(start, end);
    } else if end == 0 {
      PairParses(0, 0, ContentRange(start, end));
    } else {
      PairParses(start, end - 1, ContentRange(start, end));
    }
  }

  /** The Range header of blobUploadGet for an upload of the given size. */
  function UploadStatusRange(size: nat): string {
    Itoa(0) + "-" + Itoa(size - 1)
  }

  function Recovered(size: nat): int {
    if size >= 2 then size else size - 1
  }

  /** PushBlobChunkedResume with offset -1 recovers the server's size exactly
      when the server holds at least two bytes: no byte reads back as -1 and one
      byte as 0. */
  lemma RecoveredOffset(size: nat)
    requires size < LIMIT
    ensures ParseContentRange(UploadStatusRange(size)) == Some((0, Recovered(size)))
    ensures Recovered(size) == size <==> size >= 2
  {
    PrintedHasOnlyDigits(0);
    ParsePrinted(0);
    ParsePrinted(size - 1);
    TextPair(Itoa(0), Itoa(size - 1), 0, size - 1);
  }

  // Reading a range of a blob.

  datatype RangeReply = Partial(first: int, last: int, total: int, body: Bytes) | Whole(body: Bytes) | NotSatisfiable

  /** ociclient GetBlobRange: the Range header, empty when the whole blob is asked for. */
  function RangeHeader(o0: int, o1: int): string {
    if o0 == 0 && o1 < 0 then ""
    else if o1 < 0 then "bytes=" + Itoa(o0) + "-"
    else "bytes=" + Itoa(o0) + "-" + Itoa(o1 - 1)
  }

  /** ocimem GetBlobRange */
  function BackendRange(data: Bytes, o0: int, o1: int): Option<Bytes> {
    var end := if o1 < 0 || o1 > |data| then |data| else o1;
    if o0 < 0 || o0 > end then None else Some(data[o0..end])
  }

  /** The range in the header's text, before it is compared with the blob:
      None when it does not parse. ei is None when the end is left open. */
  function ParseHeader(rh: string, size: int): (r: Option<(int, int)>)
    ensures r.Some? ==> r.value.0 >= 0
  {
    if !("bytes=" <= rh) then None
    else
      var (rangeStart, rangeEnd, _) := Cut(TrimPrefix(rh, "bytes="), '-');
      ParseBounds(rangeStart, rangeEnd, size)
  }

  function ParseBounds(rangeStart: string, rangeEnd: string, size: int): (r: Option<(int, int)>)
    ensures r.Some? ==> r.value.0 >= 0
  {
    if rangeStart == "" then
      var suffix := ParseInt(rangeEnd);
      if suffix.None? || suffix.value < 0 then None
      else Some((if size - suffix.value < 0 then 0 else size - suffix.value, size - 1))
    else
      var bi, ei := ParseInt(rangeStart), ParseInt(rangeEnd);
      if bi.None? || bi.value < 0 then None
      else if rangeEnd == "" then Some((bi.value, size - 1))
      else if ei.None? || ei.value < 0 then None
      else Some((bi.value, ei.value))
  }

  /** The last part of blobHeadGet: clamp to the blob, refuse what is left empty. */
  function Clamped(data: Bytes, bi: int, ei: int): RangeReply {
    var last := if ei >= |data| then |data| - 1 else ei;
    if bi < 0 || bi >= |data| || last < bi then NotSatisfiable
    else Partial(bi, last, |data|, data[bi..last + 1])
  }

  function Serve(data: Bytes, rh: string): RangeReply {
    if rh == "" then Whole(data) else ServeRange(data, ParseHeader(rh, |data|))
  }

  function ServeRange(data: Bytes, range: Option<(int, int)>): RangeReply {
    match range
    case None => NotSatisfiable
    case Some((bi, ei)) => Clamped(data, bi, ei)
  }

  /** The first half of the Range handling in ociserver blobHeadGet. */
  method ReadRange(rh: string, size: int) returns (r: Option<(int, int)>)
    ensures r == ParseHeader(rh, size)
  {
    if !("bytes=" <= rh) { return None; }
    var (rangeStart, rangeEnd, _) := Cut(TrimPrefix(rh, "bytes="), '-');
    r := ReadBounds(rangeStart, rangeEnd, size);
  }

  method ReadBounds(rangeStart: string, rangeEnd: string, size: int) returns (r: Option<(int, int)>)
    ensures r == ParseBounds(rangeStart, rangeEnd, size)
  {
    var bi, ei := 0, 0;
    if rangeStart == "" {
      var suffixLen := ParseInt(rangeEnd);
      if suffixLen.None? || suffixLen.value < 0 { return None; }
      bi := size - suffixLen.value;
      if bi < 0 { bi := 0; }
      ei := size - 1;
    } else {
      var start := ParseInt(rangeStart);
      if start.None? || start.value < 0 { return None; }
      bi := start.value;
      if rangeEnd == "" {
        ei := size - 1;
      } else {
        var end := ParseInt(rangeEnd);
        if end.None? || end.value < 0 { return None; }
        ei := end.value;
      }
    }
    return Some((bi, ei));
  }

  /** The GET branch of ociserver blobHeadGet. Every partial reply lies inside
      the blob and carries exactly the announced bytes. */
  method BlobGet(data: Bytes, rh: string) returns (reply: RangeReply)
    ensures reply == Serve(data, rh)
    ensures reply.Partial? ==>
              && 0 <= reply.first <= reply.last < |data| == reply.total
              && reply.body == data[reply.first..reply.last + 1]
              && |reply.body| == reply.last - reply.first + 1
  {
    if rh == "" { return Whole(data); }
    var parsed := ReadRange(rh, |data|);
    reply := ReplyRange(data, parsed);
  }

  /** The second half: clamp, refuse what is left empty, read and reply. */
  method ReplyRange(data: Bytes, parsed: Option<(int, int)>) returns (reply: RangeReply)
    requires parsed.Some? ==> parsed.value.0 >= 0
    ensures reply == ServeRange(data, parsed)
    ensures !reply.Whole?
    ensures reply.Partial? ==>
              && 0 <= reply.first <= reply.last < |data| == reply.total
              && reply.body == data[reply.first..reply.last + 1]
              && |reply.body| == reply.last - reply.first + 1
  {
    if parsed.None? { return NotSatisfiable; }
    var (bi, ei) := parsed.value;
    if ei >= |data| { ei := |data| - 1; }
    if bi >= |data| { return NotSatisfiable; }
    if ei < bi { return NotSatisfiable; }
    var body := BackendRange(data, bi, ei + 1);
    return Partial(bi, ei, |data|, body.value);
  }

  /** What the header of GetBlobRange means to the server. */
  lemma HeaderReadsBack(o0: int, o1: int, size: nat)
    requires 0 <= o0 < LIMIT && o1 < LIMIT && (o1 < 0 || 0 < o1)
    requires o0 > 0 || o1 > 0
    ensures RangeHeader(o0, o1) != ""
    ensures ParseHeader(RangeHeader(o0, o1), size) == Some((o0, if o1 < 0 then size - 1 else o1 - 1))
  {
    var first, last := Itoa(o0), if o1 < 0 then "" else Itoa(o1 - 1);
    PrintedHasOnlyDigits(o0);
    TextHeader(first, last);
    BoundsReadBack(o0, o1, size);
    assert RangeHeader(o0, o1) == "bytes=" + first + "-" + last;
  }

  lemma BoundsReadBack(o0: int, o1: int, size: nat)
    requires 0 <= o0 < LIMIT && o1 < LIMIT && (o1 < 0 || 0 < o1)
    ensures ParseBounds(Itoa(o0), if o1 < 0 then "" else Itoa(o1 - 1), size) ==
            Some((o0, if o1 < 0 then size - 1 else o1 - 1))
  {
    PrintedHasOnlyDigits(o0);
    ParsePrinted(o0);
    if o1 > 0 {
      ParsePrinted(o1 - 1);
      PrintedHasOnlyDigits(o1 - 1);
    }
  }

  lemma TextHeader(first: string, last: string)
    requires '-' !in first
    ensures "bytes=" <= "bytes=" + first + "-" + last
    ensures Cut(TrimPrefix("bytes=" + first + "-" + last, "bytes="), '-') == (first, last, true)
  {
    assert "bytes=" + first + "-" + last == "bytes=" + (first + ['-'] + last);
    CutAt(first, '-', last);
  }

  lemma InsideIsServed(data: Bytes, range: Option<(int, int)>, bi: int, ei: int, end: int)
    requires range == Some((bi, ei))
    requires 0 <= bi <= ei && end == Min(ei + 1, |data|) && bi < end
    ensures ServeRange(data, range) == Partial(bi, end - 1, |data|, data[bi..end])
  {
  }

  lemma HeaderIsServed(data: Bytes, rh: string, range: Option<(int, int)>)
    requires rh != "" && ParseHeader(rh, |data|) == range
    ensures Serve(data, rh) == ServeRange(data, range)
  {
  }

  lemma InsideThroughServer(data: Bytes, rh: string, bi: int, ei: int, end: int)
    requires rh != "" && ParseHeader(rh, |data|) == Some((bi, ei))
    requires 0 <= bi <= ei && end == Min(ei + 1, |data|) && bi < end
    ensures Serve(data, rh) == Partial(bi, end - 1, |data|, data[bi..end])
  {
    HeaderIsServed(data, rh, Some((bi, ei)));
    InsideIsServed(data, Some((bi, ei)), bi, ei, end);
  }

  lemma PartThroughServer(data: Bytes, o0: int, o1: int, end: int)
    requires |data| < LIMIT && o1 < LIMIT
    requires end == if o1 < 0 then |data| else Min(o1, |data|)
    requires 0 <= o0 < end && !(o0 == 0 && o1 < 0)
    ensures Serve(data, RangeHeader(o0, o1)) == Partial(o0, end - 1, |data|, data[o0..end])
  {
    var ei := if o1 < 0 then |data| - 1 else o1 - 1;
    HeaderReadsBack(o0, o1, |data|);
    InsideThroughServer(data, RangeHeader(o0, o1), o0, ei, end);
  }

  /** From client to back end and back: GetBlobRange(o0, o1) through the server
      gives data[o0..min(o1, size)], where a negative o1 stands for the end. */
  lemma RangeThroughServer(data: Bytes, o0: int, o1: int, end: int)
    requires |data| < LIMIT && o1 < LIMIT
    requires end == if o1 < 0 then |data| else Min(o1, |data|)
    requires 0 <= o0 < end
    ensures var reply := Serve(data, RangeHeader(o0, o1));
            !reply.NotSatisfiable? && reply.body == data[o0..end]
  {
    if o0 == 0 && o1 < 0 {
      assert data[0..|data|] == data;
    } else {
      PartThroughServer(data, o0, o1, end);
    }
  }

  lemma OutsideIsRefused(data: Bytes, bi: int, ei: int)
    requires 0 <= bi
    ensures ServeRange(data, Some((bi, ei))).NotSatisfiable? <==> bi >= |data| || ei < bi
  {
  }

  /** The header for a range that ends before the first byte does not parse. */
  lemma EmptyHeaderIsRefused(o0: int, size: nat)
    requires 0 <= o0 < LIMIT
    ensures RangeHeader(o0, 0) != "" && ParseHeader(RangeHeader(o0, 0), size) == None
  {
    PrintedHasOnlyDigits(o0);
    ParsePrinted(o0);
    ParsePrinted(-1);
    TextHeader(Itoa(o0), Itoa(-1));
    assert RangeHeader(o0, 0) == "bytes=" + Itoa(o0) + "-" + Itoa(-1);
  }

  /** A range is refused exactly when it is empty or starts at the end of the blob
      or past it; the whole of a blob never is. */
  lemma RefusedThroughServer(data: Bytes, o0: int, o1: int)
    requires |data| < LIMIT && 0 <= o0 < LIMIT && o1 < LIMIT
    ensures Serve(data, RangeHeader(o0, o1)).NotSatisfiable? <==>
            !(o0 == 0 && o1 < 0) && (o0 >= |data| || 0 <= o1 <= o0)
  {
    if o1 == 0 {
      EmptyHeaderIsRefused(o0, |data|);
      HeaderIsServed(data, RangeHeader(o0, o1), None);
    } else if !(o0 == 0 && o1 < 0) {
      var ei := if o1 < 0 then |data| - 1 else o1 - 1;
      HeaderReadsBack(o0, o1, |data|);
      HeaderIsServed(data, RangeHeader(o0, o1), Some((o0, ei)));
      OutsideIsRefused(data, o0, ei);
    }
  }

  /** A suffix request of n bytes gets the last min(n, size) bytes. */
  lemma SuffixThroughServer(data: Bytes, n: nat, first: nat)
    requires 0 < n < LIMIT && 0 < |data| < LIMIT
    requires first == if n < |data| then |data| - n else 0
    ensures Serve(data, "bytes=-" + Itoa(n)) == Partial(first, |data| - 1, |data|, data[first..])
  {
    ParsePrinted(n);
    TextHeader("", Itoa(n));
    assert "bytes=-" + Itoa(n) == "bytes=" + "" + "-" + Itoa(n);
    assert Clamped(data, first, |data| - 1) == Partial(first, |data| - 1, |data|, data[first..|data|]);
  }
}
