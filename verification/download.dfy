/** ocilarge/download.go: the parallel download pipeline, as a transition system. */
module Download {
  import opened Bytes

  const MAX_CONCURRENT: nat := 6

  /** One byte range still to be fetched, [start, end). */
  datatype Range = Range(start: nat, end: nat)

  function Size(r: Range): int { r.end - r.start }

  function Ranges(offset: nat, totalSize: nat, chunkSize: nat): seq<Range>
    requires chunkSize > 0
    decreases totalSize - offset
  {
    if offset >= totalSize then []
    else
      var end := Min(offset + chunkSize, totalSize);
      [Range(offset, end)] + Ranges(end, totalSize, chunkSize)
  }

  /** The loop that lists the remaining ranges. */
  method BuildChunks(probeLen: nat, totalSize: nat, chunkSize: nat) returns (chunks: seq<Range>)
    requires chunkSize > 0
    ensures chunks == Ranges(probeLen, totalSize, chunkSize)
  {
    chunks := [];
    var offset := probeLen;
    while offset < totalSize
      invariant chunks + Ranges(offset, totalSize, chunkSize) == Ranges(probeLen, totalSize, chunkSize)
      decreases totalSize - offset
    {
      var end := offset + chunkSize;
      if end > totalSize { end := totalSize; }
      chunks := chunks + [Range(offset, end)];
      offset := end;
    }
  }

  /** The ranges cover [from, to) exactly once and in order; none is empty. */
  predicate Tiles(chunks: seq<Range>, from: nat, to: nat) {
    if chunks == [] then from >= to
    else chunks[0].start == from < chunks[0].end <= to && Tiles(chunks[1..], chunks[0].end, to)
  }

  lemma {:induction false} RangesTile(offset: nat, totalSize: nat, chunkSize: nat)
    requires chunkSize > 0
    ensures Tiles(Ranges(offset, totalSize, chunkSize), offset, totalSize)
    ensures forall r :: r in Ranges(offset, totalSize, chunkSize) ==> 0 < Size(r) <= chunkSize
    decreases totalSize - offset
  {
    if offset < totalSize {
      RangesTile(Min(offset + chunkSize, totalSize), totalSize, chunkSize);
    }
  }

  // The state of one call of runPipeline and of the reader of its pipe.

  /** What a fetcher got: exactly the bytes asked for, or an error. */
  datatype Fetch = Ok(data: Bytes) | Failed

  /** A goroutine started by launchFetcher. */
  datatype Phase = Fetching | Sending(result: Fetch) | Finished
  datatype Fetcher = Fetcher(chunk: nat, phase: Phase)

  /** A result channel of capacity one. Channel id belongs to fetcher id. */
  datatype Channel = Empty | Holding(result: Fetch)

  /** How the write side of the pipe was closed; the first close wins. */
  datatype Pipe = Open | Eof | Error

  /** Where runPipeline is. */
  datatype Pc =
    | Probing(rest: Bytes)           // in pw.Write(probeData), rest not yet read
    | Launching(k: nat)              // seeding the window
    | Draining(i: nat)               // in the select for chunk i
    | Writing(i: nat, rest: Bytes)   // in pw.Write for chunk i
    | Waiting                        // in wg.Wait()
    | Returned

  datatype Config = Config(totalSize: nat, probe: Bytes, chunks: seq<Range>)

  datatype State = State(
    pc: Pc,
    nextLaunch: nat,
    slots: seq<Option<nat>>,
    channels: seq<Channel>,
    fetchers: seq<Fetcher>,
    pipe: Pipe,
    readerClosed: bool,
    cancelled: bool,
    delivered: Bytes,        // everything the reader of the pipe has received
    drained: seq<Bytes>)     // the chunk data taken from the slots so far

  datatype Step =
    | ReaderReads(n: nat)
    | ReaderCloses
    | CallerCancels
    | ProbeWritten
    | WriteFails
    | Launch
    | Receive
    | SeeCancel
    | ChunkWritten
    | WaitOver
    | FetchReturns(id: nat, result: Fetch)
    | Send(id: nat)

  ghost predicate ValidConfig(c: Config) {
    0 < |c.probe| <= c.totalSize && Tiles(c.chunks, |c.probe|, c.totalSize)
  }

  function Init(c: Config): State {
    State(Probing(c.probe), 0, seq(MAX_CONCURRENT, _ => None), [], [], Open, false, false, [], [])
  }

  function Window(c: Config): nat {
    if MAX_CONCURRENT < |c.chunks| then MAX_CONCURRENT else |c.chunks|
  }

  /** pw.Close and pw.CloseWithError: a pipe that is closed stays as it is. */
  function Close(p: Pipe, how: Pipe): Pipe {
    if p == Open then how else p
  }

  function Pending(s: State): Bytes {
    match s.pc
    case Probing(rest) => rest
    case Writing(_, rest) => rest
    case _ => []
  }

  predicate Enabled(c: Config, s: State, step: Step) {
    match step
    case ReaderReads(n) => !s.readerClosed && 0 < n <= |Pending(s)|
    case ReaderCloses => !s.readerClosed
    case CallerCancels => !s.cancelled
    case ProbeWritten => s.pc == Probing([])
    case WriteFails => s.readerClosed && |Pending(s)| > 0
    case Launch => s.pc.Launching?
    case Receive =>
      && s.pc.Draining?
      && |s.slots| == MAX_CONCURRENT
      && var slot := s.slots[s.pc.i % MAX_CONCURRENT];
         slot.Some? && slot.value < |s.channels| && s.channels[slot.value].Holding?
    case SeeCancel => s.pc.Draining? && s.cancelled
    case ChunkWritten => s.pc.Writing? && s.pc.rest == []
    case WaitOver => s.pc.Waiting? && forall f :: f in s.fetchers ==> f.phase.Finished?
    case FetchReturns(id, result) =>
      && id < |s.fetchers| && s.fetchers[id].phase.Fetching?
      && s.fetchers[id].chunk < |c.chunks|
      && (result.Ok? ==> |result.data| == Size(c.chunks[s.fetchers[id].chunk]))
    case Send(id) =>
      id < |s.fetchers| && id < |s.channels| && s.fetchers[id].phase.Sending? && s.channels[id].Empty?
  }

  /** launchFetcher(k): a fresh channel and goroutine, stored in the ring. */
  function LaunchFetcher(s: State, k: nat): State
    requires |s.slots| == MAX_CONCURRENT
  {
    s.(slots := s.slots[k % MAX_CONCURRENT := Some(|s.channels|)],
       channels := s.channels + [Empty],
       fetchers := s.fetchers + [Fetcher(k, Fetching)])
  }

  /** Each error path of the drain loop: cancel, CloseWithError, wg.Wait. */
  function GiveUp(s: State): State {
    s.(pc := Waiting, cancelled := true, pipe := Close(s.pipe, Error))
  }

  /** The deferred pw.Close and cancel. */
  function Return(s: State): State {
    s.(pc := Returned, cancelled := true, pipe := Close(s.pipe, Eof))
  }

  function Apply(c: Config, s: State, step: Step): State
    requires Enabled(c, s, step) && |s.slots| == MAX_CONCURRENT
  {
    match step
    case ReaderReads(n) =>
      var rest := Pending(s);
      s.(delivered := s.delivered + rest[..n],
         pc := if s.pc.Probing? then Probing(rest[n..]) else Writing(s.pc.i, rest[n..]))
    case ReaderCloses => s.(readerClosed := true)
    case CallerCancels => s.(cancelled := true)
    case ProbeWritten =>
      if |c.probe| >= c.totalSize then Return(s) else s.(pc := Launching(0))
    case WriteFails =>
      if s.pc.Probing? then Return(s.(cancelled := true, pipe := Close(s.pipe, Error))) else GiveUp(s)
    case Launch =>
      if s.pc.k < Window(c) then LaunchFetcher(s, s.pc.k).(pc := Launching(s.pc.k + 1))
      else s.(pc := Draining(0), nextLaunch := Window(c))
    case Receive =>
      var i := s.pc.i;
      var id := s.slots[i % MAX_CONCURRENT].value;
      var result := s.channels[id].result;
      var s1 := s.(channels := s.channels[id := Empty], slots := s.slots[i % MAX_CONCURRENT := None]);
      if result.Failed? then GiveUp(s1)
      else s1.(pc := Writing(i, result.data), drained := s.drained + [result.data])
    case SeeCancel => GiveUp(s)
    case ChunkWritten =>
      var s1 := if s.nextLaunch < |c.chunks|
                then LaunchFetcher(s, s.nextLaunch).(nextLaunch := s.nextLaunch + 1) else s;
      s1.(pc := if s.pc.i + 1 < |c.chunks| then Draining(s.pc.i + 1) else Waiting)
    case WaitOver => Return(s)
    case FetchReturns(id, result) =>
      s.(fetchers := s.fetchers[id := s.fetchers[id].(phase := Sending(result))])
    case Send(id) =>
      s.(channels := s.channels[id := Holding(s.fetchers[id].phase.result)],
         fetchers := s.fetchers[id := s.fetchers[id].(phase := Finished)])
  }

  // The invariant.

  /** The chunks in [first, launched) sit in their slots, each in the channel
      that was made for it. */
  predicate SlotsHold(s: State, first: nat) {
    && |s.slots| == MAX_CONCURRENT
    && first <= |s.channels| <= first + MAX_CONCURRENT
    && forall j :: first <= j < |s.channels| ==> s.slots[j % MAX_CONCURRENT] == Some(j)
  }

  predicate RightSize(c: Config, chunk: nat, result: Fetch)
    requires chunk < |c.chunks|
  {
    result.Ok? ==> |result.data| == Size(c.chunks[chunk])
  }

  /** A fetcher that has not finished has an empty channel, so its send cannot
      block. Below lo the result was taken; from hi on a finished fetcher has
      left its result. */
  predicate FetcherOk(c: Config, id: nat, f: Fetcher, ch: Channel, lo: nat, hi: nat)
    requires id < |c.chunks|
  {
    && f.chunk == id
    && (id < lo ==> f.phase.Finished? && ch.Empty?)
    && match f.phase {
         case Fetching => ch.Empty?
         case Sending(result) => ch.Empty? && RightSize(c, id, result)
         case Finished => (id >= hi ==> ch.Holding?) && (ch.Holding? ==> RightSize(c, id, ch.result))
       }
  }

  predicate FetchersOk(c: Config, fetchers: seq<Fetcher>, channels: seq<Channel>, lo: nat, hi: nat) {
    && |channels| == |fetchers| <= |c.chunks|
    && forall id :: 0 <= id < |fetchers| ==> FetcherOk(c, id, fetchers[id], channels[id], lo, hi)
  }

  predicate DrainedSizes(c: Config, s: State) {
    |s.drained| <= |c.chunks| && forall i :: 0 <= i < |s.drained| ==> |s.drained[i]| == Size(c.chunks[i])
  }

  /** The bytes handed to the pipe: the probe, then the drained chunks in order. */
  function Written(c: Config, s: State): Bytes {
    c.probe + Flat(s.drained)
  }

  function Launched(c: Config, i: nat): nat {
    if i + MAX_CONCURRENT < |c.chunks| then i + MAX_CONCURRENT else |c.chunks|
  }

  predicate AllFinished(s: State) {
    forall f :: f in s.fetchers ==> f.phase.Finished?
  }

  /** What each program point guarantees. */
  predicate AtPc(c: Config, s: State) {
    match s.pc
    case Probing(rest) => s.pipe == Open && s.channels == [] && s.drained == [] && s.delivered + rest == c.probe
    case Launching(k) =>
      s.pipe == Open && |s.channels| == k <= Window(c) && SlotsHold(s, 0) &&
        FetchersOk(c, s.fetchers, s.channels, 0, 0) &&
      s.drained == [] && s.delivered == c.probe && |c.chunks| > 0
    case Draining(i) =>
      s.pipe == Open && i < |c.chunks| && |s.drained| == i && s.delivered == Written(c, s) &&
      |s.channels| == s.nextLaunch == Launched(c, i) && SlotsHold(s, i) && FetchersOk(c, s.fetchers, s.channels, i, i)
    case Writing(i, rest) =>
      s.pipe == Open && i < |c.chunks| && |s.drained| == i + 1 && s.delivered + rest == Written(c, s) &&
      |s.channels| == s.nextLaunch == Launched(c, i) && SlotsHold(s, i + 1) &&
        FetchersOk(c, s.fetchers, s.channels, i + 1, i + 1)
    case Waiting =>
      || (s.pipe == Error && s.delivered <= Written(c, s))
      || (s.pipe == Open && s.delivered == Written(c, s) && |s.drained| == |c.chunks|)
    case Returned =>
      && AllFinished(s)
      && (|| (s.pipe == Error && s.delivered <= Written(c, s))
          || (s.pipe == Eof && s.delivered == Written(c, s) && |s.drained| == |c.chunks|))
  }

  predicate Inv(c: Config, s: State) {
    && |s.slots| == MAX_CONCURRENT
    && DrainedSizes(c, s)
    && FetchersOk(c, s.fetchers, s.channels, |s.drained|, |s.fetchers|)
    && |s.fetchers| <= |s.drained| + MAX_CONCURRENT
    && AtPc(c, s)
  }

  lemma InitInv(c: Config)
    requires ValidConfig(c)
    ensures Inv(c, Init(c))
  {
  }

  /** Every step of every interleaving keeps the invariant. */
  lemma StepKeepsInv(c: Config, s: State, step: Step)
    requires ValidConfig(c) && Inv(c, s) && Enabled(c, s, step)
    ensures Inv(c, Apply(c, s, step))
  {
    match step {
      case ReaderReads(n) => ReadKeepsInv(c, s, n);
      case ReaderCloses => FlagKeepsInv(c, s, step);
      case CallerCancels => FlagKeepsInv(c, s, step);
      case ProbeWritten => ProbeWrittenKeepsInv(c, s);
      case WriteFails => FailureKeepsInv(c, s, step);
      case Launch => LaunchKeepsInv(c, s);
      case Receive => ReceiveKeepsInv(c, s);
      case SeeCancel => FailureKeepsInv(c, s, step);
      case ChunkWritten => ChunkWrittenKeepsInv(c, s);
      case WaitOver => WaitOverKeepsInv(c, s);
      case FetchReturns(id, result) => FetcherKeepsInv(c, s, step, id);
      case Send(id) => FetcherKeepsInv(c, s, step, id);
    }
  }

  lemma ReadKeepsInv(c: Config, s: State, n: nat)
    requires ValidConfig(c) && Inv(c, s) && Enabled(c, s, ReaderReads(n))
    ensures Inv(c, Apply(c, s, ReaderReads(n)))
  {
    var rest := Pending(s);
    assert (s.delivered + rest[..n]) + rest[n..] == s.delivered + rest;
  }

  lemma FlagKeepsInv(c: Config, s: State, step: Step)
    requires ValidConfig(c) && Inv(c, s) && Enabled(c, s, step)
    requires step.ReaderCloses? || step.CallerCancels?
    ensures Inv(c, Apply(c, s, step))
  {
    var t := Apply(c, s, step);
    assert AtPc(c, t) == AtPc(c, s);
  }

  lemma ProbeWrittenKeepsInv(c: Config, s: State)
    requires ValidConfig(c) && Inv(c, s) && Enabled(c, s, ProbeWritten)
    ensures Inv(c, Apply(c, s, ProbeWritten))
  {
    assert Flat([]) == [];
    assert c.probe + [] == c.probe;
    assert s.delivered + [] == s.delivered;
  }

  lemma FailureKeepsInv(c: Config, s: State, step: Step)
    requires ValidConfig(c) && Inv(c, s) && Enabled(c, s, step)
    requires step.WriteFails? || step.SeeCancel?
    ensures Inv(c, Apply(c, s, step))
  {
    assert s.delivered <= s.delivered + Pending(s);
    if s.pc.Probing? {
      assert Flat([]) == [];
      assert c.probe + [] == c.probe;
    }
  }

  lemma WaitOverKeepsInv(c: Config, s: State)
    requires ValidConfig(c) && Inv(c, s) && Enabled(c, s, WaitOver)
    ensures Inv(c, Apply(c, s, WaitOver))
  {
  }

  /** Within one window the ring positions are different. */
  lemma RingIsInjective(i: nat, j: nat)
    requires i < j < i + MAX_CONCURRENT
    ensures i % MAX_CONCURRENT != j % MAX_CONCURRENT
  {
  }

  lemma TakenOk(c: Config, s: State, i: nat)
    requires FetchersOk(c, s.fetchers, s.channels, i, i) && i < |s.channels| && s.channels[i].Holding?
    ensures RightSize(c, i, s.channels[i].result)
    ensures FetchersOk(c, s.fetchers, s.channels[i := Empty], i + 1, i + 1)
    ensures FetchersOk(c, s.fetchers, s.channels[i := Empty], i, |s.fetchers|)
    ensures FetchersOk(c, s.fetchers, s.channels[i := Empty], i + 1, |s.fetchers|)
  {
    assert FetcherOk(c, i, s.fetchers[i], s.channels[i], i, i);
  }

  lemma TakenSlots(s: State, i: nat)
    requires SlotsHold(s, i) && i < |s.channels|
    ensures SlotsHold(s.(channels := s.channels[i := Empty], slots := s.slots[i % MAX_CONCURRENT := None]), i + 1)
  {
    forall j | i + 1 <= j < |s.channels|
      ensures s.slots[i % MAX_CONCURRENT := None][j % MAX_CONCURRENT] == Some(j)
    {
      RingIsInjective(i, j);
    }
  }

  /** The state after the result of chunk i has left its channel and slot. */
  function Taken(s: State, i: nat): State
    requires |s.slots| == MAX_CONCURRENT && i < |s.channels|
  {
    s.(channels := s.channels[i := Empty], slots := s.slots[i % MAX_CONCURRENT := None])
  }

  /** Draining chunk i takes the result from the channel made for chunk i. */
  lemma ReceiveEffect(c: Config, s: State)
    requires Inv(c, s) && Enabled(c, s, Receive)
    ensures var i := s.pc.i;
            && i < |s.channels| && s.channels[i].Holding? && s.fetchers[i].chunk == i
            && s.slots[i % MAX_CONCURRENT] == Some(i)
            && Apply(c, s, Receive) ==
               if s.channels[i].result.Failed? then GiveUp(Taken(s, i))
               else Taken(s, i).(pc := Writing(i, s.channels[i].result.data),
                                 drained := s.drained + [s.channels[i].result.data])
  {
    var i := s.pc.i;
    assert s.slots[i % MAX_CONCURRENT] == Some(i);
    assert FetcherOk(c, i, s.fetchers[i], s.channels[i], i, i);
  }

  lemma DrainedInv(c: Config, s: State, data: Bytes)
    requires Inv(c, s) && s.pc.Draining? && s.pc.i < |s.channels| && s.channels[s.pc.i] == Holding(Ok(data))
    ensures Inv(c, Taken(s, s.pc.i).(pc := Writing(s.pc.i, data), drained := s.drained + [data]))
  {
    var i := s.pc.i;
    TakenOk(c, s, i);
    TakenSlots(s, i);
    FlatSnoc(s.drained, data);
    assert s.delivered + data == c.probe + (Flat(s.drained) + data);
  }

  lemma ReceiveKeepsInv(c: Config, s: State)
    requires ValidConfig(c) && Inv(c, s) && Enabled(c, s, Receive)
    ensures Inv(c, Apply(c, s, Receive))
  {
    ReceiveEffect(c, s);
    var i := s.pc.i;
    if s.channels[i].result.Ok? {
      DrainedInv(c, s, s.channels[i].result.data);
    } else {
      TakenOk(c, s, i);
    }
  }

  lemma LaunchedOk(c: Config, s: State, lo: nat, hi: nat)
    requires FetchersOk(c, s.fetchers, s.channels, lo, hi) && lo <= |s.fetchers| < |c.chunks|
    ensures FetchersOk(c, s.fetchers + [Fetcher(|s.fetchers|, Fetching)], s.channels + [Empty], lo, hi)
    ensures FetchersOk(c, s.fetchers + [Fetcher(|s.fetchers|, Fetching)], s.channels + [Empty], lo, |s.fetchers| + 1)
  {
  }

  lemma LaunchedSlots(s: State, first: nat)
    requires SlotsHold(s, first) && |s.channels| < first + MAX_CONCURRENT
    ensures SlotsHold(LaunchFetcher(s, |s.channels|), first)
  {
    var k := |s.channels|;
    forall j | first <= j < k ensures s.slots[k % MAX_CONCURRENT := Some(k)][j % MAX_CONCURRENT] == Some(j) {
      RingIsInjective(j, k);
    }
  }

  lemma LaunchKeepsInv(c: Config, s: State)
    requires ValidConfig(c) && Inv(c, s) && Enabled(c, s, Launch)
    ensures Inv(c, Apply(c, s, Launch))
  {
    assert Flat([]) == [];
    if s.pc.k < Window(c) {
      LaunchedSlots(s, 0);
      LaunchedOk(c, s, 0, 0);
    }
  }

  lemma ChunkWrittenKeepsInv(c: Config, s: State)
    requires ValidConfig(c) && Inv(c, s) && Enabled(c, s, ChunkWritten)
    ensures Inv(c, Apply(c, s, ChunkWritten))
  {
    assert s.delivered + s.pc.rest == s.delivered;
    if s.nextLaunch < |c.chunks| {
      LaunchedSlots(s, s.pc.i + 1);
      LaunchedOk(c, s, s.pc.i + 1, s.pc.i + 1);
    }
  }

  lemma FetcherKeepsInv(c: Config, s: State, step: Step, id: nat)
    requires ValidConfig(c) && Inv(c, s) && Enabled(c, s, step)
    requires (step.FetchReturns? || step.Send?) && step.id == id
    ensures Inv(c, Apply(c, s, step))
  {
    var t := Apply(c, s, step);
    assert s.fetchers[id] in s.fetchers;
    assert FetcherOk(c, id, s.fetchers[id], s.channels[id], |s.drained|, |s.fetchers|);
    forall lo, hi | FetchersOk(c, s.fetchers, s.channels, lo, hi)
      ensures FetchersOk(c, t.fetchers, t.channels, lo, hi)
    {
      assert FetcherOk(c, id, s.fetchers[id], s.channels[id], lo, hi);
    }
  }
}
