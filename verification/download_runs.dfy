/** What holds over whole runs of the download pipeline. */
module DownloadRuns {
  import opened Bytes
  import opened Download
  import opened Ordering

  /** The steps lead from s to t, each enabled where it is taken. */
  ghost predicate Run(c: Config, s: State, steps: seq<Step>, t: State)
    decreases |steps|
  {
    if steps == [] then s == t
    else |s.slots| == MAX_CONCURRENT && Enabled(c, s, steps[0]) && Run(c, Apply(c, s, steps[0]), steps[1..], t)
  }

  lemma {:induction false} RunKeepsInv(c: Config, s: State, steps: seq<Step>, t: State)
    requires ValidConfig(c) && Inv(c, s) && Run(c, s, steps, t)
    ensures Inv(c, t)
    decreases |steps|
  {
    if steps != [] {
      StepKeepsInv(c, s, steps[0]);
      RunKeepsInv(c, Apply(c, s, steps[0]), steps[1..], t);
    }
  }

  // Cancelling the fetches.

  /** called says whether the caller has cancelled. */
  predicate CancelledWhen(s: State, called: bool) {
    s.cancelled <==> called || s.pipe == Error || s.pc.Returned?
  }

  lemma StepCancels(c: Config, s: State, step: Step, called: bool)
    requires Inv(c, s) && Enabled(c, s, step) && CancelledWhen(s, called)
    ensures CancelledWhen(Apply(c, s, step), called || step.CallerCancels?)
  {
  }

  lemma {:induction false} RunCancels(c: Config, s: State, steps: seq<Step>, t: State, called: bool)
    requires ValidConfig(c) && Inv(c, s) && Run(c, s, steps, t) && CancelledWhen(s, called)
    ensures CancelledWhen(t, called || CallerCancels in steps)
    decreases |steps|
  {
    if steps != [] {
      StepKeepsInv(c, s, steps[0]);
      StepCancels(c, s, steps[0], called);
      RunCancels(c, Apply(c, s, steps[0]), steps[1..], t, called || steps[0].CallerCancels?);
      assert steps == [steps[0]] + steps[1..];
    }
  }

  /** In every reachable state the fetches are cancelled exactly when the caller
      has cancelled, the pipe was closed with an error, or runPipeline has
      returned; so one that waits for its fetchers after an error has cancelled
      them. */
  lemma CancelledExactly(c: Config, steps: seq<Step>, t: State)
    requires ValidConfig(c) && Run(c, Init(c), steps, t)
    ensures t.cancelled <==> CallerCancels in steps || t.pipe == Error || t.pc.Returned?
  {
    InitInv(c);
    RunCancels(c, Init(c), steps, t, false);
  }

  // Memory.

  /** Chunks whose fetch is running or whose result is still buffered. */
  function InFlight(s: State): set<nat>
    requires |s.channels| == |s.fetchers|
  {
    set id: nat | 0 <= id < |s.fetchers| && (!s.fetchers[id].phase.Finished? || s.channels[id].Holding?)
  }

  /** At any time at most MAX_CONCURRENT chunks are in flight or buffered. */
  lemma WindowBound(c: Config, s: State)
    requires Inv(c, s)
    ensures |InFlight(s)| <= MAX_CONCURRENT
  {
    var lo := |s.drained|;
    var window := {lo, lo + 1, lo + 2, lo + 3, lo + 4, lo + 5};
    forall id | id in InFlight(s) ensures id in window {
      assert FetcherOk(c, id, s.fetchers[id], s.channels[id], lo, |s.fetchers|);
    }
    SubsetIsNoLarger(InFlight(s), window);
  }

  // Order and completeness.

  lemma {:induction false} TilesAdjacent(chunks: seq<Range>, from: nat, to: nat, i: nat)
    requires Tiles(chunks, from, to) && i < |chunks|
    ensures chunks[i].start == (if i == 0 then from else chunks[i - 1].end)
    ensures chunks[i].start < chunks[i].end <= to
    ensures i == |chunks| - 1 ==> chunks[i].end == to
    decreases |chunks|
  {
    if i > 0 {
      TilesAdjacent(chunks[1..], chunks[0].end, to, i - 1);
    }
  }

  /** How far into the blob the probe and the first n chunks reach. */
  function Reach(c: Config, n: nat): nat
    requires n <= |c.chunks|
  {
    if n == 0 then |c.probe| else c.chunks[n - 1].end
  }

  lemma {:induction false} WrittenLength(c: Config, drained: seq<Bytes>)
    requires ValidConfig(c) && |drained| <= |c.chunks|
    requires forall i :: 0 <= i < |drained| ==> |drained[i]| == Size(c.chunks[i])
    ensures |c.probe + Flat(drained)| == Reach(c, |drained|)
  {
    if drained != [] {
      var n := |drained| - 1;
      WrittenLength(c, drained[..n]);
      TilesAdjacent(c.chunks, |c.probe|, c.totalSize, n);
    }
  }

  lemma ReachesTheEnd(c: Config)
    requires ValidConfig(c)
    ensures Reach(c, |c.chunks|) == c.totalSize
  {
    if c.chunks != [] {
      TilesAdjacent(c.chunks, |c.probe|, c.totalSize, |c.chunks| - 1);
    }
  }

  /** A clean EOF comes only after every byte has been delivered, and a pipe
      never delivers more than the blob holds. */
  lemma EofMeansComplete(c: Config, s: State)
    requires ValidConfig(c) && Inv(c, s)
    ensures |s.delivered| <= c.totalSize
    ensures s.pipe == Eof ==> |s.delivered| == c.totalSize
  {
    WrittenLength(c, s.drained);
    ReachesTheEnd(c);
    if s.drained != [] {
      TilesAdjacent(c.chunks, |c.probe|, c.totalSize, |s.drained| - 1);
    }
    match s.pc {
      case Probing(rest) => assert |s.delivered + rest| == |c.probe|;
      case Writing(i, rest) => assert |s.delivered + rest| == |Written(c, s)|;
      case _ =>
    }
  }

  // An honest registry.

  predicate HonestResult(c: Config, blob: Bytes, chunk: nat, result: Fetch) {
    && chunk < |c.chunks|
    && c.chunks[chunk].start <= c.chunks[chunk].end <= |blob|
    && (result.Ok? ==> result.data == blob[c.chunks[chunk].start..c.chunks[chunk].end])
  }

  /** Successful fetches return the bytes of the blob. */
  predicate HonestStep(c: Config, blob: Bytes, s: State, step: Step) {
    step.FetchReturns? && step.id < |s.fetchers| ==> HonestResult(c, blob, s.fetchers[step.id].chunk, step.result)
  }

  ghost predicate HonestRun(c: Config, blob: Bytes, s: State, steps: seq<Step>, t: State)
    decreases |steps|
  {
    if steps == [] then s == t
    else
      && |s.slots| == MAX_CONCURRENT && Enabled(c, s, steps[0]) && HonestStep(c, blob, s, steps[0])
      && HonestRun(c, blob, Apply(c, s, steps[0]), steps[1..], t)
  }

  predicate HonestAt(c: Config, blob: Bytes, f: Fetcher, ch: Channel) {
    && (f.phase.Sending? ==> HonestResult(c, blob, f.chunk, f.phase.result))
    && (ch.Holding? ==> HonestResult(c, blob, f.chunk, ch.result))
  }

  predicate HonestState(c: Config, blob: Bytes, s: State) {
    && |s.channels| == |s.fetchers|
    && (forall id :: 0 <= id < |s.fetchers| ==> HonestAt(c, blob, s.fetchers[id], s.channels[id]))
    && (forall i :: 0 <= i < |s.drained| ==> HonestResult(c, blob, i, Ok(s.drained[i])))
  }

  lemma StepStaysHonest(c: Config, blob: Bytes, s: State, step: Step)
    requires ValidConfig(c) && Inv(c, s) && HonestState(c, blob, s)
    requires Enabled(c, s, step) && HonestStep(c, blob, s, step)
    ensures HonestState(c, blob, Apply(c, s, step))
  {
    match step {
      case Receive => ReceiveStaysHonest(c, blob, s);
      case FetchReturns(id, _) => FetcherStaysHonest(c, blob, s, step, id);
      case Send(id) => FetcherStaysHonest(c, blob, s, step, id);
      case _ => OtherStaysHonest(c, blob, s, step);
    }
  }

  lemma ReceiveStaysHonest(c: Config, blob: Bytes, s: State)
    requires ValidConfig(c) && Inv(c, s) && HonestState(c, blob, s) && Enabled(c, s, Receive)
    ensures HonestState(c, blob, Apply(c, s, Receive))
  {
    ReceiveEffect(c, s);
    assert HonestAt(c, blob, s.fetchers[s.pc.i], s.channels[s.pc.i]);
  }

  lemma FetcherStaysHonest(c: Config, blob: Bytes, s: State, step: Step, id: nat)
    requires ValidConfig(c) && Inv(c, s) && HonestState(c, blob, s)
    requires Enabled(c, s, step) && HonestStep(c, blob, s, step)
    requires (step.FetchReturns? || step.Send?) && step.id == id
    ensures HonestState(c, blob, Apply(c, s, step))
  {
    var t := Apply(c, s, step);
    assert HonestAt(c, blob, s.fetchers[id], s.channels[id]);
    assert FetcherOk(c, id, s.fetchers[id], s.channels[id], |s.drained|, |s.fetchers|);
    assert HonestAt(c, blob, t.fetchers[id], t.channels[id]);
  }

  lemma OtherStaysHonest(c: Config, blob: Bytes, s: State, step: Step)
    requires ValidConfig(c) && Inv(c, s) && HonestState(c, blob, s) && Enabled(c, s, step)
    requires !step.Receive? && !step.FetchReturns? && !step.Send?
    ensures HonestState(c, blob, Apply(c, s, step))
  {
  }

  lemma {:induction false} HonestlyWritten(c: Config, blob: Bytes, drained: seq<Bytes>)
    requires ValidConfig(c) && c.totalSize == |blob| && c.probe == blob[..|c.probe|] && |drained| <= |c.chunks|
    requires forall i :: 0 <= i < |drained| ==> HonestResult(c, blob, i, Ok(drained[i]))
    ensures Reach(c, |drained|) <= |blob|
    ensures c.probe + Flat(drained) == blob[..Reach(c, |drained|)]
  {
    if drained != [] {
      var n := |drained| - 1;
      HonestlyWritten(c, blob, drained[..n]);
      TilesAdjacent(c.chunks, |c.probe|, c.totalSize, n);
      assert HonestResult(c, blob, n, Ok(drained[n]));
      NextPiece(blob, c.probe, Flat(drained[..n]), c.chunks[n].start, c.chunks[n].end);
    }
  }

  lemma NextPiece(blob: Bytes, probe: Bytes, before: Bytes, start: nat, end: nat)
    requires start <= end <= |blob| && probe + before == blob[..start]
    ensures probe + (before + blob[start..end]) == blob[..end]
  {
    assert probe + (before + blob[start..end]) == (probe + before) + blob[start..end];
  }

  lemma {:induction false} HonestRunKeeps(c: Config, blob: Bytes, s: State, steps: seq<Step>, t: State)
    requires ValidConfig(c) && Inv(c, s) && HonestState(c, blob, s) && HonestRun(c, blob, s, steps, t)
    ensures Inv(c, t) && HonestState(c, blob, t)
    decreases |steps|
  {
    if steps != [] {
      StepKeepsInv(c, s, steps[0]);
      StepStaysHonest(c, blob, s, steps[0]);
      HonestRunKeeps(c, blob, Apply(c, s, steps[0]), steps[1..], t);
    }
  }

  /** In every interleaving the reader has received a prefix of the blob, and
      after a clean EOF the whole blob. */
  lemma ReaderGetsThePrefix(c: Config, blob: Bytes, steps: seq<Step>, t: State)
    requires ValidConfig(c) && c.totalSize == |blob| && c.probe == blob[..|c.probe|]
    requires HonestRun(c, blob, Init(c), steps, t)
    ensures t.delivered <= blob
    ensures t.pipe == Eof ==> t.delivered == blob
  {
    InitInv(c);
    HonestRunKeeps(c, blob, Init(c), steps, t);
    HonestlyWritten(c, blob, t.drained);
    DeliveredIsPrefix(c, t);
    ReachesTheEnd(c);
    assert blob[..|blob|] == blob;
  }

  lemma DeliveredIsPrefix(c: Config, s: State)
    requires Inv(c, s)
    ensures s.delivered <= Written(c, s)
    ensures s.pipe == Eof ==> s.delivered == Written(c, s) && |s.drained| == |c.chunks|
  {
    assert Flat([]) == [] && c.probe + [] == c.probe;
    match s.pc {
      case Probing(rest) => assert s.delivered <= s.delivered + rest;
      case Writing(i, rest) => assert s.delivered <= s.delivered + rest;
      case _ =>
    }
  }

  // Errors.

  /** The steps at which the pipeline learns that the download cannot complete. */
  predicate Fails(c: Config, s: State, step: Step) {
    match step
    case WriteFails => true
    case SeeCancel => true
    case Receive =>
      Enabled(c, s, Receive) && s.channels[s.slots[s.pc.i % MAX_CONCURRENT].value].result.Failed?
    case _ => false
  }

  ghost predicate SomeStepFails(c: Config, s: State, steps: seq<Step>)
    decreases |steps|
  {
    steps != [] && |s.slots| == MAX_CONCURRENT && Enabled(c, s, steps[0]) &&
    (Fails(c, s, steps[0]) || SomeStepFails(c, Apply(c, s, steps[0]), steps[1..]))
  }

  /** The deferred pw.Close never hides a failure: a finished run ends the pipe
      with an error exactly when some step failed, else with a clean EOF. */
  lemma {:induction false} OutcomeIsReported(c: Config, s: State, steps: seq<Step>, t: State)
    requires ValidConfig(c) && Inv(c, s) && Run(c, s, steps, t) && t.pc.Returned?
    ensures t.pipe == Error <==> s.pipe == Error || SomeStepFails(c, s, steps)
    ensures t.pipe != Error ==> t.pipe == Eof
    decreases |steps|
  {
    if steps != [] {
      var u := Apply(c, s, steps[0]);
      StepKeepsInv(c, s, steps[0]);
      OutcomeIsReported(c, u, steps[1..], t);
      assert u.pipe == Error <==> s.pipe == Error || Fails(c, s, steps[0]);
    }
  }

  // Progress and termination.

  /** Unless the pipeline has returned, it can take a step that is not a
      cancellation: no fetcher, send or write is ever stuck, as long as the
      reader of the pipe either reads or closes it. */
  lemma Progress(c: Config, s: State) returns (step: Step)
    requires ValidConfig(c) && Inv(c, s) && !s.pc.Returned?
    ensures Enabled(c, s, step) && !step.CallerCancels? && !step.ReaderCloses?
  {
    match s.pc {
      case Probing(rest) =>
        step := if rest == [] then ProbeWritten else if s.readerClosed then WriteFails else ReaderReads(|rest|);
      case Launching(k) => step := Launch;
      case Draining(i) =>
        assert s.slots[i % MAX_CONCURRENT] == Some(i);
        assert FetcherOk(c, i, s.fetchers[i], s.channels[i], i, i);
        step := match s.fetchers[i].phase
                case Fetching => FetchReturns(i, Failed)
                case Sending(_) => Send(i)
                case Finished => Receive;
      case Writing(i, rest) =>
        step := if rest == [] then ChunkWritten else if s.readerClosed then WriteFails else ReaderReads(|rest|);
      case Waiting =>
        if AllFinished(s) {
          step := WaitOver;
        } else {
          var id :| 0 <= id < |s.fetchers| && !s.fetchers[id].phase.Finished?;
          assert FetcherOk(c, id, s.fetchers[id], s.channels[id], |s.drained|, |s.fetchers|);
          step := if s.fetchers[id].phase.Fetching? then FetchReturns(id, Failed) else Send(id);
        }
    }
  }

  function FetcherWork(f: Fetcher): nat {
    match f.phase
    case Fetching => 2
    case Sending(_) => 1
    case Finished => 0
  }

  function TotalWork(fs: seq<Fetcher>): nat {
    if fs == [] then 0 else TotalWork(fs[..|fs| - 1]) + FetcherWork(fs[|fs| - 1])
  }

  lemma {:induction false} WorkAfterUpdate(fs: seq<Fetcher>, id: nat, f: Fetcher)
    requires id < |fs|
    ensures TotalWork(fs[id := f]) == TotalWork(fs) - FetcherWork(fs[id]) + FetcherWork(f)
  {
    var n := |fs| - 1;
    if id < n {
      assert fs[id := f][..n] == fs[..n][id := f];
      WorkAfterUpdate(fs[..n], id, f);
    } else {
      assert fs[id := f][..n] == fs[..n];
    }
  }

  lemma WorkAfterLaunch(fs: seq<Fetcher>, f: Fetcher)
    ensures TotalWork(fs + [f]) == TotalWork(fs) + FetcherWork(f)
  {
    assert (fs + [f])[..|fs|] == fs;
  }

  /** Steps that runPipeline itself still has to take, at most. */
  function MainWork(c: Config, pc: Pc): int {
    var n := |c.chunks|;
    match pc
    case Probing(_) => Window(c) + 2 * n + 4
    case Launching(k) => Window(c) - k + 2 * n + 3
    case Draining(i) => 2 * (n - i) + 2
    case Writing(i, _) => 2 * (n - i) + 1
    case Waiting => 1
    case Returned => 0
  }

  function Measure(c: Config, s: State): int {
    (if s.cancelled then 0 else 1) + (if s.readerClosed then 0 else 1) +
    (c.totalSize - |s.delivered|) + 3 * (|c.chunks| - |s.fetchers|) + TotalWork(s.fetchers) + MainWork(c, s.pc)
  }

  lemma StepDecreasesMeasure(c: Config, s: State, step: Step)
    requires ValidConfig(c) && Inv(c, s) && Enabled(c, s, step)
    ensures 0 <= Measure(c, s) && 0 <= Measure(c, Apply(c, s, step)) < Measure(c, s)
  {
    StepKeepsInv(c, s, step);
    MeasureIsNatural(c, s);
    MeasureIsNatural(c, Apply(c, s, step));
    match step {
      case Launch => LaunchDecreases(c, s);
      case ChunkWritten => ChunkWrittenDecreases(c, s);
      case Receive => ReceiveDecreases(c, s);
      case FetchReturns(id, _) => FetcherDecreases(c, s, step, id);
      case Send(id) => FetcherDecreases(c, s, step, id);
      case _ => OtherDecreases(c, s, step);
    }
  }

  lemma MeasureIsNatural(c: Config, s: State)
    requires ValidConfig(c) && Inv(c, s)
    ensures Measure(c, s) >= 0
  {
    EofMeansComplete(c, s);
  }

  lemma LaunchDecreases(c: Config, s: State)
    requires ValidConfig(c) && Inv(c, s) && Enabled(c, s, Launch)
    ensures Measure(c, Apply(c, s, Launch)) < Measure(c, s)
  {
    WorkAfterLaunch(s.fetchers, Fetcher(s.pc.k, Fetching));
  }

  lemma ChunkWrittenDecreases(c: Config, s: State)
    requires ValidConfig(c) && Inv(c, s) && Enabled(c, s, ChunkWritten)
    ensures Measure(c, Apply(c, s, ChunkWritten)) < Measure(c, s)
  {
    WorkAfterLaunch(s.fetchers, Fetcher(s.nextLaunch, Fetching));
  }

  lemma ReceiveDecreases(c: Config, s: State)
    requires ValidConfig(c) && Inv(c, s) && Enabled(c, s, Receive)
    ensures Measure(c, Apply(c, s, Receive)) < Measure(c, s)
  {
    ReceiveEffect(c, s);
  }

  lemma FetcherDecreases(c: Config, s: State, step: Step, id: nat)
    requires ValidConfig(c) && Inv(c, s) && Enabled(c, s, step)
    requires (step.FetchReturns? || step.Send?) && step.id == id
    ensures Measure(c, Apply(c, s, step)) < Measure(c, s)
  {
    WorkAfterUpdate(s.fetchers, id, Apply(c, s, step).fetchers[id]);
  }

  lemma OtherDecreases(c: Config, s: State, step: Step)
    requires ValidConfig(c) && Inv(c, s) && Enabled(c, s, step)
    requires !step.Launch? && !step.ChunkWritten? && !step.Receive? && !step.FetchReturns? && !step.Send?
    ensures Measure(c, Apply(c, s, step)) < Measure(c, s)
  {
  }

  /** Every run ends: its length is bounded before it starts. */
  lemma {:induction false} RunsAreBounded(c: Config, s: State, steps: seq<Step>, t: State)
    requires ValidConfig(c) && Inv(c, s) && Run(c, s, steps, t)
    ensures |steps| <= Measure(c, s) - Measure(c, t)
    decreases |steps|
  {
    if steps != [] {
      StepDecreasesMeasure(c, s, steps[0]);
      StepKeepsInv(c, s, steps[0]);
      RunsAreBounded(c, Apply(c, s, steps[0]), steps[1..], t);
    }
  }

  /** A run that cannot go on has returned, its pipe is closed and no fetcher
      goroutine is left, on every exit path. */
  lemma StuckMeansFinished(c: Config, steps: seq<Step>, t: State)
    requires ValidConfig(c) && Run(c, Init(c), steps, t)
    requires forall step :: Enabled(c, t, step) ==> step.CallerCancels? || step.ReaderCloses?
    ensures t.pc.Returned? && t.pipe != Open && AllFinished(t)
  {
    InitInv(c);
    RunKeepsInv(c, Init(c), steps, t);
    if !t.pc.Returned? {
      var step := Progress(c, t);
    }
  }
}
