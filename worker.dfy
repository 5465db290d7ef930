/**
  `ConvertThread.run`: convert the queued files one after another, reporting
  progress `(i, total)` after the i-th file and completion after the last. An
  exception from a file ends the run: the files after it are not touched and no
  completion is reported.
*/
module Worker {

  import opened Wrappers
  import opened PosixPath
  import opened Conversion

  /** A signal the thread emits. */
  datatype Event = Progress(current: nat, total: nat) | Completed

  /** The disk after a run, how many files were converted, and the exception that ended it early. */
  datatype BatchOutcome = BatchOutcome(files: Files, processed: nat, failure: Option<Failure>)

  /** The targets of a queue of sources. */
  function Targets(sources: seq<Path>, outputFolder: Path): (ts: seq<Target>)
    ensures |ts| == |sources|
    decreases |sources|
  {
    if sources == [] then [] else [TargetOf(outputFolder, sources[0])] + Targets(sources[1..], outputFolder)
  }

  /** The i-th target is the i-th source's. */
  lemma {:induction false} TargetsAt(sources: seq<Path>, outputFolder: Path, i: nat)
    requires i < |sources|
    ensures Targets(sources, outputFolder)[i] == TargetOf(outputFolder, sources[i])
    decreases i
  {
    if i > 0 {
      TargetsAt(sources[1..], outputFolder, i - 1);
    }
  }

  /** Converting the targets in order, stopping at the first exception. */
  function RunBatch(files: Files, ts: seq<Target>, decoder: Decoder): (b: BatchOutcome)
    ensures b.processed <= |ts|
    ensures b.failure.None? <==> b.processed == |ts|
    decreases |ts|
  {
    if ts == [] then BatchOutcome(files, 0, None)
    else match TargetStep(files, ts[0], decoder)
      case Err(e) => BatchOutcome(files, 0, Some(e))
      case Ok(s) =>
        var rest := RunBatch(s.files, ts[1..], decoder);
        rest.(processed := rest.processed + 1)
  }

  /** A run seen from `k` files later. */
  function Shift(b: BatchOutcome, k: nat): BatchOutcome
  {
    b.(processed := b.processed + k)
  }

  /** `progress(1, total)`, ..., `progress(k, total)`. */
  function ProgressEvents(k: nat, total: nat): (es: seq<Event>)
    ensures |es| == k
    ensures forall i :: 0 <= i < k ==> es[i] == Progress(i + 1, total)
  {
    if k == 0 then [] else ProgressEvents(k - 1, total) + [Progress(k, total)]
  }

  /** The signals a run emits: one progress per converted file, then completion unless it aborted. */
  function Trace(total: nat, b: BatchOutcome): seq<Event>
  {
    ProgressEvents(b.processed, total) + (if b.failure.None? then [Completed] else [])
  }

  /** One more progress signal extends the sequence. */
  lemma ProgressEventsGrow(k: nat, total: nat)
    ensures ProgressEvents(k + 1, total) == ProgressEvents(k, total) + [Progress(k + 1, total)]
  {
  }

  /** The run of the targets from index `i` on, by its first step. */
  lemma RunBatchFrom(files: Files, ts: seq<Target>, i: nat, decoder: Decoder)
    requires i < |ts|
    ensures RunBatch(files, ts[i..], decoder) ==
      match TargetStep(files, ts[i], decoder)
      case Err(e) => BatchOutcome(files, 0, Some(e))
      case Ok(s) => Shift(RunBatch(s.files, ts[i + 1..], decoder), 1)
  {
    assert ts[i..][0] == ts[i] && ts[i..][1..] == ts[i + 1..];
  }

  /** The loop's step: the run so far, extended by the i-th file. */
  lemma Advance(start: Files, before: Files, ts: seq<Target>, i: nat, decoder: Decoder)
    requires i < |ts|
    requires RunBatch(start, ts, decoder) == Shift(RunBatch(before, ts[i..], decoder), i)
    ensures var step := TargetStep(before, ts[i], decoder);
      && (step.Err? ==> RunBatch(start, ts, decoder) == BatchOutcome(before, i, Some(step.error)))
      && (step.Ok? ==> RunBatch(start, ts, decoder) == Shift(RunBatch(step.value.files, ts[i + 1..], decoder), i + 1))
  {
    RunBatchFrom(before, ts, i, decoder);
  }

  /** Running a queue in two pieces: the second piece starts from the first piece's disk. */
  lemma {:induction false} SplitRun(files: Files, ps: seq<Target>, qs: seq<Target>, decoder: Decoder)
    ensures RunBatch(files, ps + qs, decoder) ==
      var a := RunBatch(files, ps, decoder);
      if a.failure.Some? then a else Shift(RunBatch(a.files, qs, decoder), |ps|)
    decreases |ps|
  {
    if ps == [] {
      assert ps + qs == qs;
    } else {
      assert (ps + qs)[0] == ps[0];
      assert (ps + qs)[1..] == ps[1..] + qs;
      match TargetStep(files, ps[0], decoder)
      case Err(e) =>
      case Ok(s) =>
        SplitRun(s.files, ps[1..], qs, decoder);
    }
  }

  /** A run that finishes emits `total` progress signals in order, then one completion. */
  lemma CompletedRun(files: Files, ts: seq<Target>, decoder: Decoder)
    requires RunBatch(files, ts, decoder).failure.None?
    ensures var t := Trace(|ts|, RunBatch(files, ts, decoder));
      && |t| == |ts| + 1
      && t[|ts|] == Completed
      && (forall i :: 0 <= i < |ts| ==> t[i] == Progress(i + 1, |ts|))
  {
  }

  /**
    A run that aborts at the k-th file has converted exactly the files before it,
    left the disk as they left it, emitted k progress signals and no completion,
    and the k-th file is the one that raised the exception.
  */
  lemma {:induction false} AbortedRun(files: Files, ts: seq<Target>, decoder: Decoder)
    requires RunBatch(files, ts, decoder).failure.Some?
    ensures var b := RunBatch(files, ts, decoder);
      var k := b.processed;
      && k < |ts|
      && RunBatch(files, ts[..k], decoder) == BatchOutcome(b.files, k, None)
      && TargetStep(b.files, ts[k], decoder) == Err(b.failure.value)
      && Trace(|ts|, b) == ProgressEvents(k, |ts|)
      && Completed !in Trace(|ts|, b)
    decreases |ts|
  {
    var b := RunBatch(files, ts, decoder);
    var k := b.processed;
    match TargetStep(files, ts[0], decoder)
    case Err(e) =>
      assert ts[..0] == [];
    case Ok(s) =>
      AbortedRun(s.files, ts[1..], decoder);
      assert ts[..k][0] == ts[0];
      assert ts[..k][1..] == ts[1..][..k - 1];
    assert Trace(|ts|, b) == ProgressEvents(k, |ts|);
  }

  /** The worker thread with its queue and output folder. */
  class ConvertThread {
    const files: seq<Path>
    const outputFolder: Path

    constructor (files: seq<Path>, outputFolder: Path)
      ensures this.files == files && this.outputFolder == outputFolder
    {
      this.files := files;
      this.outputFolder := outputFolder;
    }

    /**
      `run`: the events it emits, and the exception that ended it early, are those
      of `RunBatch` on the disk it started from.
    */
    method Run(fs: FileSystem, decoder: Decoder) returns (events: seq<Event>, failure: Option<Failure>)
      modifies fs
      ensures var b := RunBatch(old(fs.files), Targets(files, outputFolder), decoder);
        fs.files == b.files && failure == b.failure && events == Trace(|files|, b)
    {
      ghost var start := fs.files;
      ghost var ts := Targets(files, outputFolder);
      var total := |files|;
      events := [];
      var i := 0;
      while i < total
        invariant 0 <= i <= total
        invariant events == ProgressEvents(i, total)
        invariant RunBatch(start, ts, decoder) == Shift(RunBatch(fs.files, ts[i..], decoder), i)
      {
        ghost var before := fs.files;
        var r := ExtractThumbnail(fs, files[i], outputFolder, decoder);
        TargetsAt(files, outputFolder, i);
        ghost var step := TargetStep(before, ts[i], decoder);
        assert r == Outcome(step) && fs.files == FilesAfter(step, before);
        Advance(start, before, ts, i, decoder);
        if r.Err? {
          return events, Some(r.error);
        }
        ProgressEventsGrow(i, total);
        events := events + [Progress(i + 1, total)];
        i := i + 1;
      }
      assert ts[i..] == [];
      events := events + [Completed];
      failure := None;
    }
  }
}
