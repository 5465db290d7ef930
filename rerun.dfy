/**
  What a run does to the disk, path by path, and why running the same queue a
  second time changes nothing: every conversion step either overwrites one path
  with fixed content (a thumbnail), fills one path only if it is missing (a full
  conversion), or leaves the path alone, whatever the disk holds.
*/
module Rerun {

  import opened Wrappers
  import opened PosixPath
  import opened Conversion
  import opened Worker

  /** What a step, or a run of steps, does to one path. */
  datatype Effect = Keep | Put(content: FileContent) | Fill(content: FileContent)

  /** The content at `q`, if any. */
  function Lookup(files: Files, q: Path): Option<FileContent>
  {
    if q in files then Some(files[q]) else None
  }

  function Apply(e: Effect, current: Option<FileContent>): Option<FileContent>
  {
    match e
    case Keep => current
    case Put(c) => Some(c)
    case Fill(c) => if current.None? then Some(c) else current
  }

  /** `first` followed by `second`, again a single effect. */
  function Then(first: Effect, second: Effect): (e: Effect)
    ensures forall current :: Apply(e, current) == Apply(second, Apply(first, current))
  {
    match second
    case Keep => first
    case Put(c) => second
    case Fill(c) => if first.Keep? then second else first
  }

  /** What converting target `t` does to path `q`, independently of the disk. */
  function StepEffect(t: Target, decoder: Decoder, q: Path): Effect
  {
    if t.source !in decoder then Keep
    else match decoder[t.source].thumb
      case Thumb(JPEG, data) => if q == t.thumbPath then Put(Verbatim(data)) else Keep
      case Thumb(BITMAP, data) => if q == t.thumbPath then Put(JpegEncoded(data)) else Keep
      case Thumb(OtherFormat, _) => Keep
      case NoThumbnail => FullEffect(t, decoder, q)
      case UnsupportedThumbnail => FullEffect(t, decoder, q)
      case ThumbError(_) => Keep
  }

  function FullEffect(t: Target, decoder: Decoder, q: Path): Effect
    requires t.source in decoder
  {
    match decoder[t.source].postprocess
    case Rgb(pixels) => if q == t.outputPath then Fill(JpegEncoded(pixels)) else Keep
    case PostprocessError(_) => Keep
  }

  /** The disk after converting `t`, whether it succeeds or raises. */
  function StepFiles(files: Files, t: Target, decoder: Decoder): Files
  {
    FilesAfter(TargetStep(files, t, decoder), files)
  }

  /** A step, successful or not, acts on every path as its effect says. */
  lemma StepFollowsEffect(files: Files, t: Target, decoder: Decoder, q: Path)
    ensures Lookup(StepFiles(files, t, decoder), q) == Apply(StepEffect(t, decoder, q), Lookup(files, q))
  {
  }

  /** The disk after converting all of `ts` in order, ignoring exceptions. */
  function BatchFiles(files: Files, ts: seq<Target>, decoder: Decoder): Files
    decreases |ts|
  {
    if ts == [] then files else BatchFiles(StepFiles(files, ts[0], decoder), ts[1..], decoder)
  }

  /** The effect of converting all of `ts` on path `q`. */
  function BatchEffect(ts: seq<Target>, decoder: Decoder, q: Path): Effect
    decreases |ts|
  {
    if ts == [] then Keep else Then(StepEffect(ts[0], decoder, q), BatchEffect(ts[1..], decoder, q))
  }

  /** A sequence of steps acts on every path as the composed effect says. */
  lemma {:induction false} BatchFollowsEffect(files: Files, ts: seq<Target>, decoder: Decoder, q: Path)
    ensures Lookup(BatchFiles(files, ts, decoder), q) == Apply(BatchEffect(ts, decoder, q), Lookup(files, q))
    decreases |ts|
  {
    if ts != [] {
      var next := StepFiles(files, ts[0], decoder);
      StepFollowsEffect(files, ts[0], decoder, q);
      BatchFollowsEffect(next, ts[1..], decoder, q);
    }
  }

  /** A path that no target names is never touched. */
  lemma {:induction false} UnnamedPathKept(ts: seq<Target>, decoder: Decoder, q: Path)
    requires forall i :: 0 <= i < |ts| ==> q != ts[i].thumbPath && q != ts[i].outputPath
    ensures BatchEffect(ts, decoder, q) == Keep
    decreases |ts|
  {
    if ts != [] {
      UnnamedPathKept(ts[1..], decoder, q);
      assert StepEffect(ts[0], decoder, q) == Keep;
    }
  }

  /** Two disks that agree on every path are equal. */
  lemma SameLookups(a: Files, b: Files)
    requires forall q :: Lookup(a, q) == Lookup(b, q)
    ensures a == b
  {
    assert a.Keys == b.Keys by {
      forall q ensures q in a <==> q in b {
        assert Lookup(a, q) == Lookup(b, q);
      }
    }
    forall q | q in a ensures a[q] == b[q] {
      assert Lookup(a, q) == Lookup(b, q);
    }
  }

  /** Converting the same targets twice, ignoring exceptions, is converting them once. */
  lemma BatchFilesIdempotent(files: Files, ts: seq<Target>, decoder: Decoder)
    ensures BatchFiles(BatchFiles(files, ts, decoder), ts, decoder) == BatchFiles(files, ts, decoder)
  {
    var once := BatchFiles(files, ts, decoder);
    forall q ensures Lookup(BatchFiles(once, ts, decoder), q) == Lookup(once, q) {
      BatchFollowsEffect(files, ts, decoder, q);
      BatchFollowsEffect(once, ts, decoder, q);
      var e := BatchEffect(ts, decoder, q);
      assert Apply(e, Apply(e, Lookup(files, q))) == Apply(e, Lookup(files, q));
    }
    SameLookups(BatchFiles(once, ts, decoder), once);
  }

  /** A run leaves the disk as converting its processed prefix does. */
  lemma {:induction false} RunFollowsBatch(files: Files, ts: seq<Target>, decoder: Decoder)
    ensures var b := RunBatch(files, ts, decoder);
      b.files == BatchFiles(files, ts[..b.processed], decoder)
    decreases |ts|
  {
    var b := RunBatch(files, ts, decoder);
    if ts != [] {
      match TargetStep(files, ts[0], decoder)
      case Err(e) =>
        assert ts[..b.processed] == [];
      case Ok(s) =>
        RunFollowsBatch(s.files, ts[1..], decoder);
        var k := b.processed;
        assert ts[..k][0] == ts[0];
        assert ts[..k][1..] == ts[1..][..k - 1];
    }
  }

  /** A run never changes a path that is not the thumbnail or output path of a queued file. */
  lemma OnlyTargetPathsChange(files: Files, ts: seq<Target>, decoder: Decoder, q: Path)
    requires forall i :: 0 <= i < |ts| ==> q != ts[i].thumbPath && q != ts[i].outputPath
    ensures Lookup(RunBatch(files, ts, decoder).files, q) == Lookup(files, q)
  {
    var b := RunBatch(files, ts, decoder);
    RunFollowsBatch(files, ts, decoder);
    BatchFollowsEffect(files, ts[..b.processed], decoder, q);
    UnnamedPathKept(ts[..b.processed], decoder, q);
  }

  /** Steps only add files: a path present before is present after. */
  lemma {:induction false} RunKeepsPaths(files: Files, ts: seq<Target>, decoder: Decoder)
    ensures files.Keys <= RunBatch(files, ts, decoder).files.Keys
    decreases |ts|
  {
    if ts != [] {
      match TargetStep(files, ts[0], decoder)
      case Err(e) =>
      case Ok(s) =>
        assert files.Keys <= s.files.Keys;
        RunKeepsPaths(s.files, ts[1..], decoder);
    }
  }

  /**
    Whether a step raises depends on the disk only through whether the fallback's
    output exists, and that only ever helps: a step that succeeds on a disk
    succeeds on any disk holding at least the same paths.
  */
  lemma StepSuccessTransfers(small: Files, large: Files, t: Target, decoder: Decoder)
    requires TargetStep(small, t, decoder).Ok? && small.Keys <= large.Keys
    ensures TargetStep(large, t, decoder).Ok?
  {
    if t.outputPath in small {
      assert t.outputPath in large;
    }
  }

  /** A queue that runs to the end on a disk runs to the end on any disk holding its result's paths. */
  lemma {:induction false} SuccessTransfers(small: Files, large: Files, ts: seq<Target>, decoder: Decoder)
    requires RunBatch(small, ts, decoder).failure.None?
    requires RunBatch(small, ts, decoder).files.Keys <= large.Keys
    ensures RunBatch(large, ts, decoder).failure.None?
    decreases |ts|
  {
    if ts != [] {
      var s := TargetStep(small, ts[0], decoder).value;
      RunKeepsPaths(s.files, ts[1..], decoder);
      assert small.Keys <= s.files.Keys;
      StepSuccessTransfers(small, large, ts[0], decoder);
      var l := TargetStep(large, ts[0], decoder).value;
      assert large.Keys <= l.files.Keys;
      SuccessTransfers(s.files, l.files, ts[1..], decoder);
    }
  }

  /** A run that goes to the end, repeated on its own result, goes to the end with the same disk. */
  lemma RerunOfCompletedPrefix(files: Files, ts: seq<Target>, decoder: Decoder)
    requires RunBatch(files, ts, decoder).failure.None?
    ensures var b := RunBatch(files, ts, decoder);
      RunBatch(b.files, ts, decoder) == b
  {
    var b := RunBatch(files, ts, decoder);
    assert ts[..b.processed] == ts;
    RunFollowsBatch(files, ts, decoder);
    SuccessTransfers(files, b.files, ts, decoder);
    var again := RunBatch(b.files, ts, decoder);
    RunFollowsBatch(b.files, ts, decoder);
    assert again.processed == |ts|;
    BatchFilesIdempotent(files, ts, decoder);
  }

  /**
    Running the same queue again on the disk a run left behind changes nothing:
    the same files are written with the same content, and the second run stops
    at the same file, with the same exception, as the first.
  */
  lemma RerunChangesNothing(files: Files, ts: seq<Target>, decoder: Decoder)
    ensures var b := RunBatch(files, ts, decoder);
      RunBatch(b.files, ts, decoder) == b
  {
    var b := RunBatch(files, ts, decoder);
    if b.failure.None? {
      RerunOfCompletedPrefix(files, ts, decoder);
    } else {
      var k := b.processed;
      AbortedRun(files, ts, decoder);
      RerunOfCompletedPrefix(files, ts[..k], decoder);
      assert ts == ts[..k] + ts[k..];
      SplitRun(b.files, ts[..k], ts[k..], decoder);
      RunBatchFrom(b.files, ts, k, decoder);
    }
  }

  /** The same for a worker thread started twice with the same queue and folder. */
  lemma ThreadRerunChangesNothing(files: Files, sources: seq<Path>, outputFolder: Path, decoder: Decoder)
    ensures var b := RunBatch(files, Targets(sources, outputFolder), decoder);
      RunBatch(b.files, Targets(sources, outputFolder), decoder) == b
      && Trace(|sources|, RunBatch(b.files, Targets(sources, outputFolder), decoder)) == Trace(|sources|, b)
  {
    RerunChangesNothing(files, Targets(sources, outputFolder), decoder);
  }
}
