/**
 * One transfer's write protocol: stream into a sibling temp file, check the byte count, promote. Every
 * reply of the file system and every moment of failure or cancellation is a choice of the environment.
 */
module TransferRun {
  import opened Wrappers

  type Bytes = seq<bv8>

  datatype Kind = Upload | Download

  /** A path is a directory, whatever names it, and a base name. */
  datatype Path = Path(dir: string, base: string)

  type Files = map<Path, Bytes>

  function IdPrefix(id: string): string {
    if |id| <= 8 then id else id[..8]
  }

  const MARK := ".termdesk-part-"

  function TempPath(kind: Kind, dest: Path, id: string): Path {
    match kind
    case Upload => Path(dest.dir, "." + dest.base + MARK + IdPrefix(id))
    case Download => Path(dest.dir, dest.base + MARK + IdPrefix(id))
  }

  /** Transfers share a temp file only if they share destination and id prefix. */
  lemma TempIsPerTransfer(kind: Kind, d1: Path, id1: string, d2: Path, id2: string)
    requires |id1| >= 8 && |id2| >= 8 && TempPath(kind, d1, id1) == TempPath(kind, d2, id2)
    ensures d1 == d2 && id1[..8] == id2[..8]
  {
    var b1, b2 := TempPath(kind, d1, id1).base, TempPath(kind, d2, id2).base;
    var start := if kind == Upload then 1 else 0;
    assert |b1| == start + |d1.base| + |MARK| + 8 && |b2| == start + |d2.base| + |MARK| + 8;
    assert b1[|b1| - 8..] == id1[..8] && b2[|b2| - 8..] == id2[..8];
    assert b1[start..start + |d1.base|] == d1.base && b2[start..start + |d2.base|] == d2.base;
  }

  datatype Phase = Opening | Streaming | Closed | Promoting | Unlinking | Repromoting | CleaningUp | Finished(ok: bool)

  /** One transfer record: `source` is the file to transfer, and `expected` the size it is known to have. */
  datatype Job = Job(kind: Kind, dest: Path, id: string, source: Bytes, expected: Option<nat>)

  function Temp(j: Job): Path {
    TempPath(j.kind, j.dest, j.id)
  }

  lemma TempIsNotDest(j: Job)
    ensures Temp(j) != j.dest
  {
    assert |Temp(j).base| > |j.dest.base|;
  }

  /** `emitted` is what the source stream has yielded, which `doneBytes` counts. */
  datatype State = State(files: Files, phase: Phase, emitted: Bytes, flushed: nat)

  /** `effect`: whether an operation whose reply was an error had nevertheless taken place. */
  datatype Step =
    | Open
    | Emit(chunk: Bytes)    // the next piece of the source, which may end early
    | Flush(n: nat)
    | Fail                  // a stream error, or cancel
    | Close                 // the sink's close event
    | Check
    | RenameOk
    | RenameFails(effect: bool)
    | UnlinkReplies(effect: bool)
    | CleanUp(effect: bool)

  function Content(files: Files, p: Path): Option<Bytes> {
    if p in files then Some(files[p]) else None
  }

  function Rename(files: Files, from: Path, to: Path): Files
    requires from in files
  {
    (files - {from})[to := files[from]]
  }

  predicate Enabled(j: Job, s: State, step: Step) {
    match step
    case Open => s.phase == Opening
    case Emit(chunk) => s.phase == Streaming && s.emitted + chunk <= j.source
    case Flush(n) => s.phase == Streaming && s.flushed + n <= |s.emitted|
    case Fail => s.phase == Opening || s.phase == Streaming
    case Close => s.phase == Streaming
    case Check => s.phase == Closed
    case RenameOk => (s.phase == Promoting || s.phase == Repromoting) && Temp(j) in s.files
    case RenameFails(effect) => (s.phase == Promoting || s.phase == Repromoting) && (effect ==> Temp(j) in s.files)
    case UnlinkReplies(_) => s.phase == Unlinking
    case CleanUp(_) => s.phase == CleaningUp
  }

  function Apply(j: Job, s: State, step: Step): State
    requires Enabled(j, s, step)
  {
    match step
    case Open => s.(files := s.files[Temp(j) := []], phase := Streaming)
    case Emit(chunk) => s.(emitted := s.emitted + chunk)
    case Flush(n) => s.(files := s.files[Temp(j) := s.emitted[..s.flushed + n]], flushed := s.flushed + n)
    case Fail => s.(phase := CleaningUp)
    case Close => s.(phase := Closed)
    case Check => s.(phase := if j.expected.Some? && |s.emitted| != j.expected.value then CleaningUp else Promoting)
    case RenameOk => s.(files := Rename(s.files, Temp(j), j.dest), phase := Finished(true))
    case RenameFails(effect) =>
      var files := if effect then Rename(s.files, Temp(j), j.dest) else s.files;
      // Only an upload falls back to unlink-then-rename, and only once.
      s.(files := files, phase := if j.kind == Upload && s.phase == Promoting then Unlinking else CleaningUp)
    case UnlinkReplies(effect) => s.(files := if effect then s.files - {j.dest} else s.files, phase := Repromoting)
    case CleanUp(effect) => s.(files := if effect then s.files - {Temp(j)} else s.files, phase := Finished(false))
  }

  ghost predicate Legal(j: Job, s: State, steps: seq<Step>)
    decreases |steps|
  {
    steps != [] ==> Enabled(j, s, steps[0]) && Legal(j, Apply(j, s, steps[0]), steps[1..])
  }

  ghost function Exec(j: Job, s: State, steps: seq<Step>): State
    requires Legal(j, s, steps)
    decreases |steps|
  {
    if steps == [] then s else Exec(j, Apply(j, s, steps[0]), steps[1..])
  }

  function Start(files: Files): State {
    State(files, Opening, [], 0)
  }

  /** What the sink holds when it closes. */
  function Landed(s: State): Bytes
    requires s.flushed <= |s.emitted|
  {
    s.emitted[..s.flushed]
  }

  /** The byte count was checked against the expected size. */
  predicate CountOk(j: Job, s: State) {
    j.expected.Some? ==> |s.emitted| == j.expected.value
  }

  ghost predicate Inv(j: Job, files0: Files, s: State) {
    && s.flushed <= |s.emitted| && s.emitted <= j.source
    && (forall p: Path | p != Temp(j) && p != j.dest :: Content(s.files, p) == Content(files0, p))
    && match s.phase
       case Opening => Content(s.files, j.dest) == Content(files0, j.dest) && s.flushed == 0
       case Streaming => Content(s.files, j.dest) == Content(files0, j.dest) && Content(s.files, Temp(j)) == Some(Landed(s))
       case Closed => Content(s.files, j.dest) == Content(files0, j.dest) && Content(s.files, Temp(j)) == Some(Landed(s))
       case Promoting =>
         && Content(s.files, j.dest) == Content(files0, j.dest) && Content(s.files, Temp(j)) == Some(Landed(s))
         && CountOk(j, s)
       case Unlinking => j.kind == Upload && AfterCheck(j, files0, s)
       case Repromoting => j.kind == Upload && AfterCheck(j, files0, s)
       case CleaningUp => AfterCheck(j, files0, s) || Content(s.files, j.dest) == Content(files0, j.dest)
       case Finished(ok) =>
         if ok then Content(s.files, j.dest) == Some(Landed(s)) && CountOk(j, s) && Temp(j) !in s.files
         else AfterCheck(j, files0, s) || Content(s.files, j.dest) == Content(files0, j.dest)
  }

  /** After the check the destination is the old file, the landed bytes or, for an upload, absent. */
  ghost predicate AfterCheck(j: Job, files0: Files, s: State)
    requires s.flushed <= |s.emitted|
  {
    && CountOk(j, s)
    && (Temp(j) in s.files ==> s.files[Temp(j)] == Landed(s))
    && (|| Content(s.files, j.dest) == Content(files0, j.dest)
        || Content(s.files, j.dest) == Some(Landed(s))
        || (j.kind == Upload && Content(s.files, j.dest) == None))
  }

  lemma InvStep(j: Job, files0: Files, s: State, step: Step)
    requires Inv(j, files0, s) && Enabled(j, s, step)
    ensures Inv(j, files0, Apply(j, s, step))
  {
    TempIsNotDest(j);
    assert s.emitted[..0] == [];
    if step.Emit? {
      assert (s.emitted + step.chunk)[..s.flushed] == s.emitted[..s.flushed];
    }
  }

  lemma {:induction false} InvRun(j: Job, files0: Files, s: State, steps: seq<Step>)
    requires Inv(j, files0, s) && Legal(j, s, steps)
    ensures Inv(j, files0, Exec(j, s, steps))
    decreases |steps|
  {
    if steps != [] {
      InvStep(j, files0, s, steps[0]);
      InvRun(j, files0, Apply(j, s, steps[0]), steps[1..]);
    }
  }

  /** A sink that closes only after writing everything it was given. */
  ghost predicate Lossless(j: Job, s: State, steps: seq<Step>)
    requires Legal(j, s, steps)
    decreases |steps|
  {
    steps != [] ==>
      && (steps[0].Close? ==> s.flushed == |s.emitted|)
      && Lossless(j, Apply(j, s, steps[0]), steps[1..])
  }

  /** Past the close event, everything emitted has been flushed. */
  predicate AllFlushed(s: State) {
    s.phase in {Closed, Promoting, Unlinking, Repromoting, Finished(true)} ==> s.flushed == |s.emitted|
  }

  lemma {:induction false} LosslessFlushes(j: Job, files0: Files, s: State, steps: seq<Step>)
    requires Legal(j, s, steps) && Lossless(j, s, steps) && LosslessInv(j, files0, s) && Inv(j, files0, s)
    ensures LosslessInv(j, files0, Exec(j, s, steps))
    decreases |steps|
  {
    if steps != [] {
      InvStep(j, files0, s, steps[0]);
      TempIsNotDest(j);
      LosslessFlushes(j, files0, Apply(j, s, steps[0]), steps[1..]);
    }
  }

  ghost predicate LosslessInv(j: Job, files0: Files, s: State) {
    && AllFlushed(s)
    && (s.phase in {CleaningUp, Finished(false)} ==>
          s.flushed == |s.emitted| || Content(s.files, j.dest) == Content(files0, j.dest))
  }

  // ----- Main results -----

  /** `b` is as much of the source as the transfer was told it has: all of it, if it was told right. */
  ghost predicate Complete(j: Job, b: Bytes) {
    && j.expected.Some? && |b| == j.expected.value && b <= j.source
    && (j.expected.value == |j.source| ==> b == j.source)
  }

  lemma CountedIsComplete(j: Job, b: Bytes)
    requires b <= j.source && j.expected == Some(|b|)
    ensures Complete(j, b)
  {
    assert |b| == |j.source| ==> b == j.source[..|b|] == j.source;
  }

  lemma LosslessOutcome(j: Job, files0: Files, steps: seq<Step>)
    requires Legal(j, Start(files0), steps) && Lossless(j, Start(files0), steps)
    ensures var s := Exec(j, Start(files0), steps);
      && Inv(j, files0, s) && LosslessInv(j, files0, s)
      && (s.flushed == |s.emitted| ==> Landed(s) == s.emitted)
      && (j.expected == Some(|s.emitted|) ==> Complete(j, s.emitted))
  {
    assert [] <= j.source;
    InvRun(j, files0, Start(files0), steps);
    LosslessFlushes(j, files0, Start(files0), steps);
    var s := Exec(j, Start(files0), steps);
    if j.expected == Some(|s.emitted|) {
      CountedIsComplete(j, s.emitted);
    }
  }

  /**
   * At every step, for every chunking, early end, failure and cancellation of a transfer whose size is
   * known: the destination holds its old content, or the source's, complete, or (for an upload) nothing. No
   * other file is touched but the temp file.
   */
  lemma NeverPartial(j: Job, files0: Files, steps: seq<Step>)
    requires j.expected.Some?
    requires Legal(j, Start(files0), steps) && Lossless(j, Start(files0), steps)
    ensures var s := Exec(j, Start(files0), steps);
      && (|| Content(s.files, j.dest) == Content(files0, j.dest)
          || (Content(s.files, j.dest).Some? && Complete(j, Content(s.files, j.dest).value))
          || (j.kind == Upload && Content(s.files, j.dest) == None))
      && forall p: Path | p != j.dest && p != Temp(j) :: Content(s.files, p) == Content(files0, p)
  {
    LosslessOutcome(j, files0, steps);
  }

  /** A run that reports success has put the complete source in place and left no temp file. */
  lemma SuccessMeansComplete(j: Job, files0: Files, steps: seq<Step>)
    requires j.expected.Some?
    requires Legal(j, Start(files0), steps) && Lossless(j, Start(files0), steps)
    requires Exec(j, Start(files0), steps).phase == Finished(true)
    ensures var s := Exec(j, Start(files0), steps);
      Content(s.files, j.dest).Some? && Complete(j, Content(s.files, j.dest).value) && Temp(j) !in s.files
  {
    LosslessOutcome(j, files0, steps);
  }

  /** With the size unknown a success may put a part in place: the whole source exactly if it was all read. */
  lemma UnknownSizeMayBePartial(j: Job, files0: Files, steps: seq<Step>)
    requires j.expected == None
    requires Legal(j, Start(files0), steps) && Lossless(j, Start(files0), steps)
    requires Exec(j, Start(files0), steps).phase == Finished(true)
    ensures var s := Exec(j, Start(files0), steps);
      && Content(s.files, j.dest) == Some(s.emitted) && s.emitted <= j.source
      && (Content(s.files, j.dest) == Some(j.source) <==> |s.emitted| == |j.source|)
  {
    LosslessOutcome(j, files0, steps);
    var s := Exec(j, Start(files0), steps);
    assert |s.emitted| == |j.source| ==> s.emitted == j.source[..|s.emitted|] == j.source;
  }

  /**
   * The integrity guard counts bytes read from the source, not bytes written: without the assumption on
   * the sink, what a success puts in place is complete exactly when the sink flushed everything.
   */
  lemma GuardIsExactIffFlushed(j: Job, files0: Files, steps: seq<Step>)
    requires j.expected.Some?
    requires Legal(j, Start(files0), steps) && Exec(j, Start(files0), steps).phase == Finished(true)
    ensures var s := Exec(j, Start(files0), steps);
      && Content(s.files, j.dest).Some?
      && (Complete(j, Content(s.files, j.dest).value) <==> s.flushed == |s.emitted|)
      && (|Content(s.files, j.dest).value| == j.expected.value <==> s.flushed == |s.emitted|)
  {
    assert [] <= j.source;
    InvRun(j, files0, Start(files0), steps);
    var s := Exec(j, Start(files0), steps);
    if s.flushed == |s.emitted| {
      assert Landed(s) == s.emitted;
      CountedIsComplete(j, s.emitted);
    }
  }

  ghost predicate Leads(j: Job, s: State, steps: seq<Step>, t: State) {
    Legal(j, s, steps) && Exec(j, s, steps) == t
  }

  lemma Prepend(j: Job, s: State, step: Step, u: State, steps: seq<Step>, t: State) returns (steps': seq<Step>)
    requires Enabled(j, s, step) && Apply(j, s, step) == u && Leads(j, u, steps, t)
    ensures Leads(j, s, steps', t)
  {
    steps' := [step] + steps;
    assert steps'[1..] == steps;
  }

  /** Once two bytes are emitted and one is flushed, closing passes the guard and promotes the one. */
  lemma TruncatedTail(j: Job, s: State) returns (steps: seq<Step>, t: State)
    requires s == State(map[Temp(j) := [7]], Streaming, [7, 8], 1) && j.expected == Some(2)
    ensures Leads(j, s, steps, t) && t.phase == Finished(true) && Content(t.files, j.dest) == Some([7])
  {
    TempIsNotDest(j);
    t := Apply(j, s.(phase := Promoting), RenameOk);
    steps := Prepend(j, s.(phase := Promoting), RenameOk, t, [], t);
    steps := Prepend(j, s.(phase := Closed), Check, s.(phase := Promoting), steps, t);
    steps := Prepend(j, s, Close, s.(phase := Closed), steps, t);
  }

  /** A sink that swallows a failed write and closes gets a truncated file promoted over the old one. */
  lemma SwallowedWriteIsPromoted(dest: Path, id: string) returns (j: Job, steps: seq<Step>, t: State)
    ensures j == Job(Download, dest, id, [7, 8], Some(2)) && Leads(j, Start(map[]), steps, t)
    ensures t.phase == Finished(true) && Content(t.files, dest) == Some([7])
  {
    j := Job(Download, dest, id, [7, 8], Some(2));
    var s := State(map[Temp(j) := []], Streaming, [], 0);
    steps, t := TruncatedTail(j, State(map[Temp(j) := [7]], Streaming, [7, 8], 1));
    var two: Bytes := [7, 8];
    assert two[..0 + 1] == [7] && s.emitted + two == two;
    assert s.files[Temp(j) := [7]] == map[Temp(j) := [7]];
    steps := Prepend(j, s.(emitted := [7, 8]), Flush(1), State(map[Temp(j) := [7]], Streaming, [7, 8], 1), steps, t);
    steps := Prepend(j, s, Emit([7, 8]), s.(emitted := [7, 8]), steps, t);
    steps := Prepend(j, Start(map[]), Open, s, steps, t);
  }
}
