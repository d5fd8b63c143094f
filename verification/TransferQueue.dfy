/**
 * The transfer queue: a scheduler that keeps at most two transfers running, under every interleaving of
 * enqueue, cancel, retry and the two microtasks in which a run ends.
 */
module TransferQueue {
  import opened Wrappers

  const MAX_ACTIVE_TRANSFERS := 2

  datatype Status = Queued | Active | Done | Error | Cancelled

  /** What the scheduler looks at in a transfer record. */
  datatype Rec = Rec(owner: int, status: Status)

  /** A call of `run` that has not released its slot: still running, or its outcome already recorded. */
  datatype Run = Running(rec: nat) | Settled(rec: nat)

  /**
   * `recs` lists the records in insertion order, so a record is named by its position. `runs` and
   * `unpumped` are history variables: the code counts the former in `active` and knows nothing of the
   * latter, which says that a directory walk has enqueued records since the queue was last pumped.
   */
  datatype State = State(recs: seq<Rec>, active: int, runs: map<nat, Run>, nextRun: nat, unpumped: bool)

  datatype Step =
    | EnqueueOne(owner: int)           // enqueueDownload and enqueueUploadAs
    | WalkEnqueue(owner: int)          // one file of an enqueueUploads walk
    | WalkPump                         // the end of a walk that did not throw
    | Cancel(i: nat, owner: int)
    | Retry(i: nat, owner: int)
    | CancelForOwner(owner: int)
    | CancelAll
    | Settle(run: nat, ok: bool)       // the then or catch handler
    | Release(run: nat)                // the finally handler

  // ----- What each event does -----

  function FirstQueued(recs: seq<Rec>, from: nat): (i: nat)
    requires from <= |recs|
    ensures from <= i <= |recs|
    ensures i < |recs| ==> recs[i].status == Queued
    ensures forall j | from <= j < i :: recs[j].status != Queued
    decreases |recs| - from
  {
    if from == |recs| || recs[from].status == Queued then from else FirstQueued(recs, from + 1)
  }

  function WithStatus(recs: seq<Rec>, i: nat, status: Status): seq<Rec>
    requires i < |recs|
  {
    recs[i := recs[i].(status := status)]
  }

  function Pump(s: State): State {
    var t := s.(unpumped := false);
    var i := FirstQueued(s.recs, 0);
    if s.active >= MAX_ACTIVE_TRANSFERS || i == |s.recs| then t
    else t.(recs := WithStatus(s.recs, i, Active), active := s.active + 1,
            runs := s.runs[s.nextRun := Running(i)], nextRun := s.nextRun + 1)
  }

  predicate Owned(recs: seq<Rec>, i: nat, owner: int) {
    i < |recs| && recs[i].owner == owner
  }

  predicate Live(r: Rec) {
    r.status == Queued || r.status == Active
  }

  function CancelIf(r: Rec, owner: Option<int>): Rec {
    if Live(r) && (owner.Some? ==> r.owner == owner.value) then r.(status := Cancelled) else r
  }

  function CancelWhere(recs: seq<Rec>, owner: Option<int>): seq<Rec> {
    seq(|recs|, i requires 0 <= i < |recs| => CancelIf(recs[i], owner))
  }

  predicate Enabled(s: State, step: Step) {
    match step
    case Settle(run, _) => run in s.runs && s.runs[run].Running?
    case Release(run) => run in s.runs && s.runs[run].Settled?
    case _ => true
  }

  /** A run refers to a record that exists. */
  ghost predicate RunsOk(s: State) {
    forall r <- s.runs :: r < s.nextRun && s.runs[r].rec < |s.recs|
  }

  function Apply(s: State, step: Step): State
    requires RunsOk(s) && Enabled(s, step)
  {
    match step
    case EnqueueOne(owner) => Pump(s.(recs := s.recs + [Rec(owner, Queued)]))
    case WalkEnqueue(owner) => s.(recs := s.recs + [Rec(owner, Queued)], unpumped := true)
    case WalkPump => Pump(s)
    case Cancel(i, owner) =>
      if Owned(s.recs, i, owner) && Live(s.recs[i]) then s.(recs := WithStatus(s.recs, i, Cancelled)) else s
    case Retry(i, owner) =>
      if Owned(s.recs, i, owner) && (s.recs[i].status == Error || s.recs[i].status == Cancelled)
      then Pump(s.(recs := WithStatus(s.recs, i, Queued))) else s
    case CancelForOwner(owner) => s.(recs := CancelWhere(s.recs, Some(owner)))
    case CancelAll => s.(recs := CancelWhere(s.recs, None))
    case Settle(run, ok) =>
      var i := s.runs[run].rec;
      var recs := if s.recs[i].status == Active then WithStatus(s.recs, i, if ok then Done else Error) else s.recs;
      s.(recs := recs, runs := s.runs[run := Settled(i)])
    case Release(run) => Pump(s.(active := s.active - 1, runs := s.runs - {run}))
  }

  // ----- The invariant of every interleaving -----

  ghost predicate HasRun(s: State, i: nat) {
    exists r <- s.runs :: s.runs[r] == Running(i)
  }

  ghost predicate AnyQueued(s: State) {
    exists i | 0 <= i < |s.recs| :: s.recs[i].status == Queued
  }

  ghost predicate Inv(s: State) {
    && RunsOk(s)
    && s.active == |s.runs| <= MAX_ACTIVE_TRANSFERS
    && (forall i: nat | i < |s.recs| && s.recs[i].status == Active :: HasRun(s, i))
    && (!s.unpumped && AnyQueued(s) ==> s.active >= 1)
  }

  /** The invariant apart from the pumping clause: what must hold when `pump` is entered. */
  ghost predicate InvBeforePump(s: State) {
    && RunsOk(s)
    && s.active == |s.runs| <= MAX_ACTIVE_TRANSFERS
    && (forall i: nat | i < |s.recs| && s.recs[i].status == Active :: HasRun(s, i))
  }

  const Empty := State([], 0, map[], 0, false)

  ghost predicate Legal(s: State, steps: seq<Step>)
    requires Inv(s)
    decreases |steps|
  {
    steps == [] || (Enabled(s, steps[0]) && (InvStep(s, steps[0]); Legal(Apply(s, steps[0]), steps[1..])))
  }

  ghost function Exec(s: State, steps: seq<Step>): (t: State)
    requires Inv(s) && Legal(s, steps)
    ensures Inv(t)
    decreases |steps|
  {
    if steps == [] then s else InvStep(s, steps[0]); Exec(Apply(s, steps[0]), steps[1..])
  }

  lemma PumpInv(s: State)
    requires InvBeforePump(s)
    ensures Inv(Pump(s))
  {
    var t, i := Pump(s), FirstQueued(s.recs, 0);
    if t.runs != s.runs {
      assert s.nextRun !in s.runs;
      assert |t.runs| == |s.runs| + 1;
      assert t.runs[s.nextRun] == Running(i);
      forall j: nat | j < |t.recs| && t.recs[j].status == Active
        ensures HasRun(t, j)
      {
        if j != i {
          var r :| r in s.runs && s.runs[r] == Running(j);
          assert t.runs[r] == Running(j);
        }
      }
    }
  }

  lemma SettleInv(s: State, run: nat, ok: bool)
    requires Inv(s) && Enabled(s, Settle(run, ok))
    ensures Inv(Apply(s, Settle(run, ok)))
  {
    var t := Apply(s, Settle(run, ok));
    assert t.runs.Keys == s.runs.Keys && |t.runs| == |t.runs.Keys| == |s.runs|;
    forall j: nat | j < |t.recs| && t.recs[j].status == Active
      ensures HasRun(t, j)
    {
      var r :| r in s.runs && s.runs[r] == Running(j);
      assert t.runs[r] == Running(j);
    }
  }

  lemma ReleaseInv(s: State, run: nat)
    requires Inv(s) && Enabled(s, Release(run))
    ensures Inv(Apply(s, Release(run)))
  {
    var u := s.(active := s.active - 1, runs := s.runs - {run});
    assert u.runs.Keys == s.runs.Keys - {run} && |u.runs| == |u.runs.Keys|;
    forall j: nat | j < |u.recs| && u.recs[j].status == Active
      ensures HasRun(u, j)
    {
      var r :| r in s.runs && s.runs[r] == Running(j);
      assert u.runs[r] == Running(j);
    }
    PumpInv(u);
  }

  /** Changing only the records, with no record becoming active, keeps what holds before a pump. */
  lemma RecsInv(s: State, recs: seq<Rec>)
    requires InvBeforePump(s) && |s.recs| <= |recs|
    requires forall i: nat | i < |recs| && recs[i].status == Active :: i < |s.recs| && s.recs[i].status == Active
    ensures InvBeforePump(s.(recs := recs))
  {
    var t := s.(recs := recs);
    forall j: nat | j < |t.recs| && t.recs[j].status == Active
      ensures HasRun(t, j)
    {
      var r :| r in s.runs && s.runs[r] == Running(j);
      assert t.runs[r] == Running(j);
    }
  }

  lemma InvStep(s: State, step: Step)
    requires Inv(s) && Enabled(s, step)
    ensures Inv(Apply(s, step))
  {
    match step {
      case EnqueueOne(owner) =>
        RecsInv(s, s.recs + [Rec(owner, Queued)]);
        PumpInv(s.(recs := s.recs + [Rec(owner, Queued)]));
      case WalkEnqueue(owner) => RecsInv(s, s.recs + [Rec(owner, Queued)]);
      case WalkPump => PumpInv(s);
      case Retry(i, owner) =>
        if Owned(s.recs, i, owner) {
          RecsInv(s, WithStatus(s.recs, i, Queued));
          PumpInv(s.(recs := WithStatus(s.recs, i, Queued)));
        }
      case Settle(run, ok) => SettleInv(s, run, ok);
      case Release(run) => ReleaseInv(s, run);
      case _ => RecsInv(s, Apply(s, step).recs);
    }
  }

  // ----- Main results -----

  ghost function ActiveRecs(s: State): set<nat> {
    set i: nat | i < |s.recs| && s.recs[i].status == Active
  }

  lemma {:induction false} ImageNoLarger(runs: map<nat, Run>, image: set<nat>)
    requires forall i <- image :: exists r <- runs :: runs[r] == Running(i)
    ensures |image| <= |runs|
    decreases |image|
  {
    if i :| i in image {
      var r :| r in runs && runs[r] == Running(i);
      var fewer := runs - {r};
      forall j <- image - {i}
        ensures exists r' <- fewer :: fewer[r'] == Running(j)
      {
        var r' :| r' in runs && runs[r'] == Running(j);
        assert r' in fewer;
      }
      ImageNoLarger(fewer, image - {i});
      assert |fewer| == |runs| - 1 by { assert fewer.Keys == runs.Keys - {r}; }
    }
  }

  /** In every interleaving, `active` counts the unreleased runs, is at most two, and bounds the active records. */
  lemma SlotsAreCounted(steps: seq<Step>)
    requires Legal(Empty, steps)
    ensures var s := Exec(Empty, steps);
      s.active == |s.runs| && |ActiveRecs(s)| <= s.active <= MAX_ACTIVE_TRANSFERS
  {
    var s := Exec(Empty, steps);
    ImageNoLarger(s.runs, ActiveRecs(s));
  }

  /** Nothing is stranded: while a record waits, a run holds a slot and will pump, unless a walk has yet to pump. */
  lemma NothingIsStranded(steps: seq<Step>, i: nat)
    requires Legal(Empty, steps)
    requires var s := Exec(Empty, steps); i < |s.recs| && s.recs[i].status == Queued && !s.unpumped
    ensures Exec(Empty, steps).active >= 1
  {
  }

  /** Letting every run end therefore leaves no record waiting or active. */
  lemma QuietMeansFinished(steps: seq<Step>, i: nat)
    requires Legal(Empty, steps)
    requires var s := Exec(Empty, steps); i < |s.recs| && s.runs == map[] && !s.unpumped
    ensures !Live(Exec(Empty, steps).recs[i])
  {
    var s := Exec(Empty, steps);
    assert s.recs[i].status == Active ==> HasRun(s, i);
  }

  /** The exception is real: a walk that throws before its pump leaves its records waiting with no run to pump. */
  lemma FailedWalkStrands(owner: int)
    ensures Legal(Empty, [WalkEnqueue(owner)])
    ensures var s := Exec(Empty, [WalkEnqueue(owner)]); s.recs == [Rec(owner, Queued)] && s.runs == map[]
  {
    var s := Apply(Empty, WalkEnqueue(owner));
    InvStep(Empty, WalkEnqueue(owner));
    assert [WalkEnqueue(owner)][1..] == [];
    assert Legal(s, []);
    assert Exec(s, []) == s;
  }

  predicate Cancels(s: State, step: Step, i: nat)
    requires i < |s.recs|
  {
    match step
    case Cancel(k, owner) => k == i && s.recs[i].owner == owner
    case CancelForOwner(owner) => s.recs[i].owner == owner
    case CancelAll => true
    case _ => false
  }

  /** The only ways a record's status changes in one step. */
  predicate Moves(s: State, step: Step, i: nat, to: Status)
    requires i < |s.recs|
  {
    var from := s.recs[i].status;
    || to == from
    || (from == Queued && to == Active)
    || (Live(s.recs[i]) && to == Cancelled && Cancels(s, step, i))
    || (step.Settle? && step.run in s.runs && s.runs[step.run].rec == i && from == Active && to == if step.ok then Done else Error)
    || (step == Retry(i, s.recs[i].owner) && (from == Error || from == Cancelled) && (to == Queued || to == Active))
  }

  /** Whatever happens, a record keeps its owner and place, is cancelled and retried by its owner only, and settled by a run of its own. */
  lemma StatusMoves(s: State, step: Step, i: nat)
    requires Inv(s) && Enabled(s, step) && i < |s.recs|
    ensures var t := Apply(s, step);
      i < |t.recs| && t.recs[i].owner == s.recs[i].owner && Moves(s, step, i, t.recs[i].status)
  {
  }

  /** A cancel by the owner is obeyed at once. */
  lemma CancelIsObeyed(s: State, step: Step, i: nat)
    requires Inv(s) && Enabled(s, step) && i < |s.recs| && Cancels(s, step, i) && Live(s.recs[i])
    ensures Apply(s, step).recs[i].status == Cancelled
  {
  }

  /**
   * Through any further events a finished transfer stays finished, and a failed or cancelled one stays so
   * until it is retried: in particular the run it leaves behind cannot mark it done.
   */
  lemma {:induction false} FinishedStays(s: State, steps: seq<Step>, i: nat)
    requires Inv(s) && Legal(s, steps) && i < |s.recs| && !Live(s.recs[i])
    requires s.recs[i].status == Done || forall step <- steps :: !(step.Retry? && step.i == i)
    ensures var t := Exec(s, steps); i < |t.recs| && t.recs[i].status == s.recs[i].status
    decreases |steps|
  {
    if steps != [] {
      assert steps[0] in steps;
      InvStep(s, steps[0]);
      StatusMoves(s, steps[0], i);
      FinishedStays(Apply(s, steps[0]), steps[1..], i);
    }
  }

  /** A step starts at most one run, of a record that waited, and passes over no older waiting record. */
  lemma StartsAreInOrder(s: State, step: Step, r: nat)
    requires Inv(s) && Enabled(s, step) && r in Apply(s, step).runs && r !in s.runs
    ensures var t := Apply(s, step);
      && r == s.nextRun && t.runs[r].Running?
      && t.recs[t.runs[r].rec].status == Active
      && forall j | 0 <= j < t.runs[r].rec :: t.recs[j].status != Queued
  {
  }

  // ----- One run per record -----

  /** No record has two unreleased runs, and a waiting record has none. */
  ghost predicate SoleRuns(s: State) {
    && (forall r <- s.runs, q <- s.runs | r != q :: s.runs[r].rec != s.runs[q].rec)
    && (forall r <- s.runs | s.runs[r].rec < |s.recs| :: s.recs[s.runs[r].rec].status != Queued)
  }

  predicate Unreleased(s: State, i: nat) {
    exists r <- s.runs :: s.runs[r].rec == i
  }

  predicate Retryable(s: State, i: nat, owner: int) {
    Owned(s.recs, i, owner) && (s.recs[i].status == Error || s.recs[i].status == Cancelled)
  }

  lemma PumpSole(s: State)
    requires RunsOk(s) && SoleRuns(s)
    ensures SoleRuns(Pump(s))
  {
    var t, i := Pump(s), FirstQueued(s.recs, 0);
    if t.runs != s.runs {
      forall r <- s.runs
        ensures t.runs[r].rec != i
      {
      }
    }
  }

  /** Requeueing a record with an unreleased run brings the two together, at once or when it starts. */
  lemma PumpNotSole(s: State, r: nat)
    requires RunsOk(s) && r in s.runs && s.recs[s.runs[r].rec].status == Queued
    ensures !SoleRuns(Pump(s))
  {
    var t, i := Pump(s), s.runs[r].rec;
    assert r in t.runs && t.runs[r] == s.runs[r] && r != s.nextRun;
    if t.recs[i].status != Queued {
      assert s.nextRun in t.runs && t.runs[s.nextRun].rec == i;
    }
  }

  /**
   * A retry keeps runs of one record apart, so that they share neither temp file nor status, exactly
   * when the record's last run has already released its slot.
   */
  lemma RetrySafeIff(s: State, i: nat, owner: int)
    requires Inv(s) && SoleRuns(s) && Retryable(s, i, owner)
    ensures SoleRuns(Apply(s, Retry(i, owner))) <==> !Unreleased(s, i)
  {
    var u := s.(recs := WithStatus(s.recs, i, Queued));
    assert RunsOk(u);
    if Unreleased(s, i) {
      var r :| r in s.runs && s.runs[r].rec == i;
      PumpNotSole(u, r);
    } else {
      RequeueSole(s, i);
      PumpSole(u);
    }
  }

  lemma RequeueSole(s: State, i: nat)
    requires RunsOk(s) && SoleRuns(s) && i < |s.recs| && !Unreleased(s, i)
    ensures var u := s.(recs := WithStatus(s.recs, i, Queued)); RunsOk(u) && SoleRuns(u)
  {
    RecsSole(s, WithStatus(s.recs, i, Queued));
  }

  lemma FirstStep(s: State, step: Step, t: State, rest: seq<Step>)
    requires Inv(s) && Enabled(s, step) && Apply(s, step) == t
    ensures Inv(t) && (Legal(t, rest) ==> Legal(s, [step] + rest) && Exec(s, [step] + rest) == Exec(t, rest))
  {
    InvStep(s, step);
    assert ([step] + rest)[1..] == rest;
  }

  lemma {:induction false} OneStepMore(s: State, steps: seq<Step>, step: Step)
    requires Inv(s) && Legal(s, steps) && Enabled(Exec(s, steps), step)
    ensures Legal(s, steps + [step]) && Exec(s, steps + [step]) == Apply(Exec(s, steps), step)
    decreases |steps|
  {
    if steps == [] {
      FirstStep(s, step, Apply(s, step), []);
      assert steps + [step] == [step] + [];
    } else {
      InvStep(s, steps[0]);
      OneStepMore(Apply(s, steps[0]), steps[1..], step);
      assert (steps + [step])[1..] == steps[1..] + [step];
    }
  }

  function EarlyRetry(owner: int): seq<Step> {
    [EnqueueOne(owner), Cancel(0, owner), Retry(0, owner)]
  }

  lemma EarlyRetryLeaves(owner: int)
    ensures Legal(Empty, EarlyRetry(owner))
    ensures Exec(Empty, EarlyRetry(owner)) == State([Rec(owner, Active)], 2, map[0 := Running(0), 1 := Running(0)], 2, false)
  {
    var s1 := State([Rec(owner, Active)], 1, map[0 := Running(0)], 1, false);
    var s2 := s1.(recs := [Rec(owner, Cancelled)]);
    var s3 := State([Rec(owner, Active)], 2, map[0 := Running(0), 1 := Running(0)], 2, false);
    assert Empty.recs + [Rec(owner, Queued)] == [Rec(owner, Queued)];
    FirstStep(Empty, EnqueueOne(owner), s1, [Cancel(0, owner), Retry(0, owner)]);
    FirstStep(s1, Cancel(0, owner), s2, [Retry(0, owner)]);
    FirstStep(s2, Retry(0, owner), s3, []);
    assert [Retry(0, owner)] + [] == [Retry(0, owner)];
    assert [Cancel(0, owner)] + [Retry(0, owner)] == [Cancel(0, owner), Retry(0, owner)];
    assert [EnqueueOne(owner)] + [Cancel(0, owner), Retry(0, owner)] == EarlyRetry(owner);
  }

  /** A retry that does not wait for the cancelled run to settle starts a second run of the same record. */
  lemma EarlyRetryRunsTwice(owner: int)
    ensures Legal(Empty, EarlyRetry(owner))
    ensures var s := Exec(Empty, EarlyRetry(owner)); s.runs == map[0 := Running(0), 1 := Running(0)] && !SoleRuns(s)
  {
    EarlyRetryLeaves(owner);
    var s := Exec(Empty, EarlyRetry(owner));
    assert s.runs[0].rec == s.runs[1].rec;
  }

  /** And then the outcome of the old run is taken for the new one's: the record has failed while its own run goes on. */
  lemma EarlyRetryIsMisreported(owner: int)
    ensures Legal(Empty, EarlyRetry(owner) + [Settle(0, false)])
    ensures var s := Exec(Empty, EarlyRetry(owner) + [Settle(0, false)]);
      s.recs == [Rec(owner, Error)] && s.runs == map[0 := Settled(0), 1 := Running(0)]
  {
    EarlyRetryLeaves(owner);
    OneStepMore(Empty, EarlyRetry(owner), Settle(0, false));
  }

  /** Changing only the records keeps runs apart if no record with a run is requeued. */
  lemma RecsSole(s: State, recs: seq<Rec>)
    requires RunsOk(s) && SoleRuns(s) && |s.recs| <= |recs|
    requires forall i: nat | i < |s.recs| && Unreleased(s, i) :: recs[i].status == Queued ==> s.recs[i].status == Queued
    ensures RunsOk(s.(recs := recs)) && SoleRuns(s.(recs := recs))
  {
    var t := s.(recs := recs);
    forall r <- t.runs
      ensures t.recs[t.runs[r].rec].status != Queued
    {
      assert Unreleased(s, s.runs[r].rec);
    }
  }

  /** Every other step keeps them apart. */
  lemma OthersKeepSole(s: State, step: Step)
    requires Inv(s) && SoleRuns(s) && Enabled(s, step) && !step.Retry?
    ensures SoleRuns(Apply(s, step))
  {
    match step {
      case EnqueueOne(owner) =>
        RecsSole(s, s.recs + [Rec(owner, Queued)]);
        PumpSole(s.(recs := s.recs + [Rec(owner, Queued)]));
      case WalkPump => PumpSole(s);
      case Release(run) => ReleaseSole(s, run);
      case Settle(run, ok) => SettleSole(s, run, ok);
      case _ => RecordsOnlySole(s, step);
    }
  }

  lemma RecordsOnlySole(s: State, step: Step)
    requires RunsOk(s) && SoleRuns(s) && Enabled(s, step)
    requires step.CancelForOwner? || step.CancelAll? || step.Cancel? || step.WalkEnqueue?
    ensures SoleRuns(Apply(s, step))
  {
    var t := Apply(s, step);
    assert |s.recs| <= |t.recs| && forall i: nat | i < |s.recs| :: t.recs[i].status == Queued ==> s.recs[i].status == Queued;
    RecsSole(s, t.recs);
  }

  lemma ReleaseSole(s: State, run: nat)
    requires RunsOk(s) && SoleRuns(s) && Enabled(s, Release(run))
    ensures SoleRuns(Apply(s, Release(run)))
  {
    var u := s.(active := s.active - 1, runs := s.runs - {run});
    assert forall r <- u.runs :: r in s.runs && u.runs[r] == s.runs[r];
    PumpSole(u);
  }

  lemma SettleSole(s: State, run: nat, ok: bool)
    requires RunsOk(s) && SoleRuns(s) && Enabled(s, Settle(run, ok))
    ensures SoleRuns(Apply(s, Settle(run, ok)))
  {
    var t := Apply(s, Settle(run, ok));
    forall r <- t.runs
      ensures r in s.runs && t.runs[r].rec == s.runs[r].rec && t.recs[t.runs[r].rec].status != Queued
    {
    }
  }

  ghost predicate Patient(s: State, steps: seq<Step>)
    requires Inv(s) && Legal(s, steps)
    decreases |steps|
  {
    steps != [] ==>
      && (steps[0].Retry? && Retryable(s, steps[0].i, steps[0].owner) ==> !Unreleased(s, steps[0].i))
      && (InvStep(s, steps[0]); Patient(Apply(s, steps[0]), steps[1..]))
  }

  /** So callers that retry only released records never have two runs of one record at a time. */
  lemma {:induction false} PatientCallersStaySole(s: State, steps: seq<Step>)
    requires Inv(s) && SoleRuns(s) && Legal(s, steps) && Patient(s, steps)
    ensures SoleRuns(Exec(s, steps))
    decreases |steps|
  {
    if steps != [] {
      InvStep(s, steps[0]);
      if steps[0].Retry? {
        if Retryable(s, steps[0].i, steps[0].owner) {
          RetrySafeIff(s, steps[0].i, steps[0].owner);
        }
      } else {
        OthersKeepSole(s, steps[0]);
      }
      PatientCallersStaySole(Apply(s, steps[0]), steps[1..]);
    }
  }

  /** With runs apart, a record is marked done or failed by its own current run only. */
  lemma OutcomeIsOwn(s: State, run: nat, ok: bool)
    requires Inv(s) && SoleRuns(s) && Enabled(s, Settle(run, ok)) && s.recs[s.runs[run].rec].status == Active
    ensures forall r <- s.runs | s.runs[r].rec == s.runs[run].rec :: r == run
    ensures Apply(s, Settle(run, ok)).recs[s.runs[run].rec].status == (if ok then Done else Error)
  {
  }

  // ----- The manager -----

  class TransferManager {
    var transfers: seq<Rec>
    var active: int
    ghost var runs: map<nat, Run>
    ghost var nextRun: nat
    ghost var unpumped: bool

    ghost function Abs(): State
      reads this
    {
      State(transfers, active, runs, nextRun, unpumped)
    }

    constructor ()
      ensures Abs() == Empty
    {
      transfers, active, runs, nextRun, unpumped := [], 0, map[], 0, false;
    }

    method StartNext()
      modifies this
      ensures Abs() == Pump(old(Abs()))
    {
      unpumped := false;
      if active >= MAX_ACTIVE_TRANSFERS {
        return;
      }
      var i := 0;
      while i < |transfers| && transfers[i].status != Queued
        invariant 0 <= i <= |transfers| && FirstQueued(transfers, 0) == FirstQueued(transfers, i)
      {
        i := i + 1;
      }
      if i == |transfers| {
        return;
      }
      active := active + 1;
      transfers := transfers[i := transfers[i].(status := Active)];
      runs, nextRun := runs[nextRun := Running(i)], nextRun + 1;
    }

    method Enqueue(owner: int, fromWalk: bool) returns (i: nat)
      requires Inv(Abs())
      modifies this
      ensures i == |old(transfers)|
      ensures Abs() == Apply(old(Abs()), if fromWalk then WalkEnqueue(owner) else EnqueueOne(owner))
    {
      i := |transfers|;
      transfers := transfers + [Rec(owner, Queued)];
      if fromWalk {
        unpumped := true;
      } else {
        StartNext();
      }
    }

    method CancelOne(i: nat, owner: int)
      requires Inv(Abs())
      modifies this
      ensures Abs() == Apply(old(Abs()), Cancel(i, owner))
    {
      if i >= |transfers| || transfers[i].owner != owner {
        return;
      }
      if transfers[i].status == Queued {
        transfers := transfers[i := transfers[i].(status := Cancelled)];
      } else if transfers[i].status == Active {
        transfers := transfers[i := transfers[i].(status := Cancelled)];
      }
    }

    method RetryOne(i: nat, owner: int)
      requires Inv(Abs())
      modifies this
      ensures Abs() == Apply(old(Abs()), Retry(i, owner))
    {
      if i >= |transfers| || transfers[i].owner != owner {
        return;
      }
      if transfers[i].status != Error && transfers[i].status != Cancelled {
        return;
      }
      transfers := transfers[i := transfers[i].(status := Queued)];
      StartNext();
    }

    method CancelMany(owner: Option<int>)
      requires Inv(Abs())
      modifies this
      ensures Abs() == Apply(old(Abs()), if owner.Some? then CancelForOwner(owner.value) else CancelAll)
    {
      ghost var before := transfers;
      var i := 0;
      while i < |transfers|
        invariant 0 <= i <= |transfers| == |before|
        invariant forall k | 0 <= k < i :: transfers[k] == CancelIf(before[k], owner)
        invariant forall k | i <= k < |before| :: transfers[k] == before[k]
        invariant Abs() == old(Abs()).(recs := transfers)
      {
        if owner.None? || transfers[i].owner == owner.value {
          if transfers[i].status == Queued || transfers[i].status == Active {
            transfers := transfers[i := transfers[i].(status := Cancelled)];
          }
        }
        i := i + 1;
      }
      assert transfers == CancelWhere(before, owner);
    }

    /** The handler attached to a run by `then` or `catch`. */
    method OnSettled(ghost run: nat, i: nat, ok: bool)
      requires Inv(Abs()) && Enabled(Abs(), Settle(run, ok)) && runs[run].rec == i
      modifies this
      ensures Abs() == Apply(old(Abs()), Settle(run, ok))
    {
      if transfers[i].status == Active {
        transfers := transfers[i := transfers[i].(status := if ok then Done else Error)];
      }
      runs := runs[run := Settled(i)];
    }

    /** The handler attached by `finally`. */
    method OnFinally(ghost run: nat)
      requires Inv(Abs()) && Enabled(Abs(), Release(run))
      modifies this
      ensures Abs() == Apply(old(Abs()), Release(run))
    {
      active := active - 1;
      runs := runs - {run};
      StartNext();
    }
  }
}
