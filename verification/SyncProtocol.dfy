/**
 * The sync contract: the metadata of a vault envelope, the three-way conflict decision,
 * and any number of devices that follow the decision around one remote object in
 * user-supplied storage.
 */
module SyncProtocol {
  import opened Wrappers

  const SYNC_CONTRACT_VERSION := 1
  const MAX_SAFE_INTEGER := 0x1F_FFFF_FFFF_FFFF

  datatype SyncMeta = SyncMeta(contractVersion: int, revision: int, deviceId: string, updatedAt: int)

  /** What storage yields: `None` for anything that has not the shape of a meta. */
  type RawMeta = Option<SyncMeta>

  datatype SyncBaseline = SyncBaseline(revision: int, deviceId: string)

  /** A persisted baseline; older clients stored the bare revision. */
  datatype Baseline = Number(n: int) | Full(base: SyncBaseline)

  datatype SyncComparison = InSync | LocalAhead | RemoteAhead | Diverged

  datatype SyncAction = NoAction | PushAction | PullAction | ConflictAction

  /** `n + 1` on IEEE doubles, for the integers a revision can hold: it sticks at 2^53. */
  function DoubleSuccessor(n: int): int {
    if n <= MAX_SAFE_INTEGER then n + 1 else n
  }

  function MakeSyncMeta(prev: Option<SyncMeta>, deviceId: string, now: int): SyncMeta {
    var revision := if prev.Some? then prev.value.revision else 0;
    SyncMeta(SYNC_CONTRACT_VERSION, DoubleSuccessor(revision), deviceId, now)
  }

  predicate IsValidSyncMeta(value: RawMeta) {
    && value.Some?
    && value.value.contractVersion >= 1
    && 0 <= value.value.revision <= MAX_SAFE_INTEGER
    && value.value.deviceId != ""
  }

  function SyncBaselineOf(meta: SyncMeta): SyncBaseline {
    SyncBaseline(meta.revision, meta.deviceId)
  }

  function DetectSyncConflict(local: SyncMeta, remote: RawMeta, baseline: Baseline): SyncComparison {
    if !IsValidSyncMeta(Some(local)) || !IsValidSyncMeta(remote) then Diverged
    else
      var baseRevision := if baseline.Number? then baseline.n else baseline.base.revision;
      if remote.value.revision < baseRevision then Diverged
      else if remote.value.revision == baseRevision && baseline.Full?
              && remote.value.deviceId != baseline.base.deviceId then Diverged
      else
        var localChanged := local.revision > baseRevision;
        var remoteChanged := remote.value.revision > baseRevision;
        if !localChanged && !remoteChanged then InSync
        else if localChanged && !remoteChanged then LocalAhead
        else if !localChanged && remoteChanged then RemoteAhead
        else Diverged
  }

  function ResolveSync(comparison: SyncComparison): SyncAction {
    match comparison
    case LocalAhead => PushAction
    case RemoteAhead => PullAction
    case Diverged => ConflictAction
    case InSync => NoAction
  }

  // ----- Devices around one remote object -----

  /** A copy of the vault: its meta, and its content as the edits it was built from, oldest first. */
  datatype Version = Version(meta: RawMeta, history: seq<nat>)

  /**
   * `seen` is the remote as last read (its ETag names exactly this value). `synced` is a history
   * variable: the version of the last successful push or pull. The code keeps only `baseline`.
   */
  datatype Device = Device(local: SyncMeta, content: seq<nat>, baseline: SyncBaseline, seen: Version, synced: Version)

  /** `pushed` is every version the remote was ever given by a push, and `edits` numbers the edits made. */
  datatype State = State(devices: map<string, Device>, remote: Version, pushed: set<Version>, edits: nat)

  datatype Step =
    | Edit(d: string, now: int)
    | Read(d: string)
    | Push(d: string)
    | Pull(d: string)
    | Restore(v: Version)   // storage goes back to an earlier pushed version
    | Corrupt(v: Version)   // storage yields a malformed envelope

  function Copy(dev: Device): Version {
    Version(Some(dev.local), dev.content)
  }

  function ActionOf(dev: Device): SyncAction {
    ResolveSync(DetectSyncConflict(dev.local, dev.seen.meta, Full(dev.baseline)))
  }

  predicate Enabled(s: State, step: Step) {
    match step
    case Edit(d, _) => d in s.devices
    case Read(d) => d in s.devices
    case Push(d) =>
      // The write is conditional on the remote still being what was compared.
      d in s.devices && ActionOf(s.devices[d]) == PushAction && s.remote == s.devices[d].seen
    case Pull(d) => d in s.devices && ActionOf(s.devices[d]) == PullAction
    case Restore(v) => v in s.pushed
    case Corrupt(v) => !IsValidSyncMeta(v.meta)
  }

  function Apply(s: State, step: Step): State
    requires Enabled(s, step)
  {
    match step
    case Edit(d, now) =>
      var dev := s.devices[d];
      var dev' := dev.(local := MakeSyncMeta(Some(dev.local), d, now), content := dev.content + [s.edits]);
      s.(devices := s.devices[d := dev'], edits := s.edits + 1)
    case Read(d) =>
      s.(devices := s.devices[d := s.devices[d].(seen := s.remote)])
    case Push(d) =>
      var dev := s.devices[d];
      var v := Copy(dev);
      s.(devices := s.devices[d := dev.(baseline := SyncBaselineOf(dev.local), synced := v)],
         remote := v, pushed := s.pushed + {v})
    case Pull(d) =>
      var dev := s.devices[d];
      var meta := dev.seen.meta.value;
      s.(devices := s.devices[d := Device(meta, dev.seen.history, SyncBaselineOf(meta), dev.seen, dev.seen)])
    case Restore(v) => s.(remote := v)
    case Corrupt(v) => s.(remote := v)
  }

  /** Every device starts from one common valid copy, which the remote holds. */
  ghost predicate Init(s: State, genesis: SyncMeta) {
    var v := Version(Some(genesis), []);
    && IsValidSyncMeta(Some(genesis))
    && s.remote == v && s.pushed == {v} && s.edits == 0
    && forall d <- s.devices :: s.devices[d] == Device(genesis, [], SyncBaselineOf(genesis), v, v)
  }

  /** `steps` is a run from `s`. */
  ghost predicate Legal(s: State, steps: seq<Step>)
    decreases |steps|, 0
  {
    steps == [] ||
    (var n := |steps| - 1; Legal(s, steps[..n]) && Enabled(Exec(s, steps[..n]), steps[n]))
  }

  ghost function Exec(s: State, steps: seq<Step>): State
    requires Legal(s, steps)
    decreases |steps|, 1
  {
    if steps == [] then s else var n := |steps| - 1; Apply(Exec(s, steps[..n]), steps[n])
  }

  // ----- The invariant of every run -----

  predicate SameName(v: Version, w: Version) {
    v.meta.Some? && w.meta.Some? && SyncBaselineOf(v.meta.value) == SyncBaselineOf(w.meta.value)
  }

  predicate Newer(v: Version, w: Version) {
    IsValidSyncMeta(v.meta) && IsValidSyncMeta(w.meta) && v.meta.value.revision > w.meta.value.revision
  }

  ghost predicate StrictPrefix(a: seq<nat>, b: seq<nat>) {
    a < b
  }

  ghost predicate DeviceOk(pushed: set<Version>, d: string, dev: Device) {
    && dev.synced in pushed
    && dev.synced.meta.Some? && dev.baseline == SyncBaselineOf(dev.synced.meta.value)
    && (|| Copy(dev) == dev.synced
        || (dev.local.revision > dev.baseline.revision && dev.local.deviceId == d
            && StrictPrefix(dev.synced.history, dev.content)))
    && (dev.seen in pushed || !IsValidSyncMeta(dev.seen.meta))
    && forall v <- pushed :: v.meta.Some? && v.meta.value.deviceId == d ==> v.meta.value.revision <= dev.baseline.revision
  }

  /** An edit survives in some device's own copy or in a version that was pushed. */
  ghost predicate Kept(s: State, e: nat) {
    (exists d <- s.devices :: e in s.devices[d].content) || (exists v <- s.pushed :: e in v.history)
  }

  ghost predicate LogOk(pushed: set<Version>) {
    && (forall v <- pushed :: IsValidSyncMeta(v.meta))
    && (forall v <- pushed, w <- pushed :: SameName(v, w) ==> v == w)
  }

  ghost predicate Inv(s: State) {
    && LogOk(s.pushed)
    && (s.remote in s.pushed || !IsValidSyncMeta(s.remote.meta))
    && (forall d <- s.devices :: DeviceOk(s.pushed, d, s.devices[d]))
    && (forall e: nat | e < s.edits :: Kept(s, e))
  }

  lemma PushEnabledFacts(s: State, d: string)
    requires Inv(s) && Enabled(s, Push(d))
    ensures var dev := s.devices[d];
      && s.remote == dev.synced && StrictPrefix(s.remote.history, dev.content)
      && dev.local.deviceId == d && dev.local.revision > dev.baseline.revision
      && IsValidSyncMeta(Some(dev.local))
  {
    var dev := s.devices[d];
    assert DeviceOk(s.pushed, d, dev);
    assert SameName(s.remote, dev.synced);
  }

  lemma PullEnabledFacts(s: State, d: string)
    requires Inv(s) && Enabled(s, Pull(d))
    ensures var dev := s.devices[d];
      && Copy(dev) == dev.synced && dev.synced in s.pushed && dev.seen in s.pushed
      && dev.seen.meta.Some? && dev.seen.meta.value.revision > dev.baseline.revision
  {
    assert DeviceOk(s.pushed, d, s.devices[d]);
  }

  lemma KeptStable(s: State, t: State)
    requires s.pushed <= t.pushed && s.devices.Keys <= t.devices.Keys
    requires forall d <- s.devices :: s.devices[d].content <= t.devices[d].content || Copy(s.devices[d]) in s.pushed
    ensures forall e: nat | Kept(s, e) :: Kept(t, e)
  {
    forall e: nat | Kept(s, e)
      ensures Kept(t, e)
    {
      if d :| d in s.devices && e in s.devices[d].content {
        if Copy(s.devices[d]) in s.pushed {
          assert e in Copy(s.devices[d]).history;
        } else {
          assert e in t.devices[d].content;
        }
      }
    }
  }

  lemma EditKeepsDevice(s: State, d: string, now: int)
    requires LogOk(s.pushed) && Enabled(s, Edit(d, now)) && DeviceOk(s.pushed, d, s.devices[d])
    ensures DeviceOk(s.pushed, d, Apply(s, Edit(d, now)).devices[d])
  {
    var dev := s.devices[d];
    assert dev.synced.history <= dev.content;
    assert IsValidSyncMeta(dev.synced.meta);
  }

  lemma InvEdit(s: State, d: string, now: int)
    requires Inv(s) && Enabled(s, Edit(d, now))
    ensures Inv(Apply(s, Edit(d, now)))
  {
    EditKeepsDevice(s, d, now);
    EditKeepsEdits(s, d, now);
  }

  lemma EditKeepsEdits(s: State, d: string, now: int)
    requires Enabled(s, Edit(d, now)) && forall e: nat | e < s.edits :: Kept(s, e)
    ensures var t := Apply(s, Edit(d, now)); forall e: nat | e < t.edits :: Kept(t, e)
  {
    var t := Apply(s, Edit(d, now));
    assert s.devices[d].content <= t.devices[d].content;
    KeptStable(s, t);
    assert t.devices[d].content[|s.devices[d].content|] == s.edits;
    assert Kept(t, s.edits);
  }

  lemma InvPull(s: State, d: string)
    requires Inv(s) && Enabled(s, Pull(d))
    ensures Inv(Apply(s, Pull(d)))
  {
    PullEnabledFacts(s, d);
    assert DeviceOk(s.pushed, d, s.devices[d]);
    var t := Apply(s, Pull(d));
    assert DeviceOk(t.pushed, d, t.devices[d]);
    KeptStable(s, t);
  }

  lemma InvPush(s: State, d: string)
    requires Inv(s) && Enabled(s, Push(d))
    ensures Inv(Apply(s, Push(d)))
  {
    PushKeepsDevices(s, d);
    KeptStable(s, Apply(s, Push(d)));
  }

  lemma InvStep(s: State, step: Step)
    requires Inv(s) && Enabled(s, step)
    ensures Inv(Apply(s, step))
  {
    match step {
      case Edit(d, now) => InvEdit(s, d, now);
      case Push(d) => InvPush(s, d);
      case Pull(d) => InvPull(s, d);
      case Read(d) =>
        assert DeviceOk(s.pushed, d, s.devices[d]);
        KeptStable(s, Apply(s, step));
      case _ => KeptStable(s, Apply(s, step));
    }
  }

  lemma PushKeepsDevices(s: State, d: string)
    requires Inv(s) && Enabled(s, Push(d))
    ensures var t := Apply(s, Push(d));
      && (forall d' <- t.devices :: DeviceOk(t.pushed, d', t.devices[d']))
      && LogOk(t.pushed)
  {
    PushEnabledFacts(s, d);
    var t := Apply(s, Push(d));
    var new_ := Copy(s.devices[d]);
    forall d' <- t.devices
      ensures DeviceOk(t.pushed, d', t.devices[d'])
    {
      assert DeviceOk(s.pushed, d', s.devices[d']);
    }
    forall v <- s.pushed
      ensures !SameName(v, new_) && !SameName(new_, v)
    {
      assert DeviceOk(s.pushed, d, s.devices[d]);
    }
  }

  lemma {:induction false} InvHolds(s0: State, genesis: SyncMeta, steps: seq<Step>)
    requires Init(s0, genesis) && Legal(s0, steps)
    ensures Inv(Exec(s0, steps))
    decreases |steps|
  {
    if steps == [] {
      var v := Version(Some(genesis), []);
      assert v in s0.pushed;
    } else {
      var n := |steps| - 1;
      InvHolds(s0, genesis, steps[..n]);
      InvStep(Exec(s0, steps[..n]), steps[n]);
    }
  }

  // ----- Main results -----

  /**
   * No lost update: in every run, whatever restores and corruptions happened before, a push overwrites
   * exactly the version the pusher last synced with, and its own content extends that version's history.
   */
  lemma NoLostUpdate(s0: State, genesis: SyncMeta, steps: seq<Step>, d: string)
    requires Init(s0, genesis) && Legal(s0, steps) && Enabled(Exec(s0, steps), Push(d))
    ensures var s := Exec(s0, steps);
      && s.remote == s.devices[d].synced
      && s.remote in s.pushed
      && s.remote.history < Apply(s, Push(d)).remote.history
  {
    InvHolds(s0, genesis, steps);
    var s := Exec(s0, steps);
    PushEnabledFacts(s, d);
    assert DeviceOk(s.pushed, d, s.devices[d]);
  }

  /** A pull only ever replaces a copy with no unsynced edit: that very copy was pushed before. */
  lemma PullDiscardsNothing(s0: State, genesis: SyncMeta, steps: seq<Step>, d: string)
    requires Init(s0, genesis) && Legal(s0, steps) && Enabled(Exec(s0, steps), Pull(d))
    ensures var s := Exec(s0, steps);
      && Copy(s.devices[d]) in s.pushed
      && Copy(Apply(s, Pull(d)).devices[d]) in s.pushed
  {
    InvHolds(s0, genesis, steps);
    PullEnabledFacts(Exec(s0, steps), d);
  }

  /** A (revision, device id) pair names at most one pushed version. */
  lemma NameIsUnique(s0: State, genesis: SyncMeta, steps: seq<Step>, v: Version, w: Version)
    requires Init(s0, genesis) && Legal(s0, steps)
    requires v in Exec(s0, steps).pushed && w in Exec(s0, steps).pushed
    requires SameName(v, w)
    ensures v == w
  {
    InvHolds(s0, genesis, steps);
  }

  /**
   * The decision, which sees only revisions and device ids, is exact about the versions themselves: push
   * iff the remote read is the very version last synced and there are local edits, nothing to do iff it is
   * and there are none, pull iff there are none and the remote is valid and newer, else conflict.
   */
  lemma DecisionIsExact(s0: State, genesis: SyncMeta, steps: seq<Step>, d: string)
    requires Init(s0, genesis) && Legal(s0, steps) && d in Exec(s0, steps).devices
    ensures var dev := Exec(s0, steps).devices[d];
      var usable := IsValidSyncMeta(Some(dev.local));
      var edited := dev.content != dev.synced.history;
      && (ActionOf(dev) == PushAction <==> usable && dev.seen == dev.synced && edited)
      && (ActionOf(dev) == NoAction <==> usable && dev.seen == dev.synced && !edited)
      && (ActionOf(dev) == PullAction <==> usable && !edited && Newer(dev.seen, dev.synced))
  {
    InvHolds(s0, genesis, steps);
    var s := Exec(s0, steps);
    var dev := s.devices[d];
    assert DeviceOk(s.pushed, d, dev);
    assert dev.seen in s.pushed ==> (SameName(dev.seen, dev.synced) <==> dev.seen == dev.synced);
  }

  /** No edit ever vanishes from every copy: it is in some device's copy or in a pushed version. */
  lemma NoEditVanishes(s0: State, genesis: SyncMeta, steps: seq<Step>, e: nat)
    requires Init(s0, genesis) && Legal(s0, steps) && e < Exec(s0, steps).edits
    ensures Kept(Exec(s0, steps), e)
  {
    InvHolds(s0, genesis, steps);
  }

  // ----- Storage that is never rolled back or corrupted -----

  predicate HonestStorage(steps: seq<Step>) {
    forall i | 0 <= i < |steps| :: !steps[i].Restore? && !steps[i].Corrupt?
  }

  /** With honest storage the pushed versions form one line, in revision order, ending in the remote. */
  ghost predicate Linear(s: State) {
    && s.remote in s.pushed && s.remote.meta.Some?
    && (forall v <- s.pushed :: v.meta.Some? && v.meta.value.revision <= s.remote.meta.value.revision)
    && (forall v <- s.pushed, w <- s.pushed | v.meta.value.revision < w.meta.value.revision :: StrictPrefix(v.history, w.history))
    && (forall v <- s.pushed, w <- s.pushed | v.meta.value.revision == w.meta.value.revision :: v == w)
  }

  lemma LinearPush(s: State, d: string)
    requires Inv(s) && Linear(s) && Enabled(s, Push(d))
    ensures Linear(Apply(s, Push(d)))
  {
    PushEnabledFacts(s, d);
    var dev := s.devices[d];
    assert Apply(s, Push(d)).remote == Copy(dev);
    LinearExtends(s, Copy(dev));
  }

  lemma LinearExtends(s: State, new_: Version)
    requires Linear(s) && new_.meta.Some? && new_.meta.value.revision > s.remote.meta.value.revision
    requires StrictPrefix(s.remote.history, new_.history)
    ensures Linear(s.(remote := new_, pushed := s.pushed + {new_}))
  {
    forall v <- s.pushed
      ensures v.meta.value.revision < new_.meta.value.revision && StrictPrefix(v.history, new_.history)
    {
      assert v == s.remote || StrictPrefix(v.history, s.remote.history);
    }
  }

  lemma {:induction false} LinearHolds(s0: State, genesis: SyncMeta, steps: seq<Step>)
    requires Init(s0, genesis) && Legal(s0, steps) && HonestStorage(steps)
    ensures Linear(Exec(s0, steps))
    decreases |steps|
  {
    if steps != [] {
      var n := |steps| - 1;
      LinearHolds(s0, genesis, steps[..n]);
      InvHolds(s0, genesis, steps[..n]);
      var s := Exec(s0, steps[..n]);
      assert !steps[n].Restore? && !steps[n].Corrupt?;
      if steps[n].Push? {
        LinearPush(s, steps[n].d);
      }
    }
  }

  /** With honest storage every pushed version, hence every pushed edit, stays in the remote for ever. */
  lemma RemoteKeepsEveryPush(s0: State, genesis: SyncMeta, steps: seq<Step>, v: Version)
    requires Init(s0, genesis) && Legal(s0, steps) && HonestStorage(steps)
    requires v in Exec(s0, steps).pushed
    ensures v.history <= Exec(s0, steps).remote.history
  {
    LinearHolds(s0, genesis, steps);
    var s := Exec(s0, steps);
    assert v == s.remote || StrictPrefix(v.history, s.remote.history);
  }

  /** With honest storage a pull is a fast-forward, even from a stale read. */
  lemma PullFastForwards(s0: State, genesis: SyncMeta, steps: seq<Step>, d: string)
    requires Init(s0, genesis) && Legal(s0, steps) && HonestStorage(steps) && Enabled(Exec(s0, steps), Pull(d))
    ensures var s := Exec(s0, steps); s.devices[d].content < Apply(s, Pull(d)).devices[d].content
  {
    LinearHolds(s0, genesis, steps);
    InvHolds(s0, genesis, steps);
    var s := Exec(s0, steps);
    PullEnabledFacts(s, d);
    assert DeviceOk(s.pushed, d, s.devices[d]);
    assert StrictPrefix(s.devices[d].synced.history, s.devices[d].seen.history);
  }

  // ----- The legacy baseline -----

  /** A bare-number baseline decides differently exactly on a same-revision replacement. */
  lemma NumberBaselineDiffersIff(local: SyncMeta, remote: RawMeta, base: SyncBaseline)
    ensures DetectSyncConflict(local, remote, Number(base.revision)) != DetectSyncConflict(local, remote, Full(base))
      <==> && IsValidSyncMeta(Some(local)) && IsValidSyncMeta(remote)
           && remote.value.revision == base.revision && remote.value.deviceId != base.deviceId
  {
  }

  // A run: a pushes revision 1, storage is rolled back, b pushes its own revision 1, a edits again and reads.
  const G := SyncMeta(1, 0, "g", 0)
  const A1 := SyncMeta(1, 1, "a", 0)
  const B1 := SyncMeta(1, 1, "b", 0)
  const VG := Version(Some(G), [])
  const VA := Version(Some(A1), [0])
  const VB := Version(Some(B1), [1])
  const FRESH := Device(G, [], SyncBaseline(0, "g"), VG, VG)
  const PUSHED_A := Device(A1, [0], SyncBaseline(1, "a"), VG, VA)
  const PUSHED_B := Device(B1, [1], SyncBaseline(1, "b"), VG, VB)
  const EDITED_A := Device(SyncMeta(1, 2, "a", 0), [0, 2], SyncBaseline(1, "a"), VG, VA)

  function Run(): seq<(Step, State)> {
    [ (Edit("a", 0), State(map["a" := Device(A1, [0], SyncBaseline(0, "g"), VG, VG), "b" := FRESH], VG, {VG}, 1)),
      (Push("a"), State(map["a" := PUSHED_A, "b" := FRESH], VA, {VG, VA}, 1)),
      (Restore(VG), State(map["a" := PUSHED_A, "b" := FRESH], VG, {VG, VA}, 1)),
      (Edit("b", 0), State(map["a" := PUSHED_A, "b" := Device(B1, [1], SyncBaseline(0, "g"), VG, VG)], VG, {VG, VA}, 2)),
      (Push("b"), State(map["a" := PUSHED_A, "b" := PUSHED_B], VB, {VG, VA, VB}, 2)),
      (Edit("a", 0), State(map["a" := EDITED_A, "b" := PUSHED_B], VB, {VG, VA, VB}, 3)),
      (Read("a"), State(map["a" := EDITED_A.(seen := VB), "b" := PUSHED_B], VB, {VG, VA, VB}, 3)) ]
  }

  function Start(): State {
    State(map["a" := FRESH, "b" := FRESH], VG, {VG}, 0)
  }

  lemma RunSteps(i: nat)
    requires i < 7
    ensures var s := if i == 0 then Start() else Run()[i - 1].1;
      Enabled(s, Run()[i].0) && Apply(s, Run()[i].0) == Run()[i].1
  {
    assert FRESH.content + [0] == [0] && FRESH.content + [1] == [1] && [0] + [2] == [0, 2];
  }

  lemma {:induction false} RunIsLegal(i: nat)
    requires i <= 7
    ensures var steps := seq(i, k requires 0 <= k < 7 => Run()[k].0);
      Legal(Start(), steps) && Exec(Start(), steps) == if i == 0 then Start() else Run()[i - 1].1
  {
    if i > 0 {
      RunIsLegal(i - 1);
      RunSteps(i - 1);
      var steps := seq(i, k requires 0 <= k < 7 => Run()[k].0);
      assert steps[..i - 1] == seq(i - 1, k requires 0 <= k < 7 => Run()[k].0);
    }
  }

  /**
   * What that costs: a run after which a device is in conflict under its full baseline, but would push
   * under the bare number, over a remote its own content does not descend from.
   */
  lemma NumberBaselineLosesUpdate() returns (s0: State, genesis: SyncMeta, steps: seq<Step>, d: string)
    ensures Init(s0, genesis) && Legal(s0, steps)
    ensures var s := Exec(s0, steps);
      && d in s.devices
      && var dev := s.devices[d];
         && s.remote == dev.seen
         && ActionOf(dev) == ConflictAction
         && ResolveSync(DetectSyncConflict(dev.local, dev.seen.meta, Number(dev.baseline.revision))) == PushAction
         && !(s.remote.history <= dev.content)
  {
    s0, genesis, d := Start(), G, "a";
    steps := seq(7, k requires 0 <= k < 7 => Run()[k].0);
    RunIsLegal(7);
    assert Run()[6].1.devices["a"] == EDITED_A.(seen := VB);
    assert VB.history[0] != EDITED_A.content[0];
  }
}
