/**
 * Bounded fan-out: workers that share an index counter (`mapWithConcurrency`) and lanes that share a queue
 * (an automation run), under every interleaving of their resumptions.
 */
module FanOut {
  import opened Wrappers

  // ----- Workers sharing a counter -----

  /** A worker is about to test the counter, awaits a call, has left its loop, or had its call reject. */
  datatype Worker = Ready | Busy(i: nat) | Exited | Failed(i: nat)

  /** What `fn` does with each item, or `None` where it rejects. */
  datatype Job<R> = Job(outcomes: seq<Option<R>>, limit: int)

  datatype State<R> = State(next: nat, results: seq<Option<R>>, workers: seq<Worker>)

  datatype Step = Resume(w: nat) | Settle(w: nat)

  /** `Array.from({ length: Math.min(limit, items.length) })`. */
  function WorkerCount<R>(j: Job<R>): nat {
    if j.limit <= 0 then 0 else if j.limit <= |j.outcomes| then j.limit else |j.outcomes|
  }

  function Start<R>(j: Job<R>): State<R> {
    State(0, seq(|j.outcomes|, _ => None), seq(WorkerCount(j), _ => Ready))
  }

  predicate Enabled<R>(j: Job<R>, s: State<R>, step: Step) {
    match step
    case Resume(w) => w < |s.workers| && s.workers[w].Ready?
    case Settle(w) => w < |s.workers| && s.workers[w].Busy? && s.workers[w].i < |j.outcomes| == |s.results|
  }

  function Apply<R>(j: Job<R>, s: State<R>, step: Step): State<R>
    requires Enabled(j, s, step)
  {
    match step
    case Resume(w) =>
      if s.next < |j.outcomes| then s.(next := s.next + 1, workers := s.workers[w := Busy(s.next)])
      else s.(workers := s.workers[w := Exited])
    case Settle(w) =>
      var i := s.workers[w].i;
      if j.outcomes[i].Some? then s.(results := s.results[i := j.outcomes[i]], workers := s.workers[w := Ready])
      else s.(workers := s.workers[w := Failed(i)])
  }

  /** The index a worker has claimed and not stored a result for. */
  function Claim(w: Worker): Option<nat> {
    match w
    case Busy(i) => Some(i)
    case Failed(i) => Some(i)
    case _ => None
  }

  ghost predicate Held(workers: seq<Worker>, i: nat) {
    exists w | 0 <= w < |workers| :: Claim(workers[w]) == Some(i)
  }

  ghost predicate WorkerOk<R>(j: Job<R>, s: State<R>, w: Worker)
    requires |s.results| == |j.outcomes|
  {
    && (Claim(w).Some? ==> Claim(w).value < s.next <= |s.results| && s.results[Claim(w).value].None?)
    && (w.Failed? ==> w.i < |j.outcomes| && j.outcomes[w.i].None?)
    && (w.Exited? ==> s.next == |j.outcomes|)
  }

  ghost predicate Apart(v: Worker, w: Worker) {
    Claim(v).None? || Claim(v) != Claim(w)
  }

  /** Every claimed index is either stored, with `fn`'s value, or held by one worker, not both. */
  ghost predicate IndexOk<R>(j: Job<R>, s: State<R>, i: nat)
    requires i < |s.results| == |j.outcomes|
  {
    if s.results[i].Some? then i < s.next && s.results[i] == j.outcomes[i] else i < s.next ==> Held(s.workers, i)
  }

  ghost predicate Inv<R>(j: Job<R>, s: State<R>) {
    && s.next <= |j.outcomes| == |s.results| && |s.workers| == WorkerCount(j)
    && (forall i | 0 <= i < |s.results| :: IndexOk(j, s, i))
    && (forall w | 0 <= w < |s.workers| :: WorkerOk(j, s, s.workers[w]))
    && (forall v, w | 0 <= v < w < |s.workers| :: Apart(s.workers[v], s.workers[w]))
  }

  lemma InvStart<R>(j: Job<R>)
    ensures Inv(j, Start(j))
  {
  }

  lemma HeldElsewhere(workers: seq<Worker>, w: nat, x: Worker, i: nat)
    requires w < |workers| && Held(workers, i) && Claim(workers[w]) != Some(i)
    ensures Held(workers[w := x], i)
  {
    var v :| 0 <= v < |workers| && Claim(workers[v]) == Some(i);
    assert Claim(workers[w := x][v]) == Some(i);
  }

  lemma InvResume<R>(j: Job<R>, s: State<R>, w: nat)
    requires Inv(j, s) && Enabled(j, s, Resume(w))
    ensures Inv(j, Apply(j, s, Resume(w)))
  {
    var t := Apply(j, s, Resume(w));
    assert WorkerOk(j, s, s.workers[w]);
    forall i | 0 <= i < |t.results|
      ensures IndexOk(j, t, i)
    {
      assert IndexOk(j, s, i);
      if i < s.next && s.results[i].None? {
        HeldElsewhere(s.workers, w, t.workers[w], i);
      }
      assert i == s.next ==> Claim(t.workers[w]) == Some(i);
    }
    assert s.next < |s.results| ==> IndexOk(j, s, s.next);
    forall v | 0 <= v < |t.workers|
      ensures WorkerOk(j, t, t.workers[v])
    {
      assert WorkerOk(j, s, s.workers[v]);
    }
  }

  lemma InvSettle<R>(j: Job<R>, s: State<R>, w: nat)
    requires Inv(j, s) && Enabled(j, s, Settle(w))
    ensures Inv(j, Apply(j, s, Settle(w)))
  {
    var t, k := Apply(j, s, Settle(w)), s.workers[w].i;
    assert WorkerOk(j, s, s.workers[w]);
    forall i | 0 <= i < |t.results|
      ensures IndexOk(j, t, i)
    {
      assert IndexOk(j, s, i);
      if i != k && i < s.next && s.results[i].None? {
        HeldElsewhere(s.workers, w, t.workers[w], i);
      }
      assert i == k ==> t.results[i].Some? || Claim(t.workers[w]) == Some(i);
    }
    forall v | 0 <= v < |t.workers|
      ensures WorkerOk(j, t, t.workers[v])
    {
      assert WorkerOk(j, s, s.workers[v]);
      assert v != w ==> if v < w then Apart(s.workers[v], s.workers[w]) else Apart(s.workers[w], s.workers[v]);
    }
  }

  ghost predicate Legal<R>(j: Job<R>, s: State<R>, steps: seq<Step>)
    decreases |steps|
  {
    steps != [] ==> Enabled(j, s, steps[0]) && Legal(j, Apply(j, s, steps[0]), steps[1..])
  }

  ghost function Exec<R>(j: Job<R>, s: State<R>, steps: seq<Step>): State<R>
    requires Legal(j, s, steps)
    decreases |steps|
  {
    if steps == [] then s else Exec(j, Apply(j, s, steps[0]), steps[1..])
  }

  lemma {:induction false} InvRun<R>(j: Job<R>, s: State<R>, steps: seq<Step>)
    requires Inv(j, s) && Legal(j, s, steps)
    ensures Inv(j, Exec(j, s, steps))
    decreases |steps|
  {
    if steps != [] {
      match steps[0]
      case Resume(w) => InvResume(j, s, w); InvRun(j, Apply(j, s, steps[0]), steps[1..]);
      case Settle(w) => InvSettle(j, s, w); InvRun(j, Apply(j, s, steps[0]), steps[1..]);
    }
  }

  /** Every worker has left its loop normally, so that `Promise.all` resolves. */
  predicate Completed<R>(s: State<R>) {
    forall w | 0 <= w < |s.workers| :: s.workers[w].Exited?
  }

  /** In every interleaving: each index is claimed by one call at most, in flight or stored, and stored values are `fn`'s. */
  lemma ClaimsAreExclusive<R>(j: Job<R>, steps: seq<Step>)
    requires Legal(j, Start(j), steps)
    ensures var s := Exec(j, Start(j), steps);
      && |s.workers| == WorkerCount(j) && s.next <= |s.results| == |j.outcomes|
      && (forall v, w | 0 <= v < w < |s.workers| && s.workers[v].Busy? && s.workers[w].Busy? :: s.workers[v].i != s.workers[w].i)
      && (forall w | 0 <= w < |s.workers| && s.workers[w].Busy? :: s.workers[w].i < s.next && s.results[s.workers[w].i].None?)
      && (forall i: nat | i < |s.results| && s.results[i].Some? :: s.results[i] == j.outcomes[i])
  {
    InvStart(j);
    InvRun(j, Start(j), steps);
    var s := Exec(j, Start(j), steps);
    forall v, w | 0 <= v < w < |s.workers| && s.workers[v].Busy? && s.workers[w].Busy?
      ensures s.workers[v].i != s.workers[w].i
    {
      assert Apart(s.workers[v], s.workers[w]);
    }
    forall w | 0 <= w < |s.workers| && s.workers[w].Busy?
      ensures s.workers[w].i < s.next && s.results[s.workers[w].i].None?
    {
      assert WorkerOk(j, s, s.workers[w]);
    }
    forall i: nat | i < |s.results| && s.results[i].Some?
      ensures s.results[i] == j.outcomes[i]
    {
      assert IndexOk(j, s, i);
    }
  }

  /** When the map resolves, it holds `fn(items[i])` at every `i`, exactly if some worker was allowed or nothing was asked. */
  lemma CompletedIsMapIff<R>(j: Job<R>, steps: seq<Step>)
    requires Legal(j, Start(j), steps) && Completed(Exec(j, Start(j), steps))
    ensures var s := Exec(j, Start(j), steps);
      (s.results == j.outcomes && forall i | 0 <= i < |s.results| :: s.results[i].Some?) <==> j.limit >= 1 || j.outcomes == []
  {
    InvStart(j);
    InvRun(j, Start(j), steps);
    var s := Exec(j, Start(j), steps);
    if WorkerCount(j) > 0 {
      assert s.workers[0].Exited? && WorkerOk(j, s, s.workers[0]);
      forall i: nat | i < |s.results|
        ensures s.results[i].Some? && s.results[i] == j.outcomes[i]
      {
        assert IndexOk(j, s, i) && !Held(s.workers, i);
      }
    } else if j.outcomes != [] {
      assert s.next == 0 by { NoWorkersNoSteps(j, steps); }
      assert s.results[0].None?;
    }
  }

  lemma NoWorkersNoSteps<R>(j: Job<R>, steps: seq<Step>)
    requires WorkerCount(j) == 0 && Legal(j, Start(j), steps)
    ensures Exec(j, Start(j), steps) == Start(j)
  {
  }

  // ----- Every schedule ends -----

  function Weight(w: Worker): nat {
    match w
    case Ready => 1
    case Busy(_) => 2
    case _ => 0
  }

  function Weights(workers: seq<Worker>): nat {
    if workers == [] then 0 else Weight(workers[0]) + Weights(workers[1..])
  }

  lemma {:induction false} WeightsUpdate(workers: seq<Worker>, w: nat, x: Worker)
    requires w < |workers|
    ensures Weights(workers[w := x]) + Weight(workers[w]) == Weights(workers) + Weight(x)
  {
    if w == 0 {
      assert workers[w := x][1..] == workers[1..];
    } else {
      WeightsUpdate(workers[1..], w - 1, x);
      assert workers[w := x][1..] == workers[1..][w - 1 := x];
    }
  }

  lemma {:induction false} FreshWeights(n: nat)
    ensures Weights(seq(n, _ => Ready)) == n
  {
    if n > 0 {
      FreshWeights(n - 1);
      assert seq(n, _ => Ready)[1..] == seq(n - 1, _ => Ready);
    }
  }

  function Measure<R>(j: Job<R>, s: State<R>): int {
    2 * (|j.outcomes| - s.next) + Weights(s.workers)
  }

  lemma StepMeasure<R>(j: Job<R>, s: State<R>, step: Step)
    requires Enabled(j, s, step) && s.next <= |j.outcomes|
    ensures Measure(j, Apply(j, s, step)) < Measure(j, s) && Apply(j, s, step).next <= |j.outcomes|
  {
    WeightsUpdate(s.workers, step.w, Apply(j, s, step).workers[step.w]);
  }

  lemma {:induction false} RunMeasure<R>(j: Job<R>, s: State<R>, steps: seq<Step>)
    requires Legal(j, s, steps) && s.next <= |j.outcomes|
    ensures |steps| <= Measure(j, s)
    decreases |steps|
  {
    if steps != [] {
      StepMeasure(j, s, steps[0]);
      RunMeasure(j, Apply(j, s, steps[0]), steps[1..]);
    }
  }

  /** No schedule is longer than two steps an item and one a worker. */
  lemma SchedulesAreBounded<R>(j: Job<R>, steps: seq<Step>)
    requires Legal(j, Start(j), steps)
    ensures |steps| <= 2 * |j.outcomes| + WorkerCount(j)
  {
    FreshWeights(WorkerCount(j));
    RunMeasure(j, Start(j), steps);
  }

  // ----- Lanes sharing a queue of hosts -----

  const MAX_CONCURRENT := 8

  datatype Lane = Idle | Running(host: string) | Gone

  datatype EventKind = Started | Ended

  /** `Ended` stands for the one `exit` or `error` event of a host. */
  datatype Event = Event(host: string, kind: EventKind)

  datatype Fleet = Fleet(queue: seq<string>, lanes: seq<Lane>, events: seq<Event>, aborted: bool)

  datatype FleetStep = Shift(l: nat) | Finish(l: nat) | Cancel

  function Launch(hosts: seq<string>): Fleet {
    var n := if |hosts| < MAX_CONCURRENT then |hosts| else MAX_CONCURRENT;
    Fleet(hosts, seq(n, _ => Idle), [], false)
  }

  predicate FleetEnabled(f: Fleet, step: FleetStep) {
    match step
    case Shift(l) => l < |f.lanes| && f.lanes[l].Idle?
    case Finish(l) => l < |f.lanes| && f.lanes[l].Running?
    case Cancel => true
  }

  /** While the owner lives and `emit` does not throw. A cancelled run starts and ends its remaining hosts at once. */
  function FleetApply(f: Fleet, step: FleetStep): Fleet
    requires FleetEnabled(f, step)
  {
    match step
    case Shift(l) =>
      if f.queue == [] then f.(lanes := f.lanes[l := Gone])
      else
        var host := f.queue[0];
        var g := f.(queue := f.queue[1..], events := f.events + [Event(host, Started)]);
        if f.aborted then g.(events := g.events + [Event(host, Ended)]) else g.(lanes := f.lanes[l := Running(host)])
    case Finish(l) => f.(lanes := f.lanes[l := Idle], events := f.events + [Event(f.lanes[l].host, Ended)])
    case Cancel => f.(aborted := true)
  }

  /** How many events of that kind a host has. */
  function EventsOf(events: seq<Event>, host: string, kind: EventKind): nat {
    if events == [] then 0
    else var n := |events| - 1; EventsOf(events[..n], host, kind) + (if events[n] == Event(host, kind) then 1 else 0)
  }

  /** How often a host is listed. */
  function Occurrences(hosts: seq<string>, host: string): nat {
    if hosts == [] then 0 else (if hosts[0] == host then 1 else 0) + Occurrences(hosts[1..], host)
  }

  function OnLane(l: Lane, host: string): nat {
    if l == Running(host) then 1 else 0
  }

  /** How many lanes run a host. */
  function LanesOn(lanes: seq<Lane>, host: string): nat {
    if lanes == [] then 0 else OnLane(lanes[0], host) + LanesOn(lanes[1..], host)
  }

  lemma {:induction false} LanesUpdate(lanes: seq<Lane>, l: nat, x: Lane, host: string)
    requires l < |lanes|
    ensures LanesOn(lanes[l := x], host) + OnLane(lanes[l], host) == LanesOn(lanes, host) + OnLane(x, host)
  {
    var lanes' := lanes[l := x];
    if l == 0 {
      assert lanes'[1..] == lanes[1..];
    } else {
      LanesUpdate(lanes[1..], l - 1, x, host);
      assert lanes'[0] == lanes[0] && lanes'[1..] == lanes[1..][l - 1 := x];
    }
  }

  lemma AddEvent(events: seq<Event>, e: Event, host: string, kind: EventKind)
    ensures EventsOf(events + [e], host, kind) == EventsOf(events, host, kind) + (if e == Event(host, kind) then 1 else 0)
  {
    assert (events + [e])[..|events|] == events;
  }

  /** Each occurrence of a host is queued or started, and each started one is running or ended. */
  ghost predicate HostAccounted(hosts: seq<string>, f: Fleet, host: string) {
    && EventsOf(f.events, host, Started) + Occurrences(f.queue, host) == Occurrences(hosts, host)
    && EventsOf(f.events, host, Ended) + LanesOn(f.lanes, host) == EventsOf(f.events, host, Started)
  }

  ghost predicate Accounted(hosts: seq<string>, f: Fleet) {
    && |f.lanes| <= MAX_CONCURRENT && (hosts != [] ==> f.lanes != [])
    && (forall host :: HostAccounted(hosts, f, host))
    && (forall l | 0 <= l < |f.lanes| && f.lanes[l].Gone? :: f.queue == [])
  }

  lemma {:induction false} IdleLanes(n: nat, host: string)
    ensures LanesOn(seq(n, _ => Idle), host) == 0
  {
    if n > 0 {
      IdleLanes(n - 1, host);
      assert seq(n, _ => Idle)[1..] == seq(n - 1, _ => Idle);
    }
  }

  lemma HostStep(hosts: seq<string>, f: Fleet, step: FleetStep, host: string)
    requires HostAccounted(hosts, f, host) && FleetEnabled(f, step)
    ensures HostAccounted(hosts, FleetApply(f, step), host)
  {
    match step {
      case Shift(l) =>
        if f.queue == [] {
          LanesUpdate(f.lanes, l, Gone, host);
        } else {
          HostShifted(hosts, f, l, host);
        }
      case Finish(l) =>
        LanesUpdate(f.lanes, l, Idle, host);
        AddEvent(f.events, Event(f.lanes[l].host, Ended), host, Started);
        AddEvent(f.events, Event(f.lanes[l].host, Ended), host, Ended);
      case Cancel =>
    }
  }

  lemma HostShifted(hosts: seq<string>, f: Fleet, l: nat, host: string)
    requires HostAccounted(hosts, f, host) && FleetEnabled(f, Shift(l)) && f.queue != []
    ensures HostAccounted(hosts, FleetApply(f, Shift(l)), host)
  {
    var next, queue := f.queue[0], f.queue[1..];
    var events := f.events + [Event(next, Started)];
    AddEvent(f.events, Event(next, Started), host, Started);
    AddEvent(f.events, Event(next, Started), host, Ended);
    if f.aborted {
      AddEvent(events, Event(next, Ended), host, Started);
      AddEvent(events, Event(next, Ended), host, Ended);
    } else {
      LanesUpdate(f.lanes, l, Running(next), host);
    }
  }

  lemma AccountedStep(hosts: seq<string>, f: Fleet, step: FleetStep)
    requires Accounted(hosts, f) && FleetEnabled(f, step)
    ensures Accounted(hosts, FleetApply(f, step))
  {
    forall host
      ensures HostAccounted(hosts, FleetApply(f, step), host)
    {
      HostStep(hosts, f, step, host);
    }
  }

  ghost predicate FleetLegal(f: Fleet, steps: seq<FleetStep>)
    decreases |steps|
  {
    steps != [] ==> FleetEnabled(f, steps[0]) && FleetLegal(FleetApply(f, steps[0]), steps[1..])
  }

  ghost function FleetExec(f: Fleet, steps: seq<FleetStep>): Fleet
    requires FleetLegal(f, steps)
    decreases |steps|
  {
    if steps == [] then f else FleetExec(FleetApply(f, steps[0]), steps[1..])
  }

  lemma {:induction false} AccountedRun(hosts: seq<string>, f: Fleet, steps: seq<FleetStep>)
    requires Accounted(hosts, f) && FleetLegal(f, steps)
    ensures Accounted(hosts, FleetExec(f, steps))
    decreases |steps|
  {
    if steps != [] {
      AccountedStep(hosts, f, steps[0]);
      AccountedRun(hosts, FleetApply(f, steps[0]), steps[1..]);
    }
  }

  lemma AccountedStart(hosts: seq<string>)
    ensures Accounted(hosts, Launch(hosts))
  {
    forall host
      ensures HostAccounted(hosts, Launch(hosts), host)
    {
      IdleLanes(|Launch(hosts).lanes|, host);
    }
  }

  /**
   * At every moment of every interleaving, cancelled or not, and for every host: at most eight lanes run,
   * the starts without an ending yet are those running, and starts never exceed the host's occurrences.
   */
  lemma EventsAreAccounted(hosts: seq<string>, steps: seq<FleetStep>, host: string)
    requires FleetLegal(Launch(hosts), steps)
    ensures var f := FleetExec(Launch(hosts), steps);
      && |f.lanes| <= MAX_CONCURRENT
      && EventsOf(f.events, host, Ended) + LanesOn(f.lanes, host) == EventsOf(f.events, host, Started) <= Occurrences(hosts, host)
  {
    AccountedStart(hosts);
    AccountedRun(hosts, Launch(hosts), steps);
    assert HostAccounted(hosts, FleetExec(Launch(hosts), steps), host);
  }

  /** When the run is over, each occurrence of a host has had exactly one start and one ending. */
  lemma FinishedRunIsComplete(hosts: seq<string>, steps: seq<FleetStep>, host: string)
    requires FleetLegal(Launch(hosts), steps)
    requires forall l <- FleetExec(Launch(hosts), steps).lanes :: l.Gone?
    ensures var f := FleetExec(Launch(hosts), steps);
      EventsOf(f.events, host, Started) == EventsOf(f.events, host, Ended) == Occurrences(hosts, host)
  {
    AccountedStart(hosts);
    AccountedRun(hosts, Launch(hosts), steps);
    var f := FleetExec(Launch(hosts), steps);
    assert HostAccounted(hosts, f, host);
    AllGone(f.lanes, host);
    if hosts != [] {
      assert f.lanes[0] in f.lanes;
    }
  }

  lemma {:induction false} AllGone(lanes: seq<Lane>, host: string)
    requires forall l <- lanes :: l.Gone?
    ensures LanesOn(lanes, host) == 0
  {
    if lanes != [] {
      assert lanes[0] in lanes;
      AllGone(lanes[1..], host);
    }
  }
}
