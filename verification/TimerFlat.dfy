/** What the timer manager of timer_manager.cpp is for, without its wheel: a flat map from handles to the
    tick at which each timer is due. A run of the manager is a sequence of events; `Apply` says which
    events are possible in a state and what they do. */
module TimerFlat {
  import opened Options

  const GENERATIONS: nat := 0x1_0000

  const TIMER_ID_INVALID: nat := 0xFFFF_FFFF_FFFF_FFFF

  /** The handle a recycled node gets: the same high part, the 16-bit generation one up. */
  function Reissue(id: nat): nat {
    id / GENERATIONS * GENERATIONS + (id + 1) % GENERATIONS
  }

  /** The high part of a handle: the index of its node. */
  function NodeOf(id: nat): nat {
    id / GENERATIONS
  }

  /** `cb` stands for the callback given to `SetTimer`. */
  datatype Timer = Timer(id: nat, due: int, interval: int, cb: Option<nat>)

  /** The node whose callback is being run, and whether its timer has been deleted meanwhile. */
  datatype Running = Idle | Running(node: nat, id: nat, interval: int, cb: Option<nat>, stopped: bool)

  /** `now` is `cur_time_`; `armed` maps node indices to the timers waiting in them; `lastId[n]` is the
      handle issued last for node n. */
  datatype Flat = Flat(now: int, armed: map<nat, Timer>, lastId: seq<nat>, running: Running)

  datatype Event =
    | Advance                                             // ++cur_time_
    | Armed(id: nat, delay: int, interval: int, cb: nat)  // SetTimer returned `id`
    | Deleted(id: nat)                                    // DelTimer found `id`
    | Fired(id: nat, callback: Option<nat>)               // the callback of `id` starts
    | Returned                                            // the running callback is over

  /** The callback of `id` started at `tick`. */
  datatype Firing = Firing(tick: int, id: nat)

  function Max(a: int, b: int): int {
    if a < b then b else a
  }

  predicate Holds(f: Flat, id: nat) {
    NodeOf(id) in f.armed && f.armed[NodeOf(id)].id == id
  }

  /** A handle that `DelTimer` finds: waiting, or running and not deleted yet. */
  predicate Live(f: Flat, id: nat) {
    Holds(f, id) || (f.running.Running? && f.running.id == id && !f.running.stopped)
  }

  /** `SetTimer` may issue `id`: a new node, or the next generation of a node that is free. */
  predicate Issuable(f: Flat, id: nat) {
    var n := NodeOf(id);
    if n < |f.lastId| then
      n !in f.armed && id == Reissue(f.lastId[n]) && (f.running.Running? && f.running.node == n ==> f.running.stopped)
    else
      n == |f.lastId| && id == n * GENERATIONS
  }

  /** After the callback: a deleted timer is gone, a periodic one is due again `interval` ticks after
      `cur_time_`, a one-shot one is over. The node is looked at, not the handle, so a timer that the
      callback put into the node of its own deleted timer is re-timed or dropped. */
  function Settle(f: Flat): Flat
    requires f.running.Running?
  {
    var n, r := f.running.node, f.running;
    var timer := if r.stopped then (if n in f.armed then Some(f.armed[n]) else None)
                 else Some(Timer(r.id, 0, r.interval, r.cb));
    var armed := if timer.None? || timer.value.interval <= 0 then f.armed - {n}
                 else f.armed[n := timer.value.(due := f.now + timer.value.interval)];
    f.(armed := armed, running := Idle)
  }

  /** A timer set now is due `delay` ticks on, the tick under way being the first. */
  function Arm(f: Flat, id: nat, delay: int, interval: int, cb: nat): Flat
    requires NodeOf(id) <= |f.lastId|
  {
    var n := NodeOf(id);
    f.(armed := f.armed[n := Timer(id, Max(f.now, f.now + delay - 1), interval, Some(cb))],
       lastId := if n < |f.lastId| then f.lastId[n := id] else f.lastId + [id])
  }

  function Apply(f: Flat, e: Event): Option<Flat> {
    match e
    case Advance =>
      if f.running.Idle? && forall n :: n in f.armed ==> f.now <= f.armed[n].due
      then Some(f.(now := f.now + 1)) else None
    case Armed(id, delay, interval, cb) =>
      if Issuable(f, id) then Some(Arm(f, id, delay, interval, cb)) else None
    case Deleted(id) =>
      if Holds(f, id) then Some(f.(armed := f.armed - {NodeOf(id)}))
      else if Live(f, id) then Some(f.(running := f.running.(stopped := true)))
      else None
    case Fired(id, cb) =>
      if f.running.Idle? && Holds(f, id) && f.armed[NodeOf(id)].due == f.now - 1 && f.armed[NodeOf(id)].cb == cb then
        Some(f.(armed := f.armed - {NodeOf(id)},
                running := Running(NodeOf(id), id, f.armed[NodeOf(id)].interval, cb, false)))
      else None
    case Returned =>
      if f.running.Running? then Some(Settle(f)) else None
  }

  function Run(f: Flat, trace: seq<Event>): Option<Flat>
    decreases trace
  {
    if trace == [] then Some(f)
    else
      var g := Apply(f, trace[0]);
      if g.None? then None else Run(g.value, trace[1..])
  }

  predicate Starts(e: Event, id: nat) {
    e.Fired? && e.id == id
  }

  /** The ticks at which a run starts the callback of `id`. */
  function FireTicks(f: Flat, trace: seq<Event>, id: nat): seq<int>
    decreases trace
  {
    if trace == [] then []
    else
      var g := Apply(f, trace[0]);
      if g.None? then []
      else (if Starts(trace[0], id) then [f.now - 1] else []) + FireTicks(g.value, trace[1..], id)
  }

  /** All starts of a run, in order. */
  function Firings(f: Flat, trace: seq<Event>): seq<Firing>
    decreases trace
  {
    if trace == [] then []
    else
      var g := Apply(f, trace[0]);
      if g.None? then []
      else (if trace[0].Fired? then [Firing(f.now - 1, trace[0].id)] else []) + Firings(g.value, trace[1..])
  }

  /** d, d + (v + 1), d + 2 (v + 1), ... */
  function Schedule(d: int, v: int, count: nat): seq<int> {
    seq(count, j => d + j * (v + 1))
  }

  lemma {:induction false} RunAppend(f: Flat, a: seq<Event>, b: seq<Event>)
    requires Run(f, a).Some?
    ensures Run(f, a + b) == Run(Run(f, a).value, b)
    decreases a
  {
    if a == [] {
      assert a + b == b;
    } else {
      assert (a + b)[1..] == a[1..] + b;
      RunAppend(Apply(f, a[0]).value, a[1..], b);
    }
  }

  lemma {:induction false} NowGrows(f: Flat, trace: seq<Event>)
    requires Run(f, trace).Some?
    ensures f.now <= Run(f, trace).value.now
    decreases trace
  {
    if trace != [] {
      NowGrows(Apply(f, trace[0]).value, trace[1..]);
    }
  }

  ghost predicate Ordered(s: seq<Firing>, from: int, until: int) {
    && (forall i :: 0 <= i < |s| ==> from - 1 <= s[i].tick < until)
    && (forall i, j :: 0 <= i < j < |s| ==> s[i].tick <= s[j].tick)
  }

  /** Callbacks start in non-decreasing tick order, over any run. */
  lemma {:induction false} FiringsOrdered(f: Flat, trace: seq<Event>)
    requires Run(f, trace).Some?
    ensures Ordered(Firings(f, trace), f.now, Run(f, trace).value.now)
    decreases trace
  {
    if trace != [] {
      var g := Apply(f, trace[0]).value;
      FiringsOrdered(g, trace[1..]);
      NowGrows(g, trace[1..]);
    }
  }

  /** Waiting timers sit in nodes that have been issued, under the handle issued last, and none is overdue
      by more than the tick being drained. */
  ghost predicate WellFormed(f: Flat) {
    && (forall n :: n in f.armed ==> n < |f.lastId| && f.lastId[n] == f.armed[n].id && f.now - 1 <= f.armed[n].due)
    && (forall n :: 0 <= n < |f.lastId| ==> NodeOf(f.lastId[n]) == n)
    && (f.running.Running? ==> NodeOf(f.running.id) == f.running.node < |f.lastId|)
    && (f.running.Running? && !f.running.stopped ==>
          f.running.node !in f.armed && f.lastId[f.running.node] == f.running.id)
  }

  lemma WellFormedKept(f: Flat, e: Event)
    requires WellFormed(f) && Apply(f, e).Some?
    ensures WellFormed(Apply(f, e).value)
  {
    if e.Armed? {
      ArmWellFormed(f, e.id, e.delay, e.interval, e.cb);
    } else if e.Returned? {
      SettleWellFormed(f);
    }
  }

  lemma ArmWellFormed(f: Flat, id: nat, delay: int, interval: int, cb: nat)
    requires WellFormed(f) && Issuable(f, id)
    ensures WellFormed(Arm(f, id, delay, interval, cb))
  {
  }

  lemma SettleWellFormed(f: Flat)
    requires WellFormed(f) && f.running.Running?
    ensures WellFormed(Settle(f))
  {
  }

  /** Nothing is left to do for the ticks before `now`. */
  predicate Settled(f: Flat) {
    f.running.Idle? && forall n :: n in f.armed ==> f.now <= f.armed[n].due
  }

  predicate NotDeleted(trace: seq<Event>, id: nat) {
    forall e :: e in trace ==> e != Deleted(id)
  }

  predicate NotReissued(trace: seq<Event>, id: nat) {
    forall e :: e in trace && e.Armed? ==> e.id != id
  }

  /** The trace neither deletes the timer `id` nor issues that handle anew. */
  predicate Undisturbed(trace: seq<Event>, id: nat) {
    NotDeleted(trace, id) && NotReissued(trace, id)
  }

  /** Whenever the timer `id` starts, it is with the callback `cb`. */
  predicate Calls(trace: seq<Event>, id: nat, cb: nat) {
    forall e :: e in trace && Starts(e, id) ==> e.callback == Some(cb)
  }

  predicate Waiting(f: Flat, id: nat, due: int, interval: int, cb: nat) {
    && NodeOf(id) in f.armed && f.armed[NodeOf(id)] == Timer(id, due, interval, Some(cb))
    && (f.running.Running? ==> f.running.node != NodeOf(id))
  }

  predicate InCallback(f: Flat, id: nat, interval: int, cb: nat) {
    f.running == Running(NodeOf(id), id, interval, Some(cb), false) && NodeOf(id) !in f.armed
  }

  predicate Gone(f: Flat, id: nat) {
    !Holds(f, id) && (f.running.Running? ==> f.running.id != id || f.running.interval <= 0)
  }

  /** The stages a periodic timer that is next due at `due` goes through. */
  predicate Cycling(f: Flat, id: nat, due: int, interval: int, cb: nat) {
    Waiting(f, id, due, interval, cb) || (InCallback(f, id, interval, cb) && due == f.now + interval)
  }

  lemma ScheduleStep(d: int, v: int, count: nat)
    ensures [d] + Schedule(d + v + 1, v, count) == Schedule(d, v, count + 1)
    ensures d + v + 1 + count * (v + 1) == d + (count + 1) * (v + 1)
  {
    var s := Schedule(d + v + 1, v, count);
    forall j | 0 <= j < count ensures s[j] == Schedule(d, v, count + 1)[j + 1] {
      assert d + (v + 1) + j * (v + 1) == d + (j + 1) * (v + 1);
    }
  }

  /** One event keeps the cycle; only `Fired(id)` moves it on, by interval + 1. */
  lemma CyclingStep(f: Flat, e: Event, id: nat, due: int, interval: int, cb: nat)
    requires WellFormed(f) && Apply(f, e).Some? && interval > 0 && Cycling(f, id, due, interval, cb) &&
              NotDeleted([e], id)
    ensures var g := Apply(f, e).value;
      if Starts(e, id) then e.callback == Some(cb) && due == f.now - 1 &&
          Cycling(g, id, due + interval + 1, interval, cb) else Cycling(g, id, due, interval, cb)
  {
    assert e in [e];
  }

  lemma {:induction false} CyclingRun(f: Flat, trace: seq<Event>, id: nat, due: int, interval: int,
                                      cb: nat) returns (count: nat)
    requires WellFormed(f) && Run(f, trace).Some? && interval > 0 && Cycling(f, id, due, interval, cb) &&
              NotDeleted(trace, id)
    ensures FireTicks(f, trace, id) == Schedule(due, interval, count) && Calls(trace, id, cb)
    ensures Cycling(Run(f, trace).value, id, due + count * (interval + 1), interval, cb)
    decreases trace
  {
    if trace == [] {
      count := 0;
    } else {
      var e, rest, g := trace[0], trace[1..], Apply(f, trace[0]).value;
      assert e in trace && forall x :: x in rest ==> x in trace;
      CyclingStep(f, e, id, due, interval, cb);
      WellFormedKept(f, e);
      if Starts(e, id) {
        count := CyclingRun(g, rest, id, due + interval + 1, interval, cb);
        ScheduleStep(due, interval, count);
        count := count + 1;
      } else {
        count := CyclingRun(g, rest, id, due, interval, cb);
      }
    }
  }

  lemma OneShotStep(f: Flat, e: Event, id: nat, due: int, interval: int, cb: nat)
    requires WellFormed(f) && Apply(f, e).Some? && interval <= 0 && Undisturbed([e], id)
    requires Waiting(f, id, due, interval, cb) || Gone(f, id)
    ensures var g := Apply(f, e).value;
      if Starts(e, id) then e.callback == Some(cb) && Waiting(f, id, due, interval, cb) && due == f.now - 1 &&
          Gone(g, id)
      else if Waiting(f, id, due, interval, cb) then Waiting(g, id, due, interval, cb) else Gone(g, id)
  {
    assert e in [e];
  }

  lemma {:induction false} OneShotRun(f: Flat, trace: seq<Event>, id: nat, due: int, interval: int, cb: nat)
    requires WellFormed(f) && Run(f, trace).Some? && interval <= 0 && Undisturbed(trace, id)
    requires Waiting(f, id, due, interval, cb) || Gone(f, id)
    ensures Calls(trace, id, cb)
    ensures var ticks, g := FireTicks(f, trace, id), Run(f, trace).value;
      || (ticks == [due] && Waiting(f, id, due, interval, cb) && Gone(g, id))
      || (ticks == [] && if Waiting(f, id, due, interval, cb) then Waiting(g, id, due, interval, cb) else Gone(g, id))
    decreases trace
  {
    if trace != [] {
      var e, rest := trace[0], trace[1..];
      assert e in trace && forall x :: x in rest ==> x in trace;
      OneShotStep(f, e, id, due, interval, cb);
      WellFormedKept(f, e);
      OneShotRun(Apply(f, e).value, rest, id, due, interval, cb);
    }
  }

  /** A timer that is not deleted starts at its due tick and, if periodic, every interval + 1 ticks after
      that: over any run that ends settled, exactly at those ticks that have passed, each exactly once. */
  lemma PeriodicOnSchedule(f: Flat, trace: seq<Event>, id: nat, due: int, interval: int, cb: nat) returns (count: nat)
    requires WellFormed(f) && Run(f, trace).Some? && Settled(Run(f, trace).value) && interval > 0
    requires Waiting(f, id, due, interval, cb) && NotDeleted(trace, id)
    ensures FireTicks(f, trace, id) == Schedule(due, interval, count) && Calls(trace, id, cb)
    ensures var now := Run(f, trace).value.now;
      (forall j :: 0 <= j < count ==> Schedule(due, interval, count)[j] < now) && now <= due + count * (interval + 1)
  {
    count := CyclingRun(f, trace, id, due, interval, cb);
    FireTicksFire(f, trace, id);
    forall j | 0 <= j < count ensures Schedule(due, interval, count)[j] < Run(f, trace).value.now {
      assert FireTicks(f, trace, id)[j] in FireTicks(f, trace, id);
    }
  }

  lemma OneShotOnSchedule(f: Flat, trace: seq<Event>, id: nat, due: int, interval: int, cb: nat)
    requires WellFormed(f) && Run(f, trace).Some? && Settled(Run(f, trace).value) && interval <= 0
    requires Waiting(f, id, due, interval, cb) && Undisturbed(trace, id)
    ensures FireTicks(f, trace, id) == if due < Run(f, trace).value.now then [due] else []
    ensures Calls(trace, id, cb)
  {
    OneShotRun(f, trace, id, due, interval, cb);
    FireTicksFire(f, trace, id);
    assert FireTicks(f, trace, id) == [due] ==> due in FireTicks(f, trace, id);
  }

  lemma WaitingStep(f: Flat, e: Event, id: nat, due: int, interval: int, cb: nat)
    requires WellFormed(f) && Apply(f, e).Some? && Waiting(f, id, due, interval, cb) && e != Deleted(id)
    ensures if Starts(e, id) then due == f.now - 1 else Waiting(Apply(f, e).value, id, due, interval, cb)
  {
  }

  /** Whatever becomes of its handle afterwards, a timer that is not deleted starts first at its due tick. */
  lemma {:induction false} FirstStart(f: Flat, trace: seq<Event>, id: nat, due: int, interval: int, cb: nat)
    requires WellFormed(f) && Run(f, trace).Some? && Waiting(f, id, due, interval, cb) && NotDeleted(trace, id)
    ensures var ticks := FireTicks(f, trace, id);
      if ticks == [] then Waiting(Run(f, trace).value, id, due, interval, cb) else ticks[0] == due
    decreases trace
  {
    if trace != [] {
      var e, rest := trace[0], trace[1..];
      assert e in trace && forall x :: x in rest ==> x in trace;
      WaitingStep(f, e, id, due, interval, cb);
      WellFormedKept(f, e);
      if !Starts(e, id) {
        FirstStart(Apply(f, e).value, rest, id, due, interval, cb);
      }
    }
  }

  lemma {:induction false} FireTicksFire(f: Flat, trace: seq<Event>, id: nat)
    requires Run(f, trace).Some?
    ensures forall t :: t in FireTicks(f, trace, id) ==> f.now - 1 <= t < Run(f, trace).value.now
    decreases trace
  {
    if trace != [] {
      var g := Apply(f, trace[0]).value;
      FireTicksFire(g, trace[1..], id);
      NowGrows(g, trace[1..]);
    }
  }

  /** Handles issued for node n during a run. */
  function Issued(trace: seq<Event>, n: nat): nat {
    if trace == [] then 0
    else (if trace[0].Armed? && NodeOf(trace[0].id) == n then 1 else 0) + Issued(trace[1..], n)
  }

  /** The handle a node has after k more issues. */
  function Generation(id: nat, k: nat): nat {
    id / GENERATIONS * GENERATIONS + (id + k) % GENERATIONS
  }

  lemma GenerationStep(id: nat, k: nat)
    ensures NodeOf(Reissue(id)) == NodeOf(id) && Generation(id, 0) == id
    ensures Generation(Reissue(id), k) == Generation(id, k + 1)
  {
  }

  lemma {:induction false} GenerationRun(f: Flat, trace: seq<Event>, n: nat)
    requires Run(f, trace).Some? && n < |f.lastId|
    ensures n < |Run(f, trace).value.lastId|
    ensures Run(f, trace).value.lastId[n] == Generation(f.lastId[n], Issued(trace, n))
    decreases trace
  {
    if trace == [] {
      GenerationStep(f.lastId[n], 0);
    } else {
      var g := Apply(f, trace[0]).value;
      GenerationStep(f.lastId[n], Issued(trace[1..], n));
      GenerationRun(g, trace[1..], n);
    }
  }

  /** A handle that is over is the current handle of its node again only after a multiple of 2^16 issues. */
  lemma HandleReturns(f: Flat, trace: seq<Event>, id: nat)
    requires Run(f, trace).Some? && NodeOf(id) < |f.lastId| && f.lastId[NodeOf(id)] == id
    ensures var g := Run(f, trace).value;
      NodeOf(id) < |g.lastId| && (g.lastId[NodeOf(id)] == id <==> Issued(trace, NodeOf(id)) % 0x1_0000 == 0)
  {
    GenerationRun(f, trace, NodeOf(id));
    GenerationAgain(id, Issued(trace, NodeOf(id)));
  }

  lemma GenerationAgain(id: nat, k: nat)
    ensures Generation(id, k) == id <==> k % GENERATIONS == 0
  {
    assert id == id / GENERATIONS * GENERATIONS + id % GENERATIONS;
    assert (id + k) % GENERATIONS == id % GENERATIONS <==> k % GENERATIONS == 0;
  }

  /** No handle of a node comes again within 2^16 issues. */
  lemma {:induction false} NotReissuedSoon(f: Flat, trace: seq<Event>, id: nat, k: nat)
    requires Run(f, trace).Some? && NodeOf(id) < |f.lastId| && f.lastId[NodeOf(id)] == Generation(id, k)
    requires Issued(trace, NodeOf(id)) + k < GENERATIONS
    ensures NotReissued(trace, id)
    decreases trace
  {
    if trace != [] {
      var e, rest, g := trace[0], trace[1..], Apply(f, trace[0]).value;
      GenerationNext(id, k);
      NotReissuedSoon(g, rest, id, if e.Armed? && NodeOf(e.id) == NodeOf(id) then k + 1 else k);
      forall x | x in trace && x.Armed? ensures x.id != id {
        assert x == e || x in rest;
      }
    }
  }

  lemma GenerationNext(id: nat, k: nat)
    ensures Reissue(Generation(id, k)) == Generation(id, k + 1) && NodeOf(Generation(id, k)) == NodeOf(id)
    ensures k + 1 < GENERATIONS ==> Generation(id, k + 1) != id
  {
    var q, r := id / GENERATIONS, (id + k) % GENERATIONS;
    assert Generation(id, k) == q * GENERATIONS + r;
    assert (q * GENERATIONS + r) / GENERATIONS == q;
    assert (q * GENERATIONS + r + 1) % GENERATIONS == (r + 1) % GENERATIONS == (id + k + 1) % GENERATIONS;
    assert k + 1 < GENERATIONS ==> (id + k + 1) % GENERATIONS != id % GENERATIONS;
  }

  lemma DeadStep(f: Flat, e: Event, id: nat)
    requires WellFormed(f) && Apply(f, e).Some? && !Live(f, id) && (e.Armed? ==> e.id != id)
    ensures !Live(Apply(f, e).value, id) && !Starts(e, id)
  {
  }

  /** A timer that is deleted or over is not found and does not start again unless its handle is issued again, */
  lemma {:induction false} DeadNeverStarts(f: Flat, trace: seq<Event>, id: nat)
    requires WellFormed(f) && Run(f, trace).Some? && !Live(f, id) && NotReissued(trace, id)
    ensures FireTicks(f, trace, id) == [] && !Live(Run(f, trace).value, id)
    decreases trace
  {
    if trace != [] {
      assert trace[0] in trace && forall x :: x in trace[1..] ==> x in trace;
      WellFormedKept(f, trace[0]);
      DeadStep(f, trace[0], id);
      DeadNeverStarts(Apply(f, trace[0]).value, trace[1..], id);
    }
  }

  /** which does not happen until its node has been issued 2^16 times since the handle was. */
  lemma DeadStaysDead(f: Flat, trace: seq<Event>, id: nat, k: nat)
    requires WellFormed(f) && Run(f, trace).Some? && !Live(f, id)
    requires NodeOf(id) < |f.lastId| && f.lastId[NodeOf(id)] == Generation(id, k)
    requires Issued(trace, NodeOf(id)) + k < GENERATIONS
    ensures FireTicks(f, trace, id) == [] && !Live(Run(f, trace).value, id)
  {
    NotReissuedSoon(f, trace, id, k);
    DeadNeverStarts(f, trace, id);
  }

  /** `count` starts at `first`, `first + interval + 1`, ... are all those before `end`. */
  ghost predicate AllStarts(first: int, interval: int, count: nat, end: int) {
    if interval > 0 then
      && (forall j :: 0 <= j < count ==> Schedule(first, interval, count)[j] < end)
      && end <= first + count * (interval + 1)
    else count == if first < end then 1 else 0
  }

  lemma TimerRuns(f: Flat, trace: seq<Event>, id: nat, due: int, interval: int, cb: nat) returns (count: nat)
    requires WellFormed(f) && Run(f, trace).Some? && Settled(Run(f, trace).value)
    requires Waiting(f, id, due, interval, cb) && NotDeleted(trace, id) && (interval <= 0 ==> NotReissued(trace, id))
    ensures FireTicks(f, trace, id) == Schedule(due, interval, count) && Calls(trace, id, cb)
    ensures AllStarts(due, interval, count, Run(f, trace).value.now)
  {
    if interval > 0 {
      count := PeriodicOnSchedule(f, trace, id, due, interval, cb);
    } else {
      OneShotOnSchedule(f, trace, id, due, interval, cb);
      count := if due < Run(f, trace).value.now then 1 else 0;
      assert Schedule(due, interval, 1) == [due] && Schedule(due, interval, 0) == [];
    }
  }

  /** A timer set between two updates or in a callback, with any delay, except in the node of the timer whose callback
      is running: over any later run that ends settled it starts at tick max(c, c + delay - 1) for c = `cur_time_`,
      exactly once, or from there on every interval + 1 ticks, and always with its own callback. */
  lemma SetTimerRuns(f: Flat, id: nat, delay: int, interval: int, cb: nat, trace: seq<Event>) returns (count: nat)
    requires WellFormed(f) && Issuable(f, id) && (f.running.Running? ==> f.running.node != NodeOf(id))
    requires Run(f, [Armed(id, delay, interval, cb)] + trace).Some?
    requires NotDeleted(trace, id) && (interval <= 0 ==> NotReissued(trace, id))
    requires Settled(Run(f, [Armed(id, delay, interval, cb)] + trace).value)
    ensures var first, run := Max(f.now, f.now + delay - 1), [Armed(id, delay, interval, cb)] + trace;
      && FireTicks(f, run, id) == Schedule(first, interval, count) && Calls(trace, id, cb)
      && AllStarts(first, interval, count, Run(f, run).value.now)
  {
    var e := Armed(id, delay, interval, cb);
    assert ([e] + trace)[0] == e && ([e] + trace)[1..] == trace;
    WellFormedKept(f, e);
    count := TimerRuns(Apply(f, e).value, trace, id, Max(f.now, f.now + delay - 1), interval, cb);
  }

  /** What the end of the callback makes of a timer that the callback has just set: it is kept as it was set unless it
      is in the node of the timer whose callback it was (and would be due at the same tick anyhow). */
  lemma SettleKeeps(f: Flat, id: nat, delay: int, interval: int, cb: nat)
    requires WellFormed(f) && f.running.Running? && Issuable(f, id)
    ensures var g, timer := Settle(Arm(f, id, delay, interval, cb)),
                            Timer(id, Max(f.now, f.now + delay - 1), interval, Some(cb));
      NodeOf(id) in g.armed && g.armed[NodeOf(id)] == timer <==>
      NodeOf(id) != f.running.node || (interval > 0 && f.now + interval == timer.due)
  {
  }

  /** A callback that has deleted its own one-shot timer sets another one, which gets the same node and is lost. */
  lemma SetAndLost()
    ensures var f := Flat(10, map[], [0], Running(0, 0, 0, Some(7), true));
      && WellFormed(f) && Issuable(f, 1)
      && Settle(Arm(f, 1, 5, 0, 8)).armed == map[]
  {
  }

  /** Whatever else the callback does short of deleting it, a timer that it sets waits for its tick when the callback
      is over; one in the node of the timer whose callback it was waits for interval ticks instead, and is lost when
      it is a one-shot one. */
  lemma SetInCallback(f: Flat, id: nat, delay: int, interval: int, cb: nat, trace: seq<Event>)
    requires WellFormed(f) && f.running.Running? && Issuable(f, id)
    requires Returned !in trace && NotDeleted(trace, id)
    requires Run(f, [Armed(id, delay, interval, cb)] + trace + [Returned]).Some?
    ensures var g := Run(f, [Armed(id, delay, interval, cb)] + trace + [Returned]).value;
      if NodeOf(id) != f.running.node then Waiting(g, id, Max(f.now, f.now + delay - 1), interval, cb)
      else if interval > 0 then Waiting(g, id, f.now + interval, interval, cb)
      else !Live(g, id)
  {
    var due := Max(f.now, f.now + delay - 1);
    var h := ArmedThen(f, id, delay, interval, cb, trace + [Returned]);
    assert [Armed(id, delay, interval, cb)] + trace + [Returned] ==
           [Armed(id, delay, interval, cb)] + (trace + [Returned]);
    var g := CallbackEnds(h, trace, id, Timer(id, due, interval, Some(cb)));
    SettledTimer(g, id, due, interval, cb);
  }

  lemma ArmedThen(f: Flat, id: nat, delay: int, interval: int, cb: nat, rest: seq<Event>) returns (h: Flat)
    requires WellFormed(f) && Issuable(f, id)
    ensures WellFormed(h) && h.now == f.now && h.running == f.running && NodeOf(id) in h.armed
    ensures h.armed[NodeOf(id)] == Timer(id, Max(f.now, f.now + delay - 1), interval, Some(cb))
    ensures Run(f, [Armed(id, delay, interval, cb)] + rest) == Run(h, rest)
  {
    var e := Armed(id, delay, interval, cb);
    h := Arm(f, id, delay, interval, cb);
    WellFormedKept(f, e);
    assert Apply(f, e) == Some(h) && ([e] + rest)[1..] == rest;
  }

  lemma SettledTimer(f: Flat, id: nat, due: int, interval: int, cb: nat)
    requires WellFormed(f) && f.running.Running?
    requires NodeOf(id) in f.armed && f.armed[NodeOf(id)] == Timer(id, due, interval, Some(cb))
    ensures var g := Settle(f);
      if NodeOf(id) != f.running.node then Waiting(g, id, due, interval, cb)
      else if interval > 0 then Waiting(g, id, f.now + interval, interval, cb)
      else !Live(g, id)
  {
  }

  lemma CallbackEnds(f: Flat, trace: seq<Event>, id: nat, timer: Timer) returns (g: Flat)
    requires WellFormed(f) && f.running.Running? && Run(f, trace + [Returned]).Some?
    requires Returned !in trace && NotDeleted(trace, id)
    requires NodeOf(id) in f.armed && f.armed[NodeOf(id)] == timer && timer.id == id
    ensures WellFormed(g) && g.now == f.now && g.running.Running? && g.running.node == f.running.node
    ensures NodeOf(id) in g.armed && g.armed[NodeOf(id)] == timer
    ensures Run(f, trace + [Returned]) == Some(Settle(g))
  {
    RunPrefix(f, trace, [Returned]);
    InCallbackRun(f, trace, id, timer);
    RunAppend(f, trace, [Returned]);
    g := Run(f, trace).value;
    assert [Returned][1..] == [];
    assert Run(g, [Returned]) == Some(Settle(g));
  }

  lemma {:induction false} RunPrefix(f: Flat, a: seq<Event>, b: seq<Event>)
    requires Run(f, a + b).Some?
    ensures Run(f, a).Some?
    decreases a
  {
    if a != [] {
      assert (a + b)[1..] == a[1..] + b;
      RunPrefix(Apply(f, a[0]).value, a[1..], b);
    }
  }

  /** Until the callback is over, time stands still and a waiting timer stays unless it is deleted. */
  lemma {:induction false} InCallbackRun(f: Flat, trace: seq<Event>, id: nat, timer: Timer)
    requires WellFormed(f) && f.running.Running? && Run(f, trace).Some? && Returned !in trace && NotDeleted(trace, id)
    requires NodeOf(id) in f.armed && f.armed[NodeOf(id)] == timer && timer.id == id
    ensures var g := Run(f, trace).value;
      && WellFormed(g) && g.now == f.now && g.running.Running? && g.running.node == f.running.node
      && NodeOf(id) in g.armed && g.armed[NodeOf(id)] == timer
    decreases trace
  {
    if trace != [] {
      assert trace[0] in trace && forall x :: x in trace[1..] ==> x in trace;
      WellFormedKept(f, trace[0]);
      InCallbackRun(Apply(f, trace[0]).value, trace[1..], id, timer);
    }
  }
}
