/** In which order the timers of one tick start. Next to the flat machine stands a line of the waiting timers in the
    order in which they were set or set again. Of two for the same tick the one further back must not start first if
    both were set at one time, or the one in front less than 256 ticks ahead. (A timer set further ahead is in a higher
    level of the wheel, and one set later may get ahead of it.) */
module TimerOrder {
  import opened Options
  import opened Sequences
  import opened TimerFlat

  /** The timer in a node, and the time at which it was set or set again. */
  datatype Turn = Turn(node: nat, at: int)

  datatype Lineup = Lineup(flat: Flat, line: seq<Turn>)

  function Leave(line: seq<Turn>, n: nat): seq<Turn> {
    if line == [] then []
    else if line[0].node == n then Leave(line[1..], n)
    else [line[0]] + Leave(line[1..], n)
  }

  /** The node whose timer an event sets, ends or starts. */
  function Touched(f: Flat, e: Event): Option<nat> {
    match e
    case Advance => None
    case Armed(id, _, _, _) => Some(NodeOf(id))
    case Deleted(id) => if Holds(f, id) then Some(NodeOf(id)) else None
    case Fired(id, _) => Some(NodeOf(id))
    case Returned => if f.running.Running? then Some(f.running.node) else None
  }

  /** That node leaves the line, and goes to its end if its timer waits after the event. */
  function NextLine(f: Flat, line: seq<Turn>, e: Event, g: Flat): seq<Turn> {
    match Touched(f, e)
    case None => line
    case Some(n) => Leave(line, n) + if n in g.armed then [Turn(n, g.now)] else []
  }

  /** Of two timers for tick `due`, one set at time `first` and one no earlier in line set at time `second`, the latter
      has to wait for the former. */
  predicate InTurn(first: int, second: int, due: int) {
    first == second || (first <= second && due - first < 256)
  }

  predicate InFront(f: Flat, line: seq<Turn>, i: nat, j: nat) {
    && i < j < |line| && line[i].node in f.armed && line[j].node in f.armed
    && f.armed[line[i].node].due == f.armed[line[j].node].due
    && InTurn(line[i].at, line[j].at, f.armed[line[i].node].due)
  }

  /** Node n has to wait for nobody in front of it. */
  ghost predicate MayStart(f: Flat, line: seq<Turn>, n: nat) {
    forall i: nat, j: nat :: InFront(f, line, i, j) ==> line[j].node != n
  }

  ghost function Move(q: Lineup, e: Event): Option<Lineup> {
    var g := Apply(q.flat, e);
    if g.None? || (e.Fired? && !MayStart(q.flat, q.line, NodeOf(e.id))) then None
    else Some(Lineup(g.value, NextLine(q.flat, q.line, e, g.value)))
  }

  ghost function Moves(q: Lineup, trace: seq<Event>): Option<Lineup>
    decreases trace
  {
    if trace == [] then Some(q)
    else
      var r := Move(q, trace[0]);
      if r.None? then None else Moves(r.value, trace[1..])
  }

  lemma {:induction false} MovesAppend(q: Lineup, a: seq<Event>, b: seq<Event>)
    requires Moves(q, a).Some?
    ensures Moves(q, a + b) == Moves(Moves(q, a).value, b)
    decreases a
  {
    if a == [] {
      assert a + b == b;
    } else {
      assert (a + b)[1..] == a[1..] + b;
      MovesAppend(Move(q, a[0]).value, a[1..], b);
    }
  }

  lemma MovesExtended(q: Lineup, trace: seq<Event>, r: Lineup, e: Event, u: Lineup)
    requires Moves(q, trace) == Some(r) && Move(r, e) == Some(u)
    ensures Moves(q, trace + [e]) == Some(u)
  {
    MovesAppend(q, trace, [e]);
    assert [e][1..] == [];
    assert Moves(u, []) == Some(u);
  }

  lemma {:induction false} MovesPrefix(q: Lineup, a: seq<Event>, b: seq<Event>)
    requires Moves(q, a + b).Some?
    ensures Moves(q, a).Some?
    decreases a
  {
    if a != [] {
      assert (a + b)[1..] == a[1..] + b;
      MovesPrefix(Move(q, a[0]).value, a[1..], b);
    }
  }

  /** The line only restricts the flat machine. */
  lemma {:induction false} MovesRun(q: Lineup, trace: seq<Event>)
    requires Moves(q, trace).Some?
    ensures Run(q.flat, trace) == Some(Moves(q, trace).value.flat)
    decreases trace
  {
    if trace != [] {
      MovesRun(Move(q, trace[0]).value, trace[1..]);
    }
  }

  // ----- timers that are set in turn start in order -----

  /** No start of `b` comes before the first start of `a`. */
  ghost predicate StartsFirst(trace: seq<Event>, a: nat, b: nat) {
    forall j :: 0 <= j < |trace| && Starts(trace[j], b) ==> exists i :: 0 <= i < j && Starts(trace[i], a)
  }

  /** The timer `id` waits for tick `due`, and the callback that runs, if any, is not of its node. */
  predicate WaitsFor(f: Flat, id: nat, due: int) {
    && NodeOf(id) in f.armed && f.armed[NodeOf(id)].id == id && f.armed[NodeOf(id)].due == due
    && (f.running.Running? ==> f.running.node != NodeOf(id))
  }

  ghost predicate Paired(q: Lineup, a: nat, b: nat, first: int, second: int, due: int) {
    && WaitsFor(q.flat, a, due) && WaitsFor(q.flat, b, due) && NodeOf(a) != NodeOf(b) && InTurn(first, second, due)
    && Before(q.line, Turn(NodeOf(a), first), Turn(NodeOf(b), second))
  }

  lemma WaitsStep(f: Flat, e: Event, id: nat, due: int)
    requires WellFormed(f) && Apply(f, e).Some? && WaitsFor(f, id, due) && e != Deleted(id) && !Starts(e, id)
    ensures WaitsFor(Apply(f, e).value, id, due) && Touched(f, e) != Some(NodeOf(id))
  {
  }

  lemma {:induction false} LeaveMembers(line: seq<Turn>, n: nat)
    ensures forall x :: x in Leave(line, n) <==> x in line && x.node != n
  {
    if line != [] {
      LeaveMembers(line[1..], n);
      assert line == [line[0]] + line[1..];
    }
  }

  lemma {:induction false} BeforeLeave(line: seq<Turn>, n: nat, x: Turn, y: Turn)
    requires Before(line, x, y) && x.node != n && y.node != n
    ensures Before(Leave(line, n), x, y)
  {
    BeforeTail(line, x, y);
    var rest := Leave(line[1..], n);
    LeaveMembers(line[1..], n);
    if Before(line[1..], x, y) { BeforeLeave(line[1..], n, x, y); }
    if line[0].node != n {
      assert ([line[0]] + rest)[1..] == rest;
      BeforeTail([line[0]] + rest, x, y);
    }
  }

  lemma BeforeNext(f: Flat, line: seq<Turn>, e: Event, g: Flat, x: Turn, y: Turn)
    requires Before(line, x, y) && Touched(f, e) != Some(x.node) && Touched(f, e) != Some(y.node)
    ensures Before(NextLine(f, line, e, g), x, y)
  {
    if Touched(f, e).Some? {
      var n := Touched(f, e).value;
      BeforeLeave(line, n, x, y);
      BeforeAppend(Leave(line, n), if n in g.armed then [Turn(n, g.now)] else [], x, y);
    }
  }

  /** While the one in front waits, the other one cannot start. */
  lemma PairedWaits(q: Lineup, e: Event, a: nat, b: nat, first: int, second: int, due: int)
    requires Paired(q, a, b, first, second, due) && Move(q, e).Some?
    ensures !Starts(e, b)
  {
    var x, y := Turn(NodeOf(a), first), Turn(NodeOf(b), second);
    var i, j :| 0 <= i < j < |q.line| && q.line[i] == x && q.line[j] == y;
    assert InFront(q.flat, q.line, i, j);
  }

  lemma PairedStep(q: Lineup, e: Event, a: nat, b: nat, first: int, second: int, due: int)
    requires WellFormed(q.flat) && Paired(q, a, b, first, second, due) && Move(q, e).Some?
    requires e != Deleted(a) && e != Deleted(b) && !Starts(e, a)
    ensures Paired(Move(q, e).value, a, b, first, second, due)
  {
    PairedWaits(q, e, a, b, first, second, due);
    WaitsStep(q.flat, e, a, due);
    WaitsStep(q.flat, e, b, due);
    BeforeNext(q.flat, q.line, e, Apply(q.flat, e).value, Turn(NodeOf(a), first), Turn(NodeOf(b), second));
  }

  /** Of two timers set in turn, the one in front starts first. */
  lemma {:induction false} PairedOrder(q: Lineup, trace: seq<Event>, a: nat, b: nat, first: int, second: int, due: int)
    requires WellFormed(q.flat) && Paired(q, a, b, first, second, due) && Moves(q, trace).Some?
    requires NotDeleted(trace, a) && NotDeleted(trace, b)
    ensures StartsFirst(trace, a, b)
    decreases trace
  {
    if trace != [] {
      var e, rest := trace[0], trace[1..];
      assert e in trace && forall x :: x in rest ==> x in trace;
      PairedWaits(q, e, a, b, first, second, due);
      if !Starts(e, a) {
        PairedStep(q, e, a, b, first, second, due);
        WellFormedKept(q.flat, e);
        PairedOrder(Move(q, e).value, rest, a, b, first, second, due);
        StartsLater(e, rest, a, b);
      }
    }
  }

  lemma StartsOnly(e: Event, rest: seq<Event>, a: nat, b: nat)
    requires StartsFirst([e] + rest, a, b) && !Starts(e, a)
    ensures StartsFirst(rest, a, b)
  {
    var all := [e] + rest;
    forall j | 0 <= j < |rest| && Starts(rest[j], b) ensures exists i :: 0 <= i < j && Starts(rest[i], a) {
      assert all[j + 1] == rest[j];
      var i :| 0 <= i < j + 1 && Starts(all[i], a);
      assert rest[i - 1] == all[i];
    }
  }

  lemma StartsLater(e: Event, rest: seq<Event>, a: nat, b: nat)
    requires StartsFirst(rest, a, b) && !Starts(e, b)
    ensures StartsFirst([e] + rest, a, b)
  {
    var all := [e] + rest;
    forall j | 0 <= j < |all| && Starts(all[j], b) ensures exists i :: 0 <= i < j && Starts(all[i], a) {
      assert rest[j - 1] == all[j];
      var i :| 0 <= i < j - 1 && Starts(rest[i], a);
      assert all[i + 1] == rest[i];
    }
  }

  /** Event k sets a timer, and not in the node of the timer whose callback runs, if any. */
  ghost predicate SetsAside(f: Flat, trace: seq<Event>, k: nat)
    requires k < |trace|
  {
    var g := Run(f, trace[..k]);
    trace[k].Armed? && g.Some? && (g.value.running.Running? ==> g.value.running.node != NodeOf(trace[k].id))
  }

  /** The time at which event k of a run happens. */
  ghost function NowAt(f: Flat, trace: seq<Event>, k: nat): int
    requires k < |trace| && Run(f, trace[..k]).Some?
  {
    Run(f, trace[..k]).value.now
  }

  /** The tick for which event k of a run sets a timer. */
  ghost function TickSet(f: Flat, trace: seq<Event>, k: nat): int
    requires k < |trace| && SetsAside(f, trace, k)
  {
    Max(NowAt(f, trace, k), NowAt(f, trace, k) + trace[k].delay - 1)
  }

  /** Events p and q of a run set two timers for one tick, both at one time or the first less than 256 ticks ahead, and
      neither is deleted later on. */
  ghost predicate SetInTurn(f: Flat, trace: seq<Event>, p: nat, q: nat) {
    && p < q < |trace| && SetsAside(f, trace, p) && SetsAside(f, trace, q)
    && TickSet(f, trace, p) == TickSet(f, trace, q)
    && (NowAt(f, trace, p) == NowAt(f, trace, q) || TickSet(f, trace, p) - NowAt(f, trace, p) < 256)
    && NotDeleted(trace[p..], trace[p].id) && NotDeleted(trace[q..], trace[q].id)
  }

  /** In a run, timers that are set in turn start in the order in which they were set. */
  ghost predicate SettingOrder(f: Flat, trace: seq<Event>) {
    forall p: nat, q: nat :: SetInTurn(f, trace, p, q) ==> StartsFirst(trace[q..], trace[p].id, trace[q].id)
  }

  lemma {:induction false} MovesWellFormed(q: Lineup, trace: seq<Event>)
    requires WellFormed(q.flat) && Moves(q, trace).Some?
    ensures WellFormed(Moves(q, trace).value.flat)
    decreases trace
  {
    if trace != [] {
      WellFormedKept(q.flat, trace[0]);
      MovesWellFormed(Move(q, trace[0]).value, trace[1..]);
    }
  }

  /** The timer is in the line and cannot start yet. */
  ghost predicate LinedUp(q: Lineup, id: nat, at: int, due: int) {
    && WellFormed(q.flat) && at <= q.flat.now <= due && WaitsFor(q.flat, id, due)
    && Turn(NodeOf(id), at) in q.line
  }

  lemma ArmedLinesUp(q: Lineup, id: nat, delay: int, interval: int, cb: nat) returns (r: Lineup)
    requires WellFormed(q.flat) && Move(q, Armed(id, delay, interval, cb)).Some?
    requires q.flat.running.Running? ==> q.flat.running.node != NodeOf(id)
    ensures r == Move(q, Armed(id, delay, interval, cb)).value
    ensures r.line == Leave(q.line, NodeOf(id)) + [Turn(NodeOf(id), q.flat.now)]
    ensures LinedUp(r, id, q.flat.now, Max(q.flat.now, q.flat.now + delay - 1))
  {
    var e := Armed(id, delay, interval, cb);
    r := Move(q, e).value;
    WellFormedKept(q.flat, e);
    assert r.line[|r.line| - 1] == Turn(NodeOf(id), q.flat.now);
  }

  /** One event, after which the tick is not over yet. */
  lemma LinedUpStep(q: Lineup, e: Event, id: nat, at: int, due: int)
    requires LinedUp(q, id, at, due) && Move(q, e).Some? && e != Deleted(id)
    ensures q.flat.now <= Move(q, e).value.flat.now
    ensures Move(q, e).value.flat.now <= due ==> LinedUp(Move(q, e).value, id, at, due)
  {
    WaitsStep(q.flat, e, id, due);
    WellFormedKept(q.flat, e);
    if Touched(q.flat, e).Some? { LeaveMembers(q.line, Touched(q.flat, e).value); }
  }

  lemma {:induction false} StaysLinedUp(q: Lineup, trace: seq<Event>, id: nat, at: int, due: int)
    requires LinedUp(q, id, at, due) && Moves(q, trace).Some? && NotDeleted(trace, id)
    requires Moves(q, trace).value.flat.now <= due
    ensures LinedUp(Moves(q, trace).value, id, at, due)
    decreases trace
  {
    if trace != [] {
      var e, r := trace[0], Move(q, trace[0]).value;
      assert e in trace && forall x :: x in trace[1..] ==> x in trace;
      MovesRun(r, trace[1..]);
      NowGrows(r.flat, trace[1..]);
      LinedUpStep(q, e, id, at, due);
      StaysLinedUp(r, trace[1..], id, at, due);
    }
  }

  /** A second timer for the same tick is behind the first. */
  lemma ArmedBehind(q: Lineup, a: nat, id: nat, delay: int, interval: int, cb: nat, first: int, due: int)
    requires LinedUp(q, a, first, due) && due == Max(q.flat.now, q.flat.now + delay - 1)
    requires InTurn(first, q.flat.now, due)
    requires Move(q, Armed(id, delay, interval, cb)).Some?
    requires q.flat.running.Running? ==> q.flat.running.node != NodeOf(id)
    ensures var r := Move(q, Armed(id, delay, interval, cb)).value;
      WellFormed(r.flat) && Paired(r, a, id, first, q.flat.now, due)
  {
    var r := ArmedLinesUp(q, id, delay, interval, cb);
    LeaveMembers(q.line, NodeOf(id));
    BeforeLast(Leave(q.line, NodeOf(id)), Turn(NodeOf(a), first), Turn(NodeOf(id), q.flat.now));
  }

  /** The state before event k of a run, and the rest of the run. */
  lemma MovesAt(start: Lineup, trace: seq<Event>, k: nat) returns (q: Lineup)
    requires WellFormed(start.flat) && Moves(start, trace).Some? && k <= |trace|
    ensures Moves(start, trace[..k]) == Some(q) && WellFormed(q.flat) && Run(start.flat, trace[..k]) == Some(q.flat)
    ensures Moves(q, trace[k..]).Some?
  {
    assert trace == trace[..k] + trace[k..];
    MovesPrefix(start, trace[..k], trace[k..]);
    MovesAppend(start, trace[..k], trace[k..]);
    MovesWellFormed(start, trace[..k]);
    MovesRun(start, trace[..k]);
    q := Moves(start, trace[..k]).value;
  }

  /** The first of two: until its tick it is lined up. */
  lemma FirstLinedUp(q: Lineup, trace: seq<Event>, r: Lineup)
    requires WellFormed(q.flat) && trace != [] && trace[0].Armed? && Moves(q, trace) == Some(r)
    requires q.flat.running.Running? ==> q.flat.running.node != NodeOf(trace[0].id)
    requires r.flat.now <= Max(q.flat.now, q.flat.now + trace[0].delay - 1) && NotDeleted(trace, trace[0].id)
    ensures LinedUp(r, trace[0].id, q.flat.now, Max(q.flat.now, q.flat.now + trace[0].delay - 1))
  {
    var Armed(a, delay, interval, cb) := trace[0];
    var u := ArmedLinesUp(q, a, delay, interval, cb);
    assert forall x :: x in trace[1..] ==> x in trace;
    StaysLinedUp(u, trace[1..], a, q.flat.now, Max(q.flat.now, q.flat.now + delay - 1));
  }

  /** The second of two: from then on the first one comes first. */
  lemma SecondBehind(q: Lineup, e: Event, rest: seq<Event>, a: nat, first: int, due: int)
    requires LinedUp(q, a, first, due) && e.Armed? && Move(q, e).Some? && Moves(Move(q, e).value, rest).Some?
    requires due == Max(q.flat.now, q.flat.now + e.delay - 1) && InTurn(first, q.flat.now, due)
    requires q.flat.running.Running? ==> q.flat.running.node != NodeOf(e.id)
    requires NotDeleted(rest, a) && NotDeleted(rest, e.id)
    ensures StartsFirst([e] + rest, a, e.id)
  {
    ArmedBehind(q, a, e.id, e.delay, e.interval, e.cb, first, due);
    PairedOrder(Move(q, e).value, rest, a, e.id, first, q.flat.now, due);
    StartsLater(e, rest, a, e.id);
  }

  lemma FirstEvent(q: Lineup, trace: seq<Event>) returns (e: Event, rest: seq<Event>)
    requires Moves(q, trace).Some? && trace != []
    ensures e == trace[0] && trace == [e] + rest && forall x :: x in rest ==> x in trace
    ensures Move(q, e).Some? && Moves(Move(q, e).value, rest).Some?
  {
    e, rest := trace[0], trace[1..];
  }

  /** The states before the events p and q of a run. */
  lemma MovesBetween(start: Lineup, trace: seq<Event>, p: nat, q: nat) returns (u: Lineup, v: Lineup)
    requires WellFormed(start.flat) && Moves(start, trace).Some? && p <= q <= |trace|
    ensures WellFormed(u.flat) && Run(start.flat, trace[..p]) == Some(u.flat)
    ensures WellFormed(v.flat) && Run(start.flat, trace[..q]) == Some(v.flat)
    ensures Moves(u, trace[p..q]) == Some(v) && Moves(v, trace[q..]).Some?
  {
    u := MovesAt(start, trace, p);
    v := MovesAt(start, trace, q);
    assert trace[..q] == trace[..p] + trace[p..q];
    MovesAppend(start, trace[..p], trace[p..q]);
  }

  lemma Within(trace: seq<Event>, p: nat, q: nat)
    requires p <= q <= |trace|
    ensures forall x :: x in trace[p..q] || x in trace[q..] ==> x in trace[p..]
  {
    assert trace[p..] == trace[p..q] + trace[q..];
  }

  lemma SetInTurnOrder(start: Lineup, trace: seq<Event>, p: nat, q: nat)
    requires WellFormed(start.flat) && Moves(start, trace).Some? && SetInTurn(start.flat, trace, p, q)
    ensures StartsFirst(trace[q..], trace[p].id, trace[q].id)
  {
    var u, v := MovesBetween(start, trace, p, q);
    Within(trace, p, q);
    FirstLinedUp(u, trace[p..q], v);
    var e, rest := FirstEvent(v, trace[q..]);
    SecondBehind(v, e, rest, trace[p].id, u.flat.now, TickSet(start.flat, trace, p));
  }

  lemma RunsInOrder(start: Lineup, trace: seq<Event>)
    requires WellFormed(start.flat) && Moves(start, trace).Some?
    ensures SettingOrder(start.flat, trace)
  {
    forall p: nat, q: nat | SetInTurn(start.flat, trace, p, q)
      ensures StartsFirst(trace[q..], trace[p].id, trace[q].id) {
      SetInTurnOrder(start, trace, p, q);
    }
  }
}
