/** `TimerManager` of timer_manager.cpp: its fields, updated in place by its functions. Timer callbacks are
    client code; what one of them does to the manager is a script of `SetTimer` and `DelTimer` calls. */
module TimerManagers {
  import opened Options
  import opened Sequences
  import opened TimerClient
  import opened TimerFlat
  import opened TimerLine
  import opened TimerOrder
  import opened TimerWheel
  import opened TimerState

  /** The calls that keep clear of the slot being drained: see TimerWheel.DrainCollision. */
  predicate Safe(c: Command) {
    c.Set? ==> c.delay != 256 && c.interval != 255
  }

  ghost predicate AllSafe(script: Script) {
    forall cb, k, c :: c in script(cb, k) ==> Safe(c)
  }

  /** An `Update` under way: the manager's first state, what the system was when the `Update` began, the trace until
      then, and the client's script. */
  datatype Log = Log(birth: Flat, start: System, before: seq<Event>, script: Script)

  /** The events since then have led the system to a state of the flat machine, with the calls `left` still to be
      made. */
  ghost predicate Led(log: Log, trace: seq<Event>, f: Flat, left: seq<Command>, started: nat) {
    && log.before <= trace
    && Runs(log.start, trace[|log.before|..], log.script) == Some(System(f, Effective(f, left), started))
  }

  /** They have led it to what the manager's state stands for, and those from the beginning on keep to the line. */
  ghost predicate Explains(log: Log, trace: seq<Event>, s: State, left: seq<Command>, started: nat)
    requires Placed(s)
  {
    Led(log, trace, Abs(s), left, started) && InLine(log.birth, trace, s)
  }

  /** What holds while the slot of the tick before `now` drains. */
  ghost predicate Drains(log: Log, trace: seq<Event>, s: State, left: seq<Command>, started: nat) {
    Good(s, s.now - 1) && Intervals(s) && Explains(log, trace, s, left, started)
  }

  lemma LedOn(log: Log, trace: seq<Event>, f: Flat, left: seq<Command>, started: nat, e: Event,
              f': Flat, left': seq<Command>, started': nat)
    requires Led(log, trace, f, left, started)
    requires Step(System(f, Effective(f, left), started), e, log.script) ==
             Some(System(f', Effective(f', left'), started'))
    ensures Led(log, trace + [e], f', left', started')
  {
    RunsExtended(log.start, trace[|log.before|..], System(f, Effective(f, left), started), e,
                 System(f', Effective(f', left'), started'), log.script);
    assert (trace + [e])[|log.before|..] == trace[|log.before|..] + [e];
  }

  lemma Extend(log: Log, trace: seq<Event>, s: State, left: seq<Command>, started: nat, e: Event,
               s': State, left': seq<Command>, started': nat)
    requires Placed(s) && Placed(s') && Explains(log, trace, s, left, started)
    requires Step(System(Abs(s), Effective(Abs(s), left), started), e, log.script) ==
             Some(System(Abs(s'), Effective(Abs(s'), left'), started'))
    requires Apply(Abs(s), e) == Some(Abs(s')) && LineKept(s, e, s')
    ensures Explains(log, trace + [e], s', left', started')
  {
    LedOn(log, trace, Abs(s), left, started, e, Abs(s'), left', started');
    InLineStep(log.birth, trace, s, e, s');
  }

  /** A timer of the slot starts, and with it the script of its callback. */
  lemma FireStep(log: Log, trace: seq<Event>, s: State, sl: Slot, started: nat)
    returns (s': State, t: TimerNode, calls: seq<Command>)
    requires Drains(log, trace, s, [], started) && s.running.Idle?
    requires sl == Slot(0, IndexAt(0, s.now - 1)) && At(s.wheel, sl) != []
    ensures var n := At(s.wheel, sl)[0];
      && n < |s.nodes| && t == s.nodes[n] && calls == log.script(t.cb, started)
      && s' == AfterFire(s, sl) && s'.running.Running? && s'.running.node == n
    ensures s'.now == s.now && s'.nodes == s.nodes && |At(s'.wheel, sl)| < |At(s.wheel, sl)|
    ensures Drains(log, trace + [Fired(t.id, t.cb)], s', calls, started + 1)
  {
    s', t := FireFacts(s, sl);
    FireLined(s, sl);
    calls := log.script(t.cb, started);
    FireExplained(log, trace, s, started, t.id, t.cb, s');
    GoodAt(s', s.now - 1, s'.now - 1);
  }

  lemma FireExplained(log: Log, trace: seq<Event>, s: State, started: nat, id: nat, cb: Option<nat>, s': State)
    requires Placed(s) && Placed(s') && Explains(log, trace, s, [], started)
    requires Apply(Abs(s), Fired(id, cb)) == Some(Abs(s')) && LineKept(s, Fired(id, cb), s')
    ensures Explains(log, trace + [Fired(id, cb)], s', log.script(cb, started), started + 1)
  {
    CallbackStarts(Abs(s), started, id, cb, Abs(s'), log.script);
    Extend(log, trace, s, [], started, Fired(id, cb), s', log.script(cb, started), started + 1);
  }

  /** The callback makes its next call. */
  lemma CallStep(log: Log, trace: seq<Event>, s: State, left: seq<Command>, started: nat, e: Event, s': State)
    requires left != [] && Drains(log, trace, s, left, started)
    requires s'.now == s.now && Good(s', s.now - 1) && Intervals(s')
    requires !NoEffect(Abs(s), left[0]) && Answers(e, left[0]) && Apply(Abs(s), e) == Some(Abs(s'))
    requires LineKept(s, e, s')
    ensures Drains(log, trace + [e], s', left[1..], started)
  {
    CallMade(Abs(s), left, started, e, Abs(s'), log.script);
    Extend(log, trace, s, left, started, e, s', left[1..], started);
    GoodAt(s', s.now - 1, s'.now - 1);
  }

  /** The callback's next call sets a timer. */
  lemma SetStep(log: Log, trace: seq<Event>, s: State, left: seq<Command>, started: nat) returns (s': State)
    requires left != [] && left[0].Set? && Safe(left[0]) && Drains(log, trace, s, left, started)
    ensures s' == AfterSet(s, left[0].delay, left[0].interval, left[0].cb)
    ensures s'.now == s.now && s'.running == s.running && DrainList(s') == DrainList(s)
    ensures var armed := Armed(TakenId(s), left[0].delay, left[0].interval, left[0].cb);
      Drains(log, trace + [armed], s', left[1..], started)
  {
    var Set(cb, delay, interval) := left[0];
    var e := Armed(TakenId(s), delay, interval, cb);
    s' := SetSafely(s, delay, interval, cb);
    SetLined(s, delay, interval, cb);
    CallStep(log, trace, s, left, started, e, s');
  }

  /** The callback's next call deletes a live timer. */
  lemma DeleteStep(log: Log, trace: seq<Event>, s: State, left: seq<Command>, started: nat) returns (s': State)
    requires left != [] && left[0].Del? && Drains(log, trace, s, left, started) && Find(s.nodes, left[0].id).Some?
    ensures s' == AfterRelease(s, NodeOf(left[0].id)) && s'.now == s.now && |DrainList(s')| <= |DrainList(s)|
    ensures s.running.Running? ==> s'.running.Running? && s'.running.node == s.running.node
    ensures Drains(log, trace + [Deleted(left[0].id)], s', left[1..], started)
  {
    var id := left[0].id;
    s' := ReleaseFacts(s, id);
    ReleaseLined(s, id);
    LiveEffect(Abs(s), left[0]);
    CallStep(log, trace, s, left, started, Deleted(id), s');
  }

  /** The callback's next call is for a handle that is not live. */
  lemma NoStep(log: Log, trace: seq<Event>, s: State, left: seq<Command>, started: nat)
    requires left != [] && left[0].Del? && Drains(log, trace, s, left, started) && Find(s.nodes, left[0].id).None?
    ensures Drains(log, trace, s, left[1..], started)
  {
    FindLive(s, left[0].id);
  }

  /** The callback is over. */
  lemma ReturnStep(log: Log, trace: seq<Event>, s: State, started: nat, n: nat) returns (s': State)
    requires Drains(log, trace, s, [], started) && s.running.Running? && s.running.node == n
    ensures n < |s.nodes| && s' == AfterReturn(s, n) && s'.now == s.now && s'.running == Idle
    ensures Drains(log, trace + [Returned], s', [], started) && |DrainList(s')| <= |DrainList(s)|
  {
    s' := ReturnFacts(s, n);
    ReturnLined(s, n);
    ReturnExplained(log, trace, s, started, s');
    GoodAt(s', s.now - 1, s'.now - 1);
  }

  lemma ReturnExplained(log: Log, trace: seq<Event>, s: State, started: nat, s': State)
    requires Placed(s) && Placed(s') && Explains(log, trace, s, [], started)
    requires Apply(Abs(s), Returned) == Some(Abs(s')) && LineKept(s, Returned, s')
    ensures Explains(log, trace + [Returned], s', [], started)
  {
    CallbackOver(Abs(s), started, Abs(s'), log.script);
    Extend(log, trace, s, [], started, Returned, s', [], started);
  }

  /** The tick begins once its cascades are done. */
  lemma AdvanceStep(log: Log, trace: seq<Event>, s: State, started: nat) returns (s': State)
    requires Good(s, s.now) && s.running.Idle? && Ahead(s, LEVELS) && Intervals(s)
    requires Explains(log, trace, s, [], started)
    ensures s' == s.(now := s.now + 1) && Drains(log, trace + [Advance], s', [], started)
  {
    s' := s.(now := s.now + 1);
    AdvanceRefines(s);
    AdvanceLined(s);
    Extend(log, trace, s, [], started, Advance, s', [], started);
  }

  /** The expiry time of a node in use tells the ticks left as well as the due tick does. */
  lemma LeftOf(s: State, n: nat, from: int)
    requires Good(s, from) && s.now - 1 <= from <= s.now && n < |s.nodes| && s.nodes[n].isUsing
    ensures s.place[n].InSlot? ==> Max(s.nodes[n].expire - s.now, 0) == Max(s.due[n] - s.now, 0)
    ensures s.place[n] == InHand ==> s.nodes[n].expire < s.now
  {
    assert NodeTimed(s, n, from);
  }

  /** A node in use is not on the free list. */
  lemma UnlistedFree(s: State, n: nat)
    requires Placed(s) && n < |s.nodes| && s.nodes[n].isUsing
    ensures AfterRelease(s, n).free == s.free + [n]
  {
    WithoutMembers(s.free, n);
    assert n !in s.free;
  }

  class TimerManager {
    var curTime: int
    var nextTime: int
    var nodes: seq<TimerNode>
    var freeList: seq<nat>
    var wheel: map<Slot, seq<nat>>
    ghost var place: seq<Place>
    ghost var due: seq<int>
    ghost var running: Running
    ghost var trace: seq<Event>
    ghost const birth: Flat

    /** `Init` */
    constructor (curTime: int)
      ensures Good(S(), S().now) && Ordered() && running == Idle && trace == [] && birth == Abs(S())
      ensures Abs(S()) == Flat(curTime + 1, map[], [], Idle)
    {
      this.curTime, nextTime := curTime + 1, curTime + 1;
      nodes, freeList, wheel := [], [], map[];
      place, due, running, trace := [], [], Idle, [];
      birth := Flat(curTime + 1, map[], [], Idle);
      new;
      assert Abs(S()).armed == map[] && Abs(S()).lastId == [];
    }

    ghost function S(): State
      reads this
    {
      State(curTime, nodes, freeList, wheel, place, due, running)
    }

    /** All that has happened since the beginning keeps to the line, and so do the lists. */
    ghost predicate Ordered()
      reads this
    {
      Placed(S()) && WellFormed(birth) && InLine(birth, trace, S())
    }

    /** `InsertTimerNodeToWheel` */
    method InsertTimerNodeToWheel(n: nat)
      requires n < |nodes| == |place| == |due|
      modifies this
      ensures S() == Link(TimerState.Unlink(old(S()), n), n)
      ensures trace == old(trace) && nextTime == old(nextTime)
    {
      Unlink(n);
      LinkBack(n);
    }

    /** `list_link.Erase()`: the node leaves the list that holds it, if any. */
    method Unlink(n: nat)
      requires n < |place|
      modifies this`wheel, this`freeList, this`place
      ensures S() == TimerState.Unlink(old(S()), n)
    {
      wheel, freeList := map sl | sl in wheel :: Without(wheel[sl], n), Without(freeList, n);
      place := place[n := InHand];
    }

    method LinkBack(n: nat)
      requires n < |nodes| == |place| == |due|
      modifies this`wheel, this`place, this`due
      ensures S() == Link(old(S()), n)
    {
      var sl := ChooseSlot(nodes[n].expire);
      place, due := place[n := InSlot(sl)], due[n := Max(curTime, nodes[n].expire)];
      PushBack(sl, n);
    }

    /** Lines 120-141. */
    method ChooseSlot(expire: int) returns (sl: Slot)
      ensures sl == SlotFor(curTime, expire)
    {
      var delay := expire - curTime;
      if delay <= 0 {
        return Slot(0, IndexAt(0, curTime));
      }
      var i := 0;
      while i < LEVELS
        invariant 0 <= i <= LEVELS && LevelFor(delay, 0) == LevelFor(delay, i)
      {
        if delay / Width(i) < Size(i) {
          return Slot(i, IndexAt(i, expire));
        }
        i := i + 1;
      }
      i := LEVELS - 1;
      sl := Slot(i, (curTime / Width(i) + 63) % 64);
    }

    method PushBack(sl: Slot, n: nat)
      modifies this`wheel
      ensures wheel == old(wheel)[sl := At(old(wheel), sl) + [n]]
    {
      wheel := wheel[sl := At(wheel, sl) + [n]];
    }

    /** `MoveTimerNodeToFreeList`; the ghost `running` records that a timer deleted from its own callback is dead. */
    method MoveTimerNodeToFreeList(n: nat)
      requires n < |nodes| == |place| == |due| && nodes[n].isUsing
      modifies this
      ensures S() == Retire(TimerState.Unlink(old(S()), n), n)
      ensures trace == old(trace) && nextTime == old(nextTime)
    {
      Unlink(n);
      nodes := nodes[n := TimerNode(nodes[n].id, 0, 0, None, false)];
      freeList := freeList + [n];
      place := place[n := Free];
    }

    /** `SetTimer`. `from` is `curTime`, or the tick before it when a callback of that tick makes the call. */
    method SetTimer(cb: nat, delay: int, interval: int, ghost from: int) returns (id: nat)
      requires Good(S(), from) && curTime - 1 <= from <= curTime && Ordered()
      modifies this
      ensures Placed(S()) && HandOf(S()) && running == old(running) && curTime == old(curTime) && Ordered()
      ensures Good(S(), from) <==> MayLink(old(curTime), old(curTime) + delay - 1, from)
      ensures delay != 256 ==> DrainList(S()) == old(DrainList(S()))
      ensures interval != 255 && old(Intervals(S())) ==> Intervals(S())
      ensures Apply(old(Abs(S())), Armed(id, delay, interval, cb)) == Some(Abs(S()))
      ensures trace == old(trace) + [Armed(id, delay, interval, cb)] && nextTime == old(nextTime)
      ensures S() == AfterSet(old(S()), delay, interval, cb) && id == TakenId(old(S()))
      ensures if old(freeList) == [] then NodeOf(id) == old(|nodes|) && freeList == []
              else NodeOf(id) == old(freeList)[0] && freeList == old(freeList)[1..]
      ensures |nodes| < 0x1_0000_0000_0000 ==> Find(nodes, id) == Some(NodeOf(id))
    {
      ghost var s' := SetFacts(S(), delay, interval, cb, from);
      SetThenFound(S(), delay, interval, cb);
      TakenPlaced(S(), delay, interval, cb);
      SetLined(S(), delay, interval, cb);
      InLineStep(birth, trace, S(), Armed(TakenId(S()), delay, interval, cb), s');
      id := NewTimer(cb, delay, interval);
    }

    /** What `SetTimer` does to the fields. */
    method NewTimer(cb: nat, delay: int, interval: int) returns (id: nat)
      requires Placed(S())
      modifies this
      ensures S() == AfterSet(old(S()), delay, interval, cb) && id == TakenId(old(S()))
      ensures trace == old(trace) + [Armed(id, delay, interval, cb)] && nextTime == old(nextTime)
    {
      TakenPlaced(S(), delay, interval, cb);
      var n;
      n, id := TakeNode(cb, delay, interval);
      UnlinkIdle(S(), n);
      InsertTimerNodeToWheel(n);
      trace := trace + [Armed(id, delay, interval, cb)];
    }

    /** Lines 149-168: a node from the free list under the next generation of its handle, or a new one. */
    method TakeNode(cb: nat, delay: int, interval: int) returns (n: nat, id: nat)
      requires Placed(S())
      modifies this
      ensures S() == Taken(old(S()), delay, interval, cb) && n == TakenNode(old(S())) && id == TakenId(old(S()))
      ensures trace == old(trace) && nextTime == old(nextTime)
    {
      if freeList != [] {
        n := freeList[0];
        assert n in S().free;
        freeList := freeList[1..];
        id := Reissue(nodes[n].id);
        nodes := nodes[n := TimerNode(id, curTime + delay - 1, interval, Some(cb), true)];
        place := place[n := InHand];
      } else {
        n := |nodes|;
        id := n * GENERATIONS;
        nodes := nodes + [TimerNode(id, curTime + delay - 1, interval, Some(cb), true)];
        place, due := place + [InHand], due + [0];
      }
    }

    /** `DelTimer` */
    method DelTimer(id: nat, ghost from: int)
      requires Good(S(), from) && Ordered()
      modifies this
      ensures Good(S(), from) && nextTime == old(nextTime) && Ordered()
      ensures old(Find(nodes, id).Some?) || (|old(nodes)| < 0x1_0000_0000_0000 && old(Live(Abs(S()), id))) ==>
              !Live(Abs(S()), id) && trace == old(trace) + [Deleted(id)] && freeList == old(freeList) + [NodeOf(id)]
      ensures var found := id != TIMER_ID_INVALID && old(Live(Abs(S()), id));
        if found then
          && Apply(old(Abs(S())), Deleted(id)) == Some(Abs(S())) && trace == old(trace) + [Deleted(id)]
          && S() == AfterRelease(old(S()), NodeOf(id))
        else S() == old(S()) && trace == old(trace)
    {
      FindLive(S(), id);
      if Find(nodes, id).Some? {
        DeleteRefines(S(), id, from);
        ReleaseKills(S(), id);
        ReleaseLined(S(), id);
        InLineStep(birth, trace, S(), Deleted(id), AfterRelease(S(), NodeOf(id)));
        UnlistedFree(S(), NodeOf(id));
      }
      FindAndRelease(id);
    }

    /** What `DelTimer` does to the fields. */
    method FindAndRelease(id: nat)
      requires |nodes| == |place| == |due|
      modifies this
      ensures nextTime == old(nextTime)
      ensures Find(old(nodes), id).Some? ==>
                S() == AfterRelease(old(S()), NodeOf(id)) && trace == old(trace) + [Deleted(id)]
      ensures Find(old(nodes), id).None? ==> S() == old(S()) && trace == old(trace)
    {
      var found := Find(nodes, id);
      if found == None {
        return;
      }
      ghost var s := S();
      MoveTimerNodeToFreeList(found.value);
      running := AfterRelease(s, found.value).running;
      trace := trace + [Deleted(id)];
    }

    /** `LeftTime`, between updates or in a callback: the ticks left until the timer is due, none when its callback
        is running or about to, -1 for a handle that is not live. */
    method LeftTime(id: nat, ghost from: int) returns (left: int)
      requires Good(S(), from) && curTime - 1 <= from <= curTime
      ensures if id == TIMER_ID_INVALID || !Live(Abs(S()), id) then left == -1
              else left == if Holds(Abs(S()), id) then Max(Abs(S()).armed[NodeOf(id)].due - curTime, 0) else 0
      ensures Find(nodes, id).Some? ==> left >= 0
      ensures |nodes| < 0x1_0000_0000_0000 ==> (left == -1 <==> !Live(Abs(S()), id))
    {
      FindLive(S(), id);
      var found := Find(nodes, id);
      if found == None {
        return -1;
      }
      LeftOf(S(), found.value, from);
      left := nodes[found.value].expire - curTime;
      if left < 0 {
        left := 0;
      }
    }

    /** `TimerWheelCascade`: every node of the level's current slot goes to a slot nearer to its expiry. */
    method Cascade(level: nat)
      requires Good(S(), curTime) && running == Idle && 1 <= level <= LEVELS && Ahead(S(), level)
      requires level < LEVELS ==> curTime % Width(level) == 0
      modifies this
      ensures Good(S(), curTime) && running == Idle && Ahead(S(), LEVELS)
      ensures Abs(S()) == old(Abs(S())) && Steady(old(S())) && OrderKept(old(S()), S())
      ensures trace == old(trace) && nextTime == old(nextTime)
      decreases LEVELS - level
    {
      if level >= LEVELS {
        return;
      }
      var index := IndexAt(level, curTime);
      CascadeSlot(Slot(level, index));
      if level + 1 < LEVELS {
        CascadeGoesOn(level, curTime);
      }
      ghost var s := S();
      if index == 0 {
        Cascade(level + 1);
        OrderKeptOn(old(S()), s, S());
      } else {
        LevelsIdle(S(), level + 1);
      }
    }

    /** Lines 204-210: the slot is emptied from the front, and every other slot gets its nodes that choose it, at the
        end and in their order. */
    method CascadeSlot(sl: Slot)
      requires Good(S(), curTime) && running == Idle
      requires 1 <= sl.level < LEVELS && Ahead(S(), sl.level) && Visits(sl, curTime)
      modifies this
      ensures Good(S(), curTime) && running == Idle && Ahead(S(), sl.level + 1)
      ensures Emptied(old(S()), S(), sl) && OrderKept(old(S()), S())
      ensures Abs(S()) == old(Abs(S())) && Steady(old(S()))
      ensures trace == old(trace) && nextTime == old(nextTime)
    {
      ghost var s, k := S(), 0;
      SlotScatters(s, sl);
      while At(wheel, sl) != []
        invariant Good(S(), curTime) && running == Idle && Ahead(S(), sl.level)
        invariant Abs(S()) == Abs(s) && Steady(s) && due == s.due && Emptying(s, S(), sl, k)
        invariant trace == old(trace) && nextTime == old(nextTime)
        decreases |At(wheel, sl)|
      {
        ghost var t := S();
        CascadeFirst(sl);
        EmptyingStep(s, t, S(), sl, k);
        k := k + 1;
      }
      EmptyingDone(s, S(), sl, k);
      EmptiedOrder(s, S(), sl);
      LevelDone(S(), sl);
    }

    /** Lines 206-209, one turn of the loop. */
    method CascadeFirst(sl: Slot)
      requires Good(S(), curTime) && running == Idle && At(wheel, sl) != []
      requires 1 <= sl.level && Ahead(S(), sl.level) && Visits(sl, curTime)
      modifies this
      ensures Good(S(), curTime) && running == Idle && Ahead(S(), sl.level)
      ensures Abs(S()) == old(Abs(S())) && Steady(old(S()))
      ensures FirstMoved(old(S()), S(), sl) && due == old(due)
      ensures trace == old(trace) && nextTime == old(nextTime)
    {
      RecascadeGood(S(), sl);
      RecascadeAbs(S(), sl);
      RecascadeMoves(S(), sl);
      ghost var s := S();
      PopPlaced(s, sl);
      var n := PopFront(sl);
      UnlinkIdle(S(), n);
      InsertTimerNodeToWheel(n);
      assert S() == Recascade(s, sl);
    }

    /** `PopFront` of a slot that is not empty. */
    method PopFront(sl: Slot) returns (n: nat)
      requires At(wheel, sl) != [] && At(wheel, sl)[0] < |place|
      modifies this
      ensures n == At(old(wheel), sl)[0] && S() == Pop(old(S()), sl)
      ensures trace == old(trace) && nextTime == old(nextTime)
    {
      n := At(wheel, sl)[0];
      wheel := wheel[sl := At(wheel, sl)[1..]];
      place := place[n := InHand];
    }

    /** The time and every node's record are as in `s`: only the lists have changed. */
    ghost predicate Steady(s: State)
      reads this
    {
      curTime == s.now && nodes == s.nodes
    }

    ghost predicate Explained(log: Log, started: nat)
      reads this
      requires Placed(S())
    {
      Explains(log, trace, S(), [], started)
    }

    ghost predicate Draining(log: Log, left: seq<Command>, started: nat)
      reads this
    {
      Drains(log, trace, S(), left, started)
    }

    /** One call from a callback, the first of those left. */
    method Execute(left: seq<Command>, ghost log: Log, ghost started: nat)
      requires left != [] && Draining(log, left, started) && running.Running? && Safe(left[0])
      modifies this
      ensures Draining(log, left[1..], started) && running.Running? && running.node == old(running.node)
      ensures curTime == old(curTime) && nextTime == old(nextTime)
      ensures |DrainList(S())| <= old(|DrainList(S())|)
    {
      match left[0] {
        case Set(_, _, _) => ExecuteSet(left, log, started);
        case Del(_) => ExecuteDel(left, log, started);
      }
    }

    method ExecuteSet(left: seq<Command>, ghost log: Log, ghost started: nat)
      requires left != [] && left[0].Set? && Draining(log, left, started) && running.Running? && Safe(left[0])
      modifies this
      ensures Draining(log, left[1..], started) && running == old(running)
      ensures curTime == old(curTime) && nextTime == old(nextTime)
      ensures DrainList(S()) == old(DrainList(S()))
    {
      ghost var s' := SetStep(log, trace, S(), left, started);
      var _ := NewTimer(left[0].cb, left[0].delay, left[0].interval);
      assert S() == s';
    }

    method ExecuteDel(left: seq<Command>, ghost log: Log, ghost started: nat)
      requires left != [] && left[0].Del? && Draining(log, left, started) && running.Running?
      modifies this
      ensures Draining(log, left[1..], started) && running.Running? && running.node == old(running.node)
      ensures curTime == old(curTime) && nextTime == old(nextTime)
      ensures |DrainList(S())| <= old(|DrainList(S())|)
    {
      ghost var s' := S();
      if Find(nodes, left[0].id).Some? {
        s' := DeleteStep(log, trace, S(), left, started);
      } else {
        NoStep(log, trace, S(), left, started);
      }
      FindAndRelease(left[0].id);
      assert S() == s';
    }

    /** The calls of one callback, in order. */
    method RunCallback(calls: seq<Command>, ghost log: Log, ghost started: nat)
      requires Draining(log, calls, started) && running.Running? && forall c :: c in calls ==> Safe(c)
      modifies this
      ensures Draining(log, [], started) && running.Running? && running.node == old(running.node)
      ensures curTime == old(curTime) && nextTime == old(nextTime)
      ensures |DrainList(S())| <= old(|DrainList(S())|)
    {
      var left := calls;
      while left != []
        invariant Draining(log, left, started) && running.Running? && running.node == old(running.node)
        invariant curTime == old(curTime) && nextTime == old(nextTime)
        invariant |DrainList(S())| <= old(|DrainList(S())|) && forall c :: c in left ==> Safe(c)
        decreases |left|
      {
        Execute(left, log, started);
        left := left[1..];
      }
    }

    /** Lines 234-250: pop a timer, run its callback, then re-arm it or move it to the free list. */
    method DrainFirst(script: Script, started: nat, ghost log: Log)
      requires Draining(log, [], started) && running == Idle && AllSafe(script) && log.script == script
      requires DrainList(S()) != []
      modifies this
      ensures Draining(log, [], started + 1) && running == Idle
      ensures curTime == old(curTime) && nextTime == old(nextTime)
      ensures |DrainList(S())| < old(|DrainList(S())|)
    {
      var n, _ := Fire(Slot(0, IndexAt(0, curTime - 1)), log, started);
      RunCallback(script(nodes[n].cb, started), log, started + 1);
      Return(n, log, started + 1);
    }

    /** Lines 234-237: the first node leaves the slot and its callback starts. */
    method Fire(sl: Slot, ghost log: Log, ghost started: nat) returns (n: nat, ghost calls: seq<Command>)
      requires Draining(log, [], started) && running == Idle
      requires sl == Slot(0, IndexAt(0, curTime - 1)) && At(wheel, sl) != []
      modifies this
      ensures n < |nodes| && calls == log.script(nodes[n].cb, started) && Draining(log, calls, started + 1)
      ensures running.Running? && running.node == n
      ensures curTime == old(curTime) && nextTime == old(nextTime)
      ensures |At(wheel, sl)| < old(|At(wheel, sl)|)
    {
      ghost var s', t;
      s', t, calls := FireStep(log, trace, S(), sl, started);
      n := StartFirst(sl, s', t);
    }

    method StartFirst(sl: Slot, ghost s': State, ghost t: TimerNode) returns (n: nat)
      requires Placed(S()) && At(wheel, sl) != [] && At(wheel, sl)[0] < |nodes|
      requires s' == AfterFire(S(), sl) && t == nodes[At(wheel, sl)[0]]
      modifies this
      ensures S() == s' && n == old(At(wheel, sl)[0]) && n < |nodes| && nodes[n] == t
      ensures trace == old(trace) + [Fired(t.id, t.cb)] && nextTime == old(nextTime)
    {
      n := PopFront(sl);
      running := Running(n, nodes[n].id, nodes[n].interval, nodes[n].cb, false);
      trace := trace + [Fired(nodes[n].id, nodes[n].cb)];
    }

    /** Lines 238-250. */
    method Return(n: nat, ghost log: Log, ghost started: nat)
      requires Draining(log, [], started) && running.Running? && running.node == n
      modifies this
      ensures Draining(log, [], started) && running == Idle
      ensures curTime == old(curTime) && nextTime == old(nextTime)
      ensures |DrainList(S())| <= old(|DrainList(S())|)
    {
      ghost var s' := ReturnStep(log, trace, S(), started, n);
      ReArmOrRetire(n);
      trace := trace + [Returned];
      assert S() == s';
    }

    method ReArmOrRetire(n: nat)
      requires n < |nodes| == |place| == |due|
      modifies this
      ensures S() == AfterReturn(old(S()), n) && trace == old(trace) && nextTime == old(nextTime)
    {
      running := Idle;
      if nodes[n].isUsing {
        if nodes[n].interval > 0 {
          nodes := nodes[n := nodes[n].(expire := curTime + nodes[n].interval)];
          InsertTimerNodeToWheel(n);
        } else {
          MoveTimerNodeToFreeList(n);
        }
      }
    }

    /** `Update`. The callback `cb`, if it is the k-th to start, makes the calls `script(cb, k)`. What happens is a run
        of the system of flat machine and client: nothing but ticks and callbacks, each making the calls of its script
        and no others. It runs all that is due up to `time` and nothing else, each timer on its schedule. */
    method Update(time: int, script: Script) returns (started: nat)
      requires Good(S(), curTime) && running == Idle && Intervals(S()) && AllSafe(script) && Ordered()
      modifies this
      ensures Good(S(), curTime) && running == Idle && Intervals(S()) && Ordered()
      ensures curTime == Max(old(curTime), time + 1) && old(trace) <= trace
      ensures Runs(System(old(Abs(S())), [], 0), trace[|old(trace)|..], script) == Some(System(Abs(S()), [], started))
      ensures Settled(Abs(S()))
      ensures Punctual(old(Abs(S())), trace[|old(trace)|..], script, curTime)
      ensures SettingOrder(birth, trace)
    {
      ghost var log := Log(birth, System(Abs(S()), [], 0), trace, script);
      AbsWellFormed(S(), curTime);
      TimersDue(S());
      assert trace[|log.before|..] == [];
      started := 0;
      if curTime <= time {
        nextTime := time + 1;
        while curTime < nextTime
          invariant old(curTime) <= curTime <= nextTime == time + 1
          invariant Good(S(), curTime) && running == Idle && Intervals(S()) && Explained(log, started)
        {
          started := Tick(script, started, log);
        }
        TimersDue(S());
      }
      RunsPunctual(log.start, trace[|log.before|..], script);
      InLineOrder(birth, trace, S());
    }

    /** Lines 226-251: cascade if due, advance the time, drain the tick's slot. */
    method Tick(script: Script, started0: nat, ghost log: Log) returns (started: nat)
      requires Good(S(), curTime) && running == Idle && Intervals(S()) && Explained(log, started0)
      requires AllSafe(script) && log.script == script
      modifies this
      ensures Good(S(), curTime) && running == Idle && Intervals(S()) && Explained(log, started)
      ensures curTime == old(curTime) + 1 && nextTime == old(nextTime)
    {
      started := started0;
      var index := IndexAt(0, curTime);
      BeginTick(index, log, started);
      while At(wheel, Slot(0, index)) != []
        invariant Draining(log, [], started) && running == Idle
        invariant curTime == old(curTime) + 1 && nextTime == old(nextTime)
        decreases |At(wheel, Slot(0, index))|
      {
        DrainFirst(script, started, log);
        started := started + 1;
      }
      TickDone(S());
    }

    /** Lines 226-232. */
    method BeginTick(index: nat, ghost log: Log, ghost started: nat)
      requires Good(S(), curTime) && running == Idle && Intervals(S()) && Explained(log, started)
      requires index == IndexAt(0, curTime)
      modifies this
      ensures Draining(log, [], started) && running == Idle
      ensures curTime == old(curTime) + 1 && nextTime == old(nextTime)
    {
      ghost var s := S();
      CascadeLevels(index);
      InLineKept(log.birth, trace, s, S());
      assert Explained(log, started);
      ghost var s' := AdvanceStep(log, trace, S(), started);
      curTime := curTime + 1;
      trace := trace + [Advance];
      assert S() == s';
    }

    method CascadeLevels(index: nat)
      requires Good(S(), curTime) && running == Idle && index == IndexAt(0, curTime)
      modifies this
      ensures Good(S(), curTime) && running == Idle && Ahead(S(), LEVELS)
      ensures Abs(S()) == old(Abs(S())) && Steady(old(S())) && OrderKept(old(S()), S())
      ensures trace == old(trace) && nextTime == old(nextTime)
    {
      CascadeGoesOn(0, curTime);
      if index == 0 {
        Cascade(1);
      } else {
        LevelsIdle(S(), 1);
      }
    }
  }

  // ----- what a client sees -----

  /** A timer just set is there, until it is deleted. */
  method SetAndDelete(m: TimerManager, cb: nat, delay: int, interval: int) returns (id: nat, before: int, after: int)
    requires Good(m.S(), m.curTime) && m.Ordered()
    modifies m
    ensures Good(m.S(), m.curTime)
    ensures |m.nodes| < 0x1_0000_0000_0000 ==> before >= 0 && after == -1 && !Live(Abs(m.S()), id)
  {
    id := m.SetTimer(cb, delay, interval, m.curTime);
    before := m.LeftTime(id, m.curTime);
    m.DelTimer(id, m.curTime);
    after := m.LeftTime(id, m.curTime);
  }

  /** After these events no callback is running. */
  ghost predicate Between(birth: Flat, trace: seq<Event>) {
    var f := Run(birth, trace);
    f.Some? && f.value.running.Idle?
  }

  lemma RunSoFar(birth: Flat, trace: seq<Event>, s: State)
    requires Placed(s) && InLine(birth, trace, s) && s.running.Idle?
    ensures Between(birth, trace)
  {
    MovesRun(Lineup(birth, []), trace);
  }

  /** No time passes as a timer is set. */
  lemma SameTime(birth: Flat, before: seq<Event>, e: Event)
    requires Run(birth, before).Some? && Run(birth, before + [e]).Some? && e.Armed?
    ensures Run(birth, before + [e]).value.now == Run(birth, before).value.now
  {
    RunAppend(birth, before, [e]);
    assert [e][1..] == [];
    var f := Run(birth, before).value;
    assert Run(f, [e]) == Run(Apply(f, e).value, []);
  }

  /** No script has deleted the two timers set at p and q. */
  lemma KeptInTurn(birth: Flat, trace: seq<Event>, p: nat, start: System, script: Script)
    requires p + 2 <= |trace| && trace[p].Armed? && trace[p + 1].Armed? && trace[p].delay == trace[p + 1].delay
    requires Between(birth, trace[..p]) && Between(birth, trace[..p + 1])
    requires Runs(start, trace[p + 2..], script).Some? && start.left == []
    requires NeverDeletes(script, trace[p].id) && NeverDeletes(script, trace[p + 1].id)
    ensures SetInTurn(birth, trace, p, p + 1)
  {
    assert trace[..p + 1] == trace[..p] + [trace[p]];
    SameTime(birth, trace[..p], trace[p]);
    ScriptKeeps(start, trace[p + 2..], script, trace[p].id);
    ScriptKeeps(start, trace[p + 2..], script, trace[p + 1].id);
    assert trace[p..] == [trace[p], trace[p + 1]] + trace[p + 2..];
    assert trace[p + 1..] == [trace[p + 1]] + trace[p + 2..];
  }

  /** `SetTimer` between two updates. */
  method SetBetween(m: TimerManager, cb: nat, delay: int, interval: int) returns (id: nat)
    requires Good(m.S(), m.curTime) && m.Ordered() && m.running == Idle && Intervals(m.S()) && interval != 255
    modifies m
    ensures Good(m.S(), m.curTime) && m.Ordered() && m.running == Idle && Intervals(m.S())
    ensures m.trace == old(m.trace) + [Armed(id, delay, interval, cb)] && Between(m.birth, old(m.trace))
  {
    RunSoFar(m.birth, m.trace, m.S());
    id := m.SetTimer(cb, delay, interval, m.curTime);
  }

  lemma TwoInOrder(birth: Flat, before: seq<Event>, updated: seq<Event>, x: Event, y: Event, start: System,
                   script: Script)
    requires x.Armed? && y.Armed? && x.delay == y.delay && Between(birth, before) && Between(birth, before + [x])
    requires Runs(start, updated, script).Some? && start.left == []
    requires SettingOrder(birth, before + [x] + [y] + updated)
    requires NeverDeletes(script, x.id) && NeverDeletes(script, y.id)
    ensures StartsFirst(updated, x.id, y.id)
  {
    var trace, p := before + [x] + [y] + updated, |before|;
    assert trace[..p] == before && trace[..p + 1] == before + [x] && trace[p + 2..] == updated;
    KeptInTurn(birth, trace, p, start, script);
    assert trace[p + 1..] == [y] + updated;
    StartsOnly(y, updated, x.id, y.id);
  }

  /** Two timers set one after the other with the same delay, and deleted by no script, start in that order. */
  method SetTwoAndUpdate(m: TimerManager, delay: int, ca: nat, ia: int, cb: nat, ib: int, time: int, script: Script)
    returns (a: nat, b: nat, ghost updated: seq<Event>)
    requires Good(m.S(), m.curTime) && m.Ordered() && m.running == Idle && Intervals(m.S()) && AllSafe(script)
    requires ia != 255 && ib != 255
    modifies m
    ensures m.trace == old(m.trace) + [Armed(a, delay, ia, ca)] + [Armed(b, delay, ib, cb)] + updated
    ensures NeverDeletes(script, a) && NeverDeletes(script, b) ==> StartsFirst(updated, a, b)
  {
    a := SetBetween(m, ca, delay, ia);
    b := SetBetween(m, cb, delay, ib);
    ghost var soFar, start := m.trace, System(Abs(m.S()), [], 0);
    var _ := m.Update(time, script);
    updated := m.trace[|soFar|..];
    assert m.trace == soFar + updated;
    if NeverDeletes(script, a) && NeverDeletes(script, b) {
      TwoInOrder(m.birth, old(m.trace), updated, Armed(a, delay, ia, ca), Armed(b, delay, ib, cb), start, script);
    }
  }
}
