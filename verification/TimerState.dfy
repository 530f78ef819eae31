/** The fields of the timer manager as one value, the effect of its internal functions on them, and the
    invariants they keep. `place` and `due` are bookkeeping for the proofs: where each node is, and for
    which tick its timer is meant. */
module TimerState {
  import opened Options
  import opened Sequences
  import opened TimerFlat
  import opened TimerWheel

  datatype TimerNode = TimerNode(id: nat, expire: int, interval: int, cb: Option<nat>, isUsing: bool)

  /** A node is in one slot of the wheel, on the free list, or in the hand of `Update`. */
  datatype Place = InSlot(slot: Slot) | Free | InHand

  datatype State = State(now: int, nodes: seq<TimerNode>, free: seq<nat>, wheel: map<Slot, seq<nat>>,
                         place: seq<Place>, due: seq<int>, running: Running)

  /** The list of a slot; lists that were never used are empty. */
  function At(wheel: map<Slot, seq<nat>>, s: Slot): seq<nat> {
    if s in wheel then wheel[s] else []
  }

  ghost predicate Apart(list: seq<nat>, i: nat, j: nat) {
    i < j < |list| ==> list[i] != list[j]
  }

  ghost predicate NoDuplicates(list: seq<nat>) {
    forall i: nat, j: nat :: Apart(list, i, j)
  }

  lemma {:induction false} WithoutMembers(list: seq<nat>, n: nat)
    ensures forall x :: x in Without(list, n) <==> x in list && x != n
    ensures n !in list ==> Without(list, n) == list
    ensures NoDuplicates(list) ==>
              NoDuplicates(Without(list, n)) && |Without(list, n)| == |list| - if n in list then 1 else 0
  {
    if list != [] {
      WithoutMembers(list[1..], n);
      assert list == [list[0]] + list[1..];
      if NoDuplicates(list) {
        PoppedMembers(list);
        if list[0] != n { PrependedMembers(list[0], Without(list[1..], n)); }
      }
    }
  }

  lemma PrependedMembers(n: nat, list: seq<nat>)
    requires NoDuplicates(list) && n !in list
    ensures NoDuplicates([n] + list)
  {
    var both := [n] + list;
    forall i: nat, j: nat ensures Apart(both, i, j) {
      if 0 < i < j < |both| { assert Apart(list, i - 1, j - 1); }
    }
  }

  lemma PushedMembers(list: seq<nat>, n: nat)
    requires NoDuplicates(list) && n !in list
    ensures NoDuplicates(list + [n]) && forall x :: x in list + [n] <==> x in list || x == n
  {
    var both := list + [n];
    forall i: nat, j: nat ensures Apart(both, i, j) {
      if i < j < |list| { assert Apart(list, i, j); }
    }
  }

  lemma PoppedMembers(list: seq<nat>)
    requires NoDuplicates(list) && list != []
    ensures NoDuplicates(list[1..]) && forall x :: x in list[1..] <==> x in list && x != list[0]
  {
    var rest := list[1..];
    assert list == [list[0]] + rest;
    forall i: nat, j: nat ensures Apart(rest, i, j) {
      assert Apart(list, i + 1, j + 1);
    }
    forall i: nat | i < |rest| ensures rest[i] != list[0] {
      assert Apart(list, 0, i + 1);
    }
  }

  /** The lists hold exactly the nodes that `place` puts there, each once. */
  ghost predicate Lists(wheel: map<Slot, seq<nat>>, free: seq<nat>, place: seq<Place>) {
    && (forall sl, n {:trigger n in At(wheel, sl)} :: n in At(wheel, sl) ==> n < |place| && place[n] == InSlot(sl))
    && (forall n :: 0 <= n < |place| && place[n].InSlot? ==> n in At(wheel, place[n].slot))
    && (forall sl :: NoDuplicates(At(wheel, sl)))
    && (forall n {:trigger n in free} :: n in free ==> n < |place| && place[n] == Free)
    && (forall n :: 0 <= n < |place| && place[n] == Free ==> n in free)
    && NoDuplicates(free)
  }

  /** Every node is where `place` says and nowhere else, and carries a handle of its own. */
  ghost predicate Placed(s: State) {
    && |s.place| == |s.nodes| == |s.due|
    && Lists(s.wheel, s.free, s.place)
    && (forall n :: 0 <= n < |s.nodes| ==> NodeOf(s.nodes[n].id) == n)
    && (forall n :: 0 <= n < |s.nodes| ==> (s.nodes[n].isUsing <==> s.place[n] != Free))
    && (forall n :: 0 <= n < |s.nodes| && s.place[n].InSlot? ==> ValidSlot(s.place[n].slot))
  }

  /** The timing law for one linked node: a level-0 slot is drained exactly when the timer is due, a higher
      slot is cascaded no later than that. `from` is the tick being drained, or `now` between drains. */
  ghost predicate Timed(sl: Slot, due: int, expire: int, now: int, from: int)
    requires ValidSlot(sl)
  {
    if sl.level == 0 then NextVisit(sl, from) == due && (due == expire || expire < due <= now)
    else NextVisit(sl, now) <= due == expire
  }

  ghost predicate NodeTimed(s: State, n: nat, from: int)
    requires Placed(s)
  {
    n < |s.nodes| && s.place[n].InSlot? ==> Timed(s.place[n].slot, s.due[n], s.nodes[n].expire, s.now, from)
  }

  ghost predicate Timing(s: State, from: int)
    requires Placed(s)
  {
    forall n: nat :: NodeTimed(s, n, from)
  }

  /** Timing depends on the places, due ticks and expiry times of the nodes that are in slots. */
  lemma SameTiming(s: State, t: State, from: int)
    requires Placed(s) && Placed(t) && t.now == s.now && Timing(s, from)
    requires forall n :: 0 <= n < |t.nodes| && t.place[n].InSlot? ==>
               n < |s.nodes| && t.place[n] == s.place[n] && t.due[n] == s.due[n] &&
                   t.nodes[n].expire == s.nodes[n].expire
    ensures Timing(t, from)
  {
    forall n: nat ensures NodeTimed(t, n, from) {
      assert NodeTimed(s, n, from);
    }
  }

  /** Who may be in hand: the node whose callback runs, unless that callback has deleted its timer. */
  ghost predicate HandOf(s: State)
    requires Placed(s)
  {
    match s.running
    case Idle => forall n :: 0 <= n < |s.nodes| ==> s.place[n] != InHand
    case Running(n, id, interval, cb, stopped) =>
      && n < |s.nodes| && NodeOf(id) == n
      && (!stopped ==>
            && s.place[n] == InHand && s.nodes[n].expire < s.now
            && s.nodes[n].id == id && s.nodes[n].interval == interval && s.nodes[n].cb == cb)
      && (forall k :: 0 <= k < |s.nodes| && s.place[k] == InHand ==> k == n && !stopped)
  }

  /** The flat timer map that a state stands for. */
  ghost function Abs(s: State): Flat
    requires |s.place| == |s.nodes| == |s.due|
  {
    Flat(s.now,
         map n | 0 <= n < |s.nodes| && s.place[n].InSlot? :: Timer(s.nodes[n].id, s.due[n], s.nodes[n].interval,
             s.nodes[n].cb),
         seq(|s.nodes|, n requires 0 <= n < |s.nodes| => s.nodes[n].id),
         s.running)
  }

  /** `list_link.Erase()`: unlink a node from the list that holds it, if any. */
  ghost function Unlink(s: State, n: nat): State
    requires n < |s.place|
  {
    s.(wheel := map sl | sl in s.wheel :: Without(s.wheel[sl], n), free := Without(s.free, n),
       place := s.place[n := InHand])
  }

  /** `PushBack` onto the slot that the expiry time selects. */
  ghost function Link(s: State, n: nat): State
    requires n < |s.nodes| == |s.place| == |s.due|
  {
    var sl := SlotFor(s.now, s.nodes[n].expire);
    s.(wheel := s.wheel[sl := At(s.wheel, sl) + [n]], place := s.place[n := InSlot(sl)],
       due := s.due[n := Max(s.now, s.nodes[n].expire)])
  }

  /** `PopFront` of a slot. */
  ghost function Pop(s: State, sl: Slot): State
    requires At(s.wheel, sl) != [] && At(s.wheel, sl)[0] < |s.place|
  {
    var list := At(s.wheel, sl);
    s.(wheel := s.wheel[sl := list[1..]], place := s.place[list[0] := InHand])
  }

  /** `MoveTimerNodeToFreeList` of an unlinked node. */
  ghost function Retire(s: State, n: nat): State
    requires n < |s.nodes| == |s.place|
  {
    s.(nodes := s.nodes[n := TimerNode(s.nodes[n].id, 0, 0, None, false)],
       free := s.free + [n], place := s.place[n := Free])
  }

  lemma UnlinkPlaced(s: State, n: nat)
    requires Placed(s) && n < |s.nodes|
    ensures var u := Unlink(s, n); Lists(u.wheel, u.free, u.place) && |u.place| == |u.nodes| == |u.due|
    ensures s.nodes[n].isUsing ==> Placed(Unlink(s, n))
  {
    var u := Unlink(s, n);
    WithoutMembers(s.free, n);
    forall sl ensures NoDuplicates(At(u.wheel, sl)) &&
        forall k :: k in At(u.wheel, sl) <==> k in At(s.wheel, sl) && k != n {
      assert NoDuplicates(At(s.wheel, sl));
      WithoutMembers(At(s.wheel, sl), n);
    }
  }

  /** Unlinking a node that is in no list changes nothing. */
  lemma UnlinkIdle(s: State, n: nat)
    requires Placed(s) && n < |s.nodes| && s.place[n] == InHand
    ensures Unlink(s, n) == s
  {
    WithoutMembers(s.free, n);
    forall sl | sl in s.wheel ensures Without(s.wheel[sl], n) == s.wheel[sl] {
      WithoutMembers(s.wheel[sl], n);
      assert n !in At(s.wheel, sl);
    }
    assert (map sl | sl in s.wheel :: Without(s.wheel[sl], n)) == s.wheel;
    assert s.place[n := InHand] == s.place;
  }

  lemma LinkPlaced(s: State, n: nat)
    requires Placed(s) && n < |s.nodes| && s.place[n] == InHand
    ensures Placed(Link(s, n))
  {
    var sl, l := SlotFor(s.now, s.nodes[n].expire), Link(s, n);
    assert n !in At(s.wheel, sl);
    forall sl' ensures NoDuplicates(At(l.wheel, sl'))
      && forall x :: x in At(l.wheel, sl') <==> x in At(s.wheel, sl') || (sl' == sl && x == n) {
      assert NoDuplicates(At(s.wheel, sl'));
      if sl' == sl {
        PushedMembers(At(s.wheel, sl), n);
      } else {
        assert At(l.wheel, sl') == At(s.wheel, sl');
      }
    }
  }

  lemma PopPlaced(s: State, sl: Slot)
    requires Placed(s) && At(s.wheel, sl) != []
    ensures At(s.wheel, sl)[0] < |s.nodes| && Placed(Pop(s, sl))
  {
    var n := At(s.wheel, sl)[0];
    assert n in At(s.wheel, sl);
    var p := Pop(s, sl);
    forall sl' ensures NoDuplicates(At(p.wheel, sl'))
      && forall x :: x in At(p.wheel, sl') <==> x in At(s.wheel, sl') && x != n {
      assert NoDuplicates(At(s.wheel, sl'));
      if sl' == sl {
        PoppedMembers(At(s.wheel, sl));
      } else {
        assert At(p.wheel, sl') == At(s.wheel, sl');
      }
    }
  }

  lemma RetirePlaced(s: State, n: nat)
    requires Placed(s) && n < |s.nodes| && s.place[n] == InHand
    ensures Placed(Retire(s, n))
  {
    PushedMembers(s.free, n);
  }

  // ----- Timing -----

  /** What `Link` needs so that the slot being drained is not the target. */
  predicate MayLink(now: int, expire: int, from: int) {
    from == now || (from == now - 1 && expire - now != 255)
  }

  lemma LinkTimed(now: int, expire: int, from: int)
    requires MayLink(now, expire, from)
    ensures var sl := SlotFor(now, expire);
      && Timed(sl, Max(now, expire), expire, now, from)
      && (sl.level > 0 ==> now < NextVisit(sl, now))
  {
    Placement(now, expire);
    var sl := SlotFor(now, expire);
    if from == now - 1 && sl.level == 0 {
      DrainCollision(from, expire);
      VisitPending(sl, from);
    }
  }

  lemma LinkTiming(s: State, n: nat, from: int)
    requires Placed(s) && n < |s.nodes| && s.place[n] == InHand && Timing(s, from)
    requires MayLink(s.now, s.nodes[n].expire, from)
    ensures Placed(Link(s, n)) && Timing(Link(s, n), from)
  {
    LinkPlaced(s, n);
    LinkTimed(s.now, s.nodes[n].expire, from);
    forall k: nat ensures NodeTimed(Link(s, n), k, from) {
      assert NodeTimed(s, k, from);
    }
  }

  lemma LinkAbs(s: State, n: nat)
    requires |s.place| == |s.nodes| == |s.due| && n < |s.nodes|
    ensures var f, t := Abs(s), s.nodes[n];
      Abs(Link(s, n)) == f.(armed := f.armed[n := Timer(t.id, Max(s.now, t.expire), t.interval, t.cb)])
  {
    assert Abs(Link(s, n)).lastId == Abs(s).lastId;
  }

  lemma UnlinkAbs(s: State, n: nat)
    requires |s.place| == |s.nodes| == |s.due| && n < |s.nodes|
    ensures Abs(Unlink(s, n)) == Abs(s).(armed := Abs(s).armed - {n})
  {
    assert Abs(Unlink(s, n)).lastId == Abs(s).lastId;
    assert Abs(Unlink(s, n)).armed == Abs(s).armed - {n};
  }

  lemma RetireAbs(s: State, n: nat)
    requires |s.place| == |s.nodes| == |s.due| && n < |s.nodes| && s.place[n] == InHand
    ensures Abs(Retire(s, n)) == Abs(s)
  {
    assert Abs(Retire(s, n)).lastId == Abs(s).lastId;
  }

  // ----- SetTimer -----

  /** The node `SetTimer` takes: the first free one, else a new one. */
  function TakenNode(s: State): nat {
    if s.free != [] then s.free[0] else |s.nodes|
  }

  /** The handle it issues: the next generation of a recycled node, generation 0 of a new one. */
  function TakenId(s: State): nat {
    if TakenNode(s) < |s.nodes| then Reissue(s.nodes[TakenNode(s)].id) else TakenNode(s) * GENERATIONS
  }

  /** The node filled in and still unlinked. */
  ghost function Taken(s: State, delay: int, interval: int, cb: nat): State
    requires Placed(s)
  {
    var n, t := TakenNode(s), TimerNode(TakenId(s), s.now + delay - 1, interval, Some(cb), true);
    if s.free != [] then
      assert n in s.free;
      s.(nodes := s.nodes[n := t], free := s.free[1..], place := s.place[n := InHand])
    else
      s.(nodes := s.nodes + [t], place := s.place + [InHand], due := s.due + [0])
  }

  lemma TakenPlaced(s: State, delay: int, interval: int, cb: nat)
    requires Placed(s)
    ensures var u, n := Taken(s, delay, interval, cb), TakenNode(s);
      && Placed(u) && n < |u.nodes| && u.place[n] == InHand && (n < |s.nodes| ==> s.place[n] == Free)
      && u.nodes[n] == TimerNode(TakenId(s), s.now + delay - 1, interval, Some(cb), true)
      && (forall k :: 0 <= k < |s.nodes| && k != n ==>
            u.nodes[k] == s.nodes[k] && u.place[k] == s.place[k] && u.due[k] == s.due[k])
      && |u.nodes| == (if n < |s.nodes| then |s.nodes| else n + 1) && n <= |s.nodes|
    ensures NodeOf(TakenId(s)) == TakenNode(s)
  {
    if s.free != [] {
      var n := s.free[0];
      assert n in s.free;
      PoppedMembers(s.free);
      GenerationStep(s.nodes[n].id, 0);
    }
  }

  ghost predicate Good(s: State, from: int) {
    Placed(s) && HandOf(s) && Timing(s, from)
  }

  lemma GoodAt(s: State, from: int, from': int)
    requires Good(s, from) && from == from'
    ensures Good(s, from')
  {
  }

  ghost function AfterSet(s: State, delay: int, interval: int, cb: nat): State
    requires Placed(s)
  {
    TakenPlaced(s, delay, interval, cb);
    Link(Taken(s, delay, interval, cb), TakenNode(s))
  }

  /** A call touches one node, which was free or is new, and leaves it in a slot. */
  lemma SetCells(s: State, delay: int, interval: int, cb: nat)
    requires Placed(s)
    ensures var a, n := AfterSet(s, delay, interval, cb), TakenNode(s);
      && Placed(a) && a.now == s.now && a.running == s.running
      && n < |a.nodes| == (if n < |s.nodes| then |s.nodes| else n + 1) && n <= |s.nodes|
      && a.place[n].InSlot? && (n < |s.nodes| ==> s.place[n] == Free)
      && forall k :: 0 <= k < |s.nodes| && k != n ==>
           a.nodes[k] == s.nodes[k] && a.place[k] == s.place[k] && a.due[k] == s.due[k]
  {
    TakenPlaced(s, delay, interval, cb);
    LinkPlaced(Taken(s, delay, interval, cb), TakenNode(s));
  }

  lemma SetHand(s: State, delay: int, interval: int, cb: nat)
    requires Placed(s) && HandOf(s)
    ensures Placed(AfterSet(s, delay, interval, cb)) && HandOf(AfterSet(s, delay, interval, cb))
  {
    SetCells(s, delay, interval, cb);
  }

  lemma SetGood(s: State, delay: int, interval: int, cb: nat, from: int)
    requires Good(s, from) && MayLink(s.now, s.now + delay - 1, from)
    ensures Good(AfterSet(s, delay, interval, cb), from)
  {
    SetHand(s, delay, interval, cb);
    TakenPlaced(s, delay, interval, cb);
    var u := Taken(s, delay, interval, cb);
    SameTiming(s, u, from);
    LinkTiming(u, TakenNode(s), from);
  }

  lemma TakenAbs(s: State, delay: int, interval: int, cb: nat)
    requires Placed(s)
    ensures var u, n, f := Taken(s, delay, interval, cb), TakenNode(s), Abs(s);
      && n <= |f.lastId| && |u.place| == |u.nodes| == |u.due|
      && Abs(u) == f.(lastId := if n < |f.lastId| then f.lastId[n := TakenId(s)] else f.lastId + [TakenId(s)])
  {
    TakenPlaced(s, delay, interval, cb);
    TakenArmed(s, delay, interval, cb);
    var u, n := Taken(s, delay, interval, cb), TakenNode(s);
    if n < |s.nodes| {
      assert Abs(u).lastId == Abs(s).lastId[n := TakenId(s)];
    } else {
      assert Abs(u).lastId == Abs(s).lastId + [TakenId(s)];
    }
  }

  lemma TakenArmed(s: State, delay: int, interval: int, cb: nat)
    requires Placed(s)
    ensures var u := Taken(s, delay, interval, cb);
      |u.place| == |u.nodes| == |u.due| && Abs(u).armed == Abs(s).armed
  {
    TakenPlaced(s, delay, interval, cb);
  }

  lemma SetAbs(s: State, delay: int, interval: int, cb: nat)
    requires Placed(s)
    ensures var f, a := Abs(s), AfterSet(s, delay, interval, cb);
      && NodeOf(TakenId(s)) <= |f.lastId| && |a.place| == |a.nodes| == |a.due|
      && Abs(a) == Arm(f, TakenId(s), delay, interval, cb)
  {
    var u, n := Taken(s, delay, interval, cb), TakenNode(s);
    TakenPlaced(s, delay, interval, cb);
    TakenAbs(s, delay, interval, cb);
    LinkAbs(u, n);
    assert u.nodes[n] == TimerNode(TakenId(s), s.now + delay - 1, interval, Some(cb), true) && u.now == s.now;
    assert Abs(Link(u, n)).armed == Abs(s).armed[n := Timer(TakenId(s), Max(s.now, s.now + delay - 1), interval,
        Some(cb))];
  }

  /** `SetTimer` is the flat machine's `Armed` with the handle it returns. */
  lemma SetRefines(s: State, delay: int, interval: int, cb: nat)
    requires Placed(s) && HandOf(s)
    ensures Placed(AfterSet(s, delay, interval, cb)) && HandOf(AfterSet(s, delay, interval, cb))
    ensures Apply(Abs(s), Armed(TakenId(s), delay, interval, cb)) == Some(Abs(AfterSet(s, delay, interval, cb)))
  {
    SetHand(s, delay, interval, cb);
    SetAbs(s, delay, interval, cb);
    SetIssuable(s);
  }

  lemma SetIssuable(s: State)
    requires Placed(s) && HandOf(s)
    ensures Issuable(Abs(s), TakenId(s))
  {
    TakenPlaced(s, 0, 0, 0);
  }

  // ----- DelTimer -----

  /** `FindUsingTimerNode` */
  function Find(nodes: seq<TimerNode>, id: nat): Option<nat> {
    if id == TIMER_ID_INVALID || NodeOf(id) >= |nodes| then None
    else if nodes[NodeOf(id)].id == id && nodes[NodeOf(id)].isUsing then Some(NodeOf(id))
    else None
  }

  /** A handle is found exactly when its timer is live, the reserved value excepted; that one is no timer's handle as
      long as there are fewer than 2^48 nodes. */
  lemma FindLive(s: State, id: nat)
    requires Placed(s) && HandOf(s)
    ensures Find(s.nodes, id).Some? <==> id != TIMER_ID_INVALID && Live(Abs(s), id)
    ensures |s.nodes| < 0x1_0000_0000_0000 ==> (Find(s.nodes, id).Some? <==> Live(Abs(s), id))
  {
  }

  /** What `SetTimer` returns is found at once, */
  lemma SetThenFound(s: State, delay: int, interval: int, cb: nat)
    requires Placed(s) && HandOf(s)
    ensures var a := AfterSet(s, delay, interval, cb);
      |a.nodes| < 0x1_0000_0000_0000 ==> Find(a.nodes, TakenId(s)) == Some(TakenNode(s))
  {
    TakenPlaced(s, delay, interval, cb);
  }

  /** and what `DelTimer` has found is not live afterwards. */
  lemma ReleaseKills(s: State, id: nat)
    requires Placed(s) && HandOf(s) && Find(s.nodes, id).Some?
    ensures var r := AfterRelease(s, NodeOf(id));
      Placed(r) && HandOf(r) && Find(r.nodes, id) == None && !Live(Abs(r), id)
  {
    ReleasePlaced(s, NodeOf(id));
    FindLive(AfterRelease(s, NodeOf(id)), id);
  }

  /** Moving a node in use to the free list; if it is the one in hand, its callback is now a dead timer's. */
  ghost function AfterRelease(s: State, n: nat): State
    requires |s.place| == |s.nodes| && n < |s.nodes|
  {
    var held := s.running.Running? && s.running.node == n && !s.running.stopped;
    Retire(Unlink(s, n), n).(running := if held then s.running.(stopped := true) else s.running)
  }

  lemma ReleasePlaced(s: State, n: nat)
    requires Placed(s) && n < |s.nodes| && s.nodes[n].isUsing
    ensures Placed(AfterRelease(s, n))
  {
    UnlinkPlaced(s, n);
    RetirePlaced(Unlink(s, n), n);
  }

  lemma ReleaseGood(s: State, n: nat, from: int)
    requires Good(s, from) && n < |s.nodes| && s.nodes[n].isUsing
    ensures Good(AfterRelease(s, n), from)
  {
    ReleasePlaced(s, n);
    SameTiming(s, AfterRelease(s, n), from);
  }

  lemma ReleaseAbs(s: State, n: nat)
    requires |s.place| == |s.nodes| == |s.due| && n < |s.nodes|
    ensures var r := AfterRelease(s, n);
      && |r.place| == |r.nodes| == |r.due|
      && Abs(r) == Abs(s).(armed := Abs(s).armed - {n}, running := r.running)
  {
    UnlinkAbs(s, n);
    RetireAbs(Unlink(s, n), n);
    var u := Retire(Unlink(s, n), n);
    assert Abs(AfterRelease(s, n)) == Abs(u).(running := AfterRelease(s, n).running);
  }

  /** `DelTimer` is the flat machine's `Deleted`. */
  lemma DeleteRefines(s: State, id: nat, from: int)
    requires Good(s, from) && Find(s.nodes, id).Some?
    ensures Good(AfterRelease(s, NodeOf(id)), from)
    ensures Apply(Abs(s), Deleted(id)) == Some(Abs(AfterRelease(s, NodeOf(id))))
  {
    var n := NodeOf(id);
    ReleaseGood(s, n, from);
    ReleaseAbs(s, n);
    if s.place[n] == InHand {
      assert Abs(s).armed - {n} == Abs(s).armed;
    }
  }

  // ----- draining a tick -----

  /** `PopFront` of the slot being drained: the callback of that timer is about to run. */
  ghost function AfterFire(s: State, sl: Slot): State
    requires Placed(s) && At(s.wheel, sl) != []
  {
    PopPlaced(s, sl);
    var n := At(s.wheel, sl)[0];
    Pop(s, sl).(running := Running(n, s.nodes[n].id, s.nodes[n].interval, s.nodes[n].cb, false))
  }

  lemma FireGood(s: State, sl: Slot, from: int)
    requires Good(s, from) && s.running.Idle? && At(s.wheel, sl) != []
    requires from == s.now - 1 && sl == Slot(0, IndexAt(0, from))
    ensures Good(AfterFire(s, sl), from)
  {
    PopPlaced(s, sl);
    FireDue(s, sl);
    var n, p := At(s.wheel, sl)[0], Pop(s, sl);
    SameTiming(s, AfterFire(s, sl), from);
  }

  /** The first timer of the slot being drained is due at just this tick. */
  lemma FireRefines(s: State, sl: Slot)
    requires Good(s, s.now - 1) && s.running.Idle? && At(s.wheel, sl) != []
    requires sl == Slot(0, IndexAt(0, s.now - 1))
    ensures var n := At(s.wheel, sl)[0];
      && n < |s.nodes| && Placed(AfterFire(s, sl))
      && Apply(Abs(s), Fired(s.nodes[n].id, s.nodes[n].cb)) == Some(Abs(AfterFire(s, sl)))
  {
    PopPlaced(s, sl);
    FireDue(s, sl);
    var n := At(s.wheel, sl)[0];
    PopAbs(s, sl);
    assert Abs(AfterFire(s, sl)) == Abs(Pop(s, sl)).(running := AfterFire(s, sl).running);
  }

  lemma FireDue(s: State, sl: Slot)
    requires Placed(s) && Timing(s, s.now - 1) && At(s.wheel, sl) != []
    requires sl == Slot(0, IndexAt(0, s.now - 1))
    ensures var n := At(s.wheel, sl)[0];
      n < |s.nodes| && s.place[n] == InSlot(sl) && s.nodes[n].expire <= s.due[n] == s.now - 1
  {
    var n := At(s.wheel, sl)[0];
    assert n in At(s.wheel, sl);
    assert NodeTimed(s, n, s.now - 1);
    VisitPending(sl, s.now - 1);
  }

  lemma PopAbs(s: State, sl: Slot)
    requires |s.place| == |s.nodes| == |s.due| && At(s.wheel, sl) != [] && At(s.wheel, sl)[0] < |s.place|
    ensures Abs(Pop(s, sl)) == Abs(s).(armed := Abs(s).armed - {At(s.wheel, sl)[0]})
  {
    assert Abs(Pop(s, sl)).lastId == Abs(s).lastId;
    assert Abs(Pop(s, sl)).armed == Abs(s).armed - {At(s.wheel, sl)[0]};
  }

  /** Back from the callback, and with the expiry time of the next turn. */
  ghost function Back(s: State): State {
    s.(running := Idle)
  }

  ghost function Expiring(s: State, n: nat): State
    requires n < |s.nodes|
  {
    Back(s).(nodes := s.nodes[n := s.nodes[n].(expire := s.now + s.nodes[n].interval)])
  }

  /** Lines 238-250, after the callback: re-arm, or move to the free list. */
  ghost function AfterReturn(s: State, n: nat): State
    requires |s.place| == |s.nodes| == |s.due| && n < |s.nodes|
  {
    if !s.nodes[n].isUsing then Back(s)
    else if s.nodes[n].interval > 0 then Link(Unlink(Expiring(s, n), n), n)
    else Retire(Unlink(Back(s), n), n)
  }

  lemma ReturnRefines(s: State, n: nat)
    requires Placed(s) && HandOf(s) && s.running.Running? && s.running.node == n
    ensures n < |s.nodes| && Placed(AfterReturn(s, n))
    ensures Apply(Abs(s), Returned) == Some(Abs(AfterReturn(s, n)))
  {
    var f, g := ReturnSettles(s, n);
  }

  lemma ReturnSettles(s: State, n: nat) returns (f: Flat, g: Flat)
    requires Placed(s) && HandOf(s) && s.running.Running? && s.running.node == n
    ensures n < |s.nodes| && Placed(AfterReturn(s, n))
    ensures f == Abs(s) && f.running.Running? && g == Abs(AfterReturn(s, n)) && g == Settle(f)
  {
    f, g := Abs(s), Abs(AfterReturn(s, n));
    if s.nodes[n].isUsing {
      if s.nodes[n].interval > 0 {
        RearmPlaced(s, n);
        RearmAbs(s, n);
        SettledRearmed(s, n);
      } else {
        RetiredPlaced(s, n);
        RetiredAbs(s, n);
        SettledRetired(s, n);
      }
    } else {
      BackAbs(s);
      SettledNone(s, n);
    }
  }

  /** The node is free: its timer was deleted. */
  lemma SettledNone(s: State, n: nat)
    requires Placed(s) && HandOf(s) && s.running.Running? && s.running.node == n
    requires n < |s.nodes| && !s.nodes[n].isUsing
    ensures Settle(Abs(s)) == Abs(s).(running := Idle)
  {
    assert Abs(s).armed - {n} == Abs(s).armed;
  }

  lemma BackAbs(s: State)
    requires |s.place| == |s.nodes| == |s.due|
    ensures Abs(Back(s)) == Abs(s).(running := Idle)
  {
  }

  lemma RetiredPlaced(s: State, n: nat)
    requires Placed(s) && n < |s.nodes| && s.nodes[n].isUsing && s.nodes[n].interval <= 0
    ensures Placed(AfterReturn(s, n)) && AfterReturn(s, n) == Retire(Unlink(Back(s), n), n)
  {
    UnlinkPlaced(Back(s), n);
    RetirePlaced(Unlink(Back(s), n), n);
  }

  lemma RetiredAbs(s: State, n: nat)
    requires Placed(s) && n < |s.nodes| && s.nodes[n].isUsing && s.nodes[n].interval <= 0
    ensures Placed(AfterReturn(s, n))
    ensures Abs(AfterReturn(s, n)) == Abs(s).(armed := Abs(s).armed - {n}, running := Idle)
  {
    RetiredPlaced(s, n);
    BackAbs(s);
    UnlinkAbs(Back(s), n);
    RetireAbs(Unlink(Back(s), n), n);
  }

  /** What the flat machine drops is not periodic. */
  lemma SettledRetired(s: State, n: nat)
    requires Placed(s) && HandOf(s) && s.running.Running? && s.running.node == n
    requires n < |s.nodes| && s.nodes[n].isUsing && s.nodes[n].interval <= 0
    ensures Settle(Abs(s)) == Abs(s).(armed := Abs(s).armed - {n}, running := Idle)
  {
  }

  /** With interval 255 it is the placement that is wrong afterwards: see ReturnGoodExactly. */
  lemma ReturnGood(s: State, n: nat)
    requires Good(s, s.now - 1) && s.running.Running? && s.running.node == n
    requires n < |s.nodes| && s.nodes[n].interval != 255
    ensures Good(AfterReturn(s, n), s.now - 1)
  {
    if s.nodes[n].isUsing {
      if s.nodes[n].interval > 0 {
        RearmGood(s, n);
      } else {
        RetiredPlaced(s, n);
        SameTiming(s, AfterReturn(s, n), s.now - 1);
      }
    } else {
      SameTiming(s, Back(s), s.now - 1);
    }
  }

  lemma RearmPlaced(s: State, n: nat)
    requires Placed(s) && n < |s.nodes| && s.nodes[n].isUsing && s.nodes[n].interval > 0
    ensures Placed(AfterReturn(s, n)) && Placed(Unlink(Expiring(s, n), n))
    ensures AfterReturn(s, n) == Link(Unlink(Expiring(s, n), n), n)
  {
    assert Placed(Expiring(s, n));
    UnlinkPlaced(Expiring(s, n), n);
    LinkPlaced(Unlink(Expiring(s, n), n), n);
  }

  lemma RearmGood(s: State, n: nat)
    requires Good(s, s.now - 1) && s.running.Running? && s.running.node == n
    requires n < |s.nodes| && s.nodes[n].isUsing && s.nodes[n].interval > 0 && s.nodes[n].interval != 255
    ensures Good(AfterReturn(s, n), s.now - 1)
  {
    var u := Unlink(Expiring(s, n), n);
    RearmPlaced(s, n);
    SameTiming(s, u, s.now - 1);
    LinkTiming(u, n, s.now - 1);
  }

  lemma ExpiringAbs(s: State, n: nat)
    requires |s.place| == |s.nodes| == |s.due| && n < |s.nodes|
    ensures Abs(Expiring(s, n)) == Abs(s).(running := Idle)
  {
    assert Abs(Expiring(s, n)).lastId == Abs(s).lastId && Abs(Expiring(s, n)).armed == Abs(s).armed;
  }

  lemma RearmAbs(s: State, n: nat)
    requires |s.place| == |s.nodes| == |s.due| && n < |s.nodes| && s.nodes[n].isUsing && s.nodes[n].interval > 0
    ensures var t, r := s.nodes[n], AfterReturn(s, n);
      && |r.place| == |r.nodes| == |r.due|
      && Abs(r) == Abs(s).(armed := Abs(s).armed[n := Timer(t.id, s.now + t.interval, t.interval, t.cb)],
          running := Idle)
  {
    var f, x := Abs(s), Timer(s.nodes[n].id, s.now + s.nodes[n].interval, s.nodes[n].interval, s.nodes[n].cb);
    ExpiringAbs(s, n);
    UnlinkAbs(Expiring(s, n), n);
    LinkAbs(Unlink(Expiring(s, n), n), n);
    assert (f.armed - {n})[n := x] == f.armed[n := x];
  }

  /** What the flat machine re-times is what the node holds. */
  lemma SettledRearmed(s: State, n: nat)
    requires Placed(s) && HandOf(s) && s.running.Running? && s.running.node == n
    requires n < |s.nodes| && s.nodes[n].isUsing && s.nodes[n].interval > 0
    ensures var t := s.nodes[n];
      Settle(Abs(s)) == Abs(s).(armed := Abs(s).armed[n := Timer(t.id, s.now + t.interval, t.interval, t.cb)],
                                running := Idle)
  {
    if s.running.stopped {
      assert s.place[n].InSlot? && n in Abs(s).armed;
    }
  }

  // ----- cascading -----

  /** No slot of the levels from 1 up to `level` is still to be visited at this tick. */
  ghost predicate Ahead(s: State, level: nat)
    requires Placed(s)
  {
    forall n :: 0 <= n < |s.nodes| && s.place[n].InSlot? && 1 <= s.place[n].slot.level < level ==>
      s.now < NextVisit(s.place[n].slot, s.now)
  }

  /** One turn of the cascade loop: pop the first node of the slot and put it in again. */
  ghost function Recascade(s: State, sl: Slot): State
    requires Placed(s) && At(s.wheel, sl) != []
  {
    PopPlaced(s, sl);
    Link(Pop(s, sl), At(s.wheel, sl)[0])
  }

  lemma RecascadeGood(s: State, sl: Slot)
    requires Good(s, s.now) && s.running.Idle? && At(s.wheel, sl) != []
    requires 1 <= sl.level && Ahead(s, sl.level)
    ensures Good(Recascade(s, sl), s.now) && Ahead(Recascade(s, sl), sl.level)
  {
    PopPlaced(s, sl);
    var n, p := At(s.wheel, sl)[0], Pop(s, sl);
    SameTiming(s, p, s.now);
    LinkTiming(p, n, s.now);
    LinkTimed(s.now, s.nodes[n].expire, s.now);
  }

  /** Cascading moves a node to another slot and changes neither its timer nor its due tick. */
  lemma RecascadeAbs(s: State, sl: Slot)
    requires Good(s, s.now) && At(s.wheel, sl) != [] && 1 <= sl.level && Visits(sl, s.now)
    ensures Placed(Recascade(s, sl)) && Abs(Recascade(s, sl)) == Abs(s)
    ensures |At(Recascade(s, sl).wheel, sl)| == |At(s.wheel, sl)| - 1
  {
    PopPlaced(s, sl);
    var n := At(s.wheel, sl)[0];
    LinkPlaced(Pop(s, sl), n);
    CascadeDue(s, sl);
    RelinkAbs(s, sl);
  }

  /** A node in a slot that is cascaded now is due no sooner, and goes to another slot. */
  lemma CascadeDue(s: State, sl: Slot)
    requires Good(s, s.now) && At(s.wheel, sl) != [] && 1 <= sl.level && Visits(sl, s.now)
    ensures var n := At(s.wheel, sl)[0];
      && n < |s.nodes| && s.place[n] == InSlot(sl)
      && s.due[n] == s.nodes[n].expire >= s.now && SlotFor(s.now, s.nodes[n].expire) != sl
  {
    var n := At(s.wheel, sl)[0];
    assert n in At(s.wheel, sl);
    assert NodeTimed(s, n, s.now);
    LinkTimed(s.now, s.nodes[n].expire, s.now);
    VisitPending(sl, s.now);
  }

  lemma RelinkAbs(s: State, sl: Slot)
    requires |s.place| == |s.nodes| == |s.due| && At(s.wheel, sl) != [] && At(s.wheel, sl)[0] < |s.nodes|
    requires var n := At(s.wheel, sl)[0]; s.place[n].InSlot? && s.due[n] == Max(s.now, s.nodes[n].expire)
    ensures Abs(Link(Pop(s, sl), At(s.wheel, sl)[0])) == Abs(s)
  {
    var n := At(s.wheel, sl)[0];
    PopAbs(s, sl);
    LinkAbs(Pop(s, sl), n);
    var t := Timer(s.nodes[n].id, s.due[n], s.nodes[n].interval, s.nodes[n].cb);
    assert (Abs(s).armed - {n})[n := t] == Abs(s).armed;
  }

  /** An emptied slot completes its level. */
  lemma LevelDone(s: State, sl: Slot)
    requires Good(s, s.now) && Ahead(s, sl.level) && 1 <= sl.level
    requires At(s.wheel, sl) == [] && sl.index == IndexAt(sl.level, s.now)
    ensures Ahead(s, sl.level + 1)
  {
    forall n | 0 <= n < |s.nodes| && s.place[n].InSlot? && s.place[n].slot.level == sl.level
      ensures s.now < NextVisit(s.place[n].slot, s.now) {
      assert n in At(s.wheel, s.place[n].slot);
      VisitPending(s.place[n].slot, s.now);
      NextVisitFirst(s.place[n].slot, s.now);
    }
  }

  /** Levels that do not start a slot at this tick need no cascade. */
  lemma LevelsIdle(s: State, level: nat)
    requires Good(s, s.now) && Ahead(s, level) && 1 <= level <= LEVELS
    requires level < LEVELS ==> s.now % Width(level) != 0
    ensures Ahead(s, LEVELS)
  {
    forall n | 0 <= n < |s.nodes| && s.place[n].InSlot? && level <= s.place[n].slot.level < LEVELS
      ensures s.now < NextVisit(s.place[n].slot, s.now) {
      Unaligned(level, s.place[n].slot.level, s.now);
      VisitPending(s.place[n].slot, s.now);
      NextVisitFirst(s.place[n].slot, s.now);
    }
  }

  lemma {:induction false} Unaligned(level: nat, above: nat, t: int)
    requires level <= above < LEVELS && t % Width(level) != 0
    ensures t % Width(above) != 0
  {
    if level < above {
      Unaligned(level, above - 1, t);
      if t % Width(above) == 0 {
        LowerAligned(above - 1, t);
      }
    }
  }

  // ----- moving on -----

  lemma TimersDue(s: State)
    requires Good(s, s.now) && s.running.Idle?
    ensures Settled(Abs(s))
  {
    forall n | n in Abs(s).armed ensures s.now <= Abs(s).armed[n].due {
      assert NodeTimed(s, n, s.now);
      NextVisitFirst(s.place[n].slot, s.now);
    }
  }

  /** `++cur_time_` once the tick's cascades are done. */
  lemma AdvanceRefines(s: State)
    requires Good(s, s.now) && s.running.Idle? && Ahead(s, LEVELS)
    ensures Good(s.(now := s.now + 1), s.now)
    ensures Apply(Abs(s), Advance) == Some(Abs(s.(now := s.now + 1)))
  {
    TimersDue(s);
    var a := s.(now := s.now + 1);
    assert Abs(a) == Abs(s).(now := s.now + 1);
    forall n: nat ensures NodeTimed(a, n, s.now) {
      assert NodeTimed(s, n, s.now);
      if n < |s.nodes| && s.place[n].InSlot? { VisitPending(s.place[n].slot, s.now); }
    }
  }

  /** An emptied level-0 slot completes the tick. */
  lemma TickDone(s: State)
    requires Good(s, s.now - 1) && At(s.wheel, Slot(0, IndexAt(0, s.now - 1))) == []
    ensures Good(s, s.now)
  {
    forall n: nat ensures NodeTimed(s, n, s.now) {
      assert NodeTimed(s, n, s.now - 1);
      if n < |s.nodes| && s.place[n].InSlot? {
        assert n in At(s.wheel, s.place[n].slot) && n !in At(s.wheel, Slot(0, IndexAt(0, s.now - 1)));
        TimedOn(s.place[n].slot, s.due[n], s.nodes[n].expire, s.now);
      }
    }
  }

  /** A slot other than the one just drained waits for the same tick as before. */
  lemma TimedOn(sl: Slot, due: int, expire: int, now: int)
    requires ValidSlot(sl) && Timed(sl, due, expire, now, now - 1) && sl != Slot(0, IndexAt(0, now - 1))
    ensures Timed(sl, due, expire, now, now)
  {
    VisitPending(sl, now - 1);
  }

  // ----- the slot being drained only shrinks -----

  /** The list that the tick before `now` is draining. */
  ghost function DrainList(s: State): seq<nat> {
    At(s.wheel, Slot(0, IndexAt(0, s.now - 1)))
  }

  /** A callback's `SetTimer` adds to the slot being drained exactly when its delay is 256; the timer would then
      start in this tick, 256 ticks early. */
  lemma SetIntoDrain(s: State, delay: int, interval: int, cb: nat)
    requires Placed(s)
    ensures DrainList(AfterSet(s, delay, interval, cb)) == DrainList(s) + if delay == 256 then [TakenNode(s)] else []
  {
    TakenPlaced(s, delay, interval, cb);
    DrainCollision(s.now - 1, s.now + delay - 1);
  }

  lemma ReleaseShrinks(s: State, n: nat)
    requires Placed(s) && n < |s.nodes|
    ensures |DrainList(AfterRelease(s, n))| <= |DrainList(s)|
  {
    var sl := Slot(0, IndexAt(0, s.now - 1));
    WithoutMembers(At(s.wheel, sl), n);
    assert NoDuplicates(At(s.wheel, sl));
  }

  /** A timer with the one interval that never leaves the slot being drained is not in use. */
  ghost predicate Intervals(s: State) {
    forall n :: 0 <= n < |s.nodes| ==> s.nodes[n].interval != 255
  }

  lemma SetIntervals(s: State, delay: int, interval: int, cb: nat)
    requires Placed(s) && Intervals(s) && interval != 255
    ensures Intervals(AfterSet(s, delay, interval, cb))
  {
    TakenPlaced(s, delay, interval, cb);
  }

  lemma ReturnIntervals(s: State, n: nat)
    requires |s.place| == |s.nodes| == |s.due| && n < |s.nodes| && Intervals(s)
    ensures Intervals(AfterReturn(s, n))
  {
  }

  lemma SetFacts(s: State, delay: int, interval: int, cb: nat, from: int) returns (s': State)
    requires Good(s, from) && s.now - 1 <= from <= s.now
    ensures s' == AfterSet(s, delay, interval, cb) && s'.now == s.now && s'.running == s.running
    ensures Placed(s') && HandOf(s') && (Good(s', from) <==> MayLink(s.now, s.now + delay - 1, from))
    ensures Apply(Abs(s), Armed(TakenId(s), delay, interval, cb)) == Some(Abs(s'))
    ensures delay != 256 ==> DrainList(s') == DrainList(s)
    ensures interval != 255 && Intervals(s) ==> Intervals(s')
  {
    s' := AfterSet(s, delay, interval, cb);
    SetRefines(s, delay, interval, cb);
    if from == s.now {
      SetGood(s, delay, interval, cb, from);
    } else {
      SetGoodExactly(s, delay, interval, cb);
    }
    if delay != 256 {
      SetIntoDrain(s, delay, interval, cb);
    }
    if interval != 255 && Intervals(s) {
      SetIntervals(s, delay, interval, cb);
    }
  }

  /** The same for a safe call from a callback. */
  lemma SetSafely(s: State, delay: int, interval: int, cb: nat) returns (s': State)
    requires Good(s, s.now - 1) && Intervals(s) && delay != 256 && interval != 255
    ensures s' == AfterSet(s, delay, interval, cb) && s'.now == s.now && s'.running == s.running
    ensures Good(s', s.now - 1) && Intervals(s') && DrainList(s') == DrainList(s)
    ensures Apply(Abs(s), Armed(TakenId(s), delay, interval, cb)) == Some(Abs(s'))
  {
    s' := SetFacts(s, delay, interval, cb, s.now - 1);
  }

  lemma ReturnFacts(s: State, n: nat) returns (s': State)
    requires Good(s, s.now - 1) && Intervals(s) && s.running.Running? && s.running.node == n
    ensures n < |s.nodes| && s' == AfterReturn(s, n) && s'.now == s.now && s'.running == Idle
    ensures Good(s', s.now - 1) && Intervals(s') && |DrainList(s')| <= |DrainList(s)|
    ensures Apply(Abs(s), Returned) == Some(Abs(s'))
  {
    ReturnRefines(s, n);
    s' := AfterReturn(s, n);
    ReturnGood(s, n);
    ReturnShrinks(s, n);
    ReturnIntervals(s, n);
  }

  lemma ReleaseFacts(s: State, id: nat) returns (s': State)
    requires Good(s, s.now - 1) && Intervals(s) && Find(s.nodes, id).Some?
    ensures NodeOf(id) < |s.nodes| && s' == AfterRelease(s, NodeOf(id)) && s'.now == s.now
    ensures Good(s', s.now - 1) && Intervals(s') && |DrainList(s')| <= |DrainList(s)|
    ensures s.running.Running? ==> s'.running.Running? && s'.running.node == s.running.node
    ensures id != TIMER_ID_INVALID && Live(Abs(s), id) && Apply(Abs(s), Deleted(id)) == Some(Abs(s'))
  {
    FindLive(s, id);
    DeleteRefines(s, id, s.now - 1);
    ReleaseShrinks(s, NodeOf(id));
    s' := AfterRelease(s, NodeOf(id));
  }

  lemma FireFacts(s: State, sl: Slot) returns (s': State, t: TimerNode)
    requires Good(s, s.now - 1) && Intervals(s) && s.running.Idle?
    requires sl == Slot(0, IndexAt(0, s.now - 1)) && At(s.wheel, sl) != []
    ensures var n := At(s.wheel, sl)[0];
      && n < |s.nodes| && t == s.nodes[n] && s' == AfterFire(s, sl) && s'.running.Running? && s'.running.node == n
    ensures s'.now == s.now && s'.nodes == s.nodes && |At(s'.wheel, sl)| < |At(s.wheel, sl)|
    ensures Good(s', s.now - 1) && Intervals(s') && Apply(Abs(s), Fired(t.id, t.cb)) == Some(Abs(s'))
  {
    PopPlaced(s, sl);
    FireGood(s, sl, s.now - 1);
    FireRefines(s, sl);
    s', t := AfterFire(s, sl), s.nodes[At(s.wheel, sl)[0]];
  }

  /** The flat machine's theorems apply to every state that the manager can be in. */
  lemma AbsWellFormed(s: State, from: int)
    requires Good(s, from) && s.now - 1 <= from
    ensures WellFormed(Abs(s))
  {
    forall n | 0 <= n < |s.nodes| && s.place[n].InSlot? ensures s.now - 1 <= s.due[n] {
      assert NodeTimed(s, n, from);
      NextVisitFirst(s.place[n].slot, from);
      NextVisitFirst(s.place[n].slot, s.now);
    }
  }

  /** A callback's `SetTimer` keeps the timing law exactly when its delay is not 256. */
  lemma SetGoodExactly(s: State, delay: int, interval: int, cb: nat)
    requires Good(s, s.now - 1)
    ensures Good(AfterSet(s, delay, interval, cb), s.now - 1) <==> delay != 256
  {
    if delay != 256 {
      SetGood(s, delay, interval, cb, s.now - 1);
    } else {
      SetNotGood(s, interval, cb);
    }
  }

  lemma SetNotGood(s: State, interval: int, cb: nat)
    requires Placed(s)
    ensures !Good(AfterSet(s, 256, interval, cb), s.now - 1)
  {
    var a := AfterSet(s, 256, interval, cb);
    SetEarly(s, interval, cb);
    if Good(a, s.now - 1) { DrainedWhenDue(a, TakenNode(s)); }
  }

  /** With delay 256 the timer is in the slot that is being drained, 256 ticks before it is due. */
  lemma SetEarly(s: State, interval: int, cb: nat)
    requires Placed(s)
    ensures var a, n := AfterSet(s, 256, interval, cb), TakenNode(s);
      n < |a.nodes| == |a.due| == |a.place| && n in DrainList(a) && a.now == s.now && a.due[n] == (s.now - 1) + 256
      && a.place[n] == InSlot(Slot(0, IndexAt(0, a.now - 1)))
  {
    TakenPlaced(s, 256, interval, cb);
    SetIntoDrain(s, 256, interval, cb);
    DrainCollision(s.now - 1, s.now + 255);
  }

  /** While the timing law holds, what is in the slot being drained is due at just that tick. */
  lemma DrainedWhenDue(s: State, n: nat)
    requires Placed(s) && Timing(s, s.now - 1) && n < |s.nodes|
    requires s.place[n] == InSlot(Slot(0, IndexAt(0, s.now - 1)))
    ensures s.due[n] == s.now - 1
  {
    assert NodeTimed(s, n, s.now - 1);
    VisitPending(s.place[n].slot, s.now - 1);
  }

  /** The end of a callback, whatever calls it made, keeps the timing law exactly when the node is not to be re-armed
      with interval 255. */
  lemma ReturnGoodExactly(s: State, n: nat)
    requires Good(s, s.now - 1) && s.running.Running? && s.running.node == n
    ensures n < |s.nodes|
    ensures Good(AfterReturn(s, n), s.now - 1) <==> !(s.nodes[n].isUsing && s.nodes[n].interval == 255)
  {
    if s.nodes[n].isUsing && s.nodes[n].interval == 255 {
      RearmedEarly(s, n);
    } else if s.nodes[n].interval == 255 {
      SameTiming(s, Back(s), s.now - 1);
    } else {
      ReturnGood(s, n);
    }
  }

  lemma RearmedEarly(s: State, n: nat)
    requires Placed(s) && n < |s.nodes| && s.nodes[n].isUsing && s.nodes[n].interval == 255
    ensures !Good(AfterReturn(s, n), s.now - 1)
  {
    var r := AfterReturn(s, n);
    DrainCollision(s.now - 1, s.now + 255);
    if Good(r, s.now - 1) { DrainedWhenDue(r, n); }
  }

  /** A timer set by the last call of a callback is still set as it was when the callback is over, if and only if it
      did not get the node of the timer whose callback it was (or would be re-armed for the same tick). */
  lemma SetInCallbackExactly(s: State, delay: int, interval: int, cb: nat) returns (a: State, r: State)
    requires Good(s, s.now - 1) && s.running.Running?
    ensures Placed(a) && a == AfterSet(s, delay, interval, cb)
    ensures s.running.node < |a.nodes| && Placed(r) && r == AfterReturn(a, s.running.node)
    ensures delay != 256 && interval != 255 && Intervals(s) ==> Good(r, s.now - 1)
    ensures var m, g := TakenNode(s), Abs(r);
      var timer := Timer(TakenId(s), Max(s.now, s.now + delay - 1), interval, Some(cb));
      m in g.armed && g.armed[m] == timer <==> m != s.running.node || (interval > 0 && s.now + interval == timer.due)
  {
    LastReturnGood(s, delay, interval, cb);
    var f, h, g;
    a, r, f, h, g := LastCallSets(s, delay, interval, cb);
    SettleKept(f, TakenId(s), delay, interval, cb, h, g);
  }

  lemma LastCallSets(s: State, delay: int, interval: int, cb: nat)
    returns (a: State, r: State, f: Flat, h: Flat, g: Flat)
    requires Good(s, s.now - 1) && s.running.Running?
    ensures Placed(a) && a == AfterSet(s, delay, interval, cb)
    ensures s.running.node < |a.nodes| && Placed(r) && r == AfterReturn(a, s.running.node) && g == Abs(r)
    ensures f.now == s.now && f.running == s.running && NodeOf(TakenId(s)) == TakenNode(s)
    ensures WellFormed(f) && Issuable(f, TakenId(s)) && h == Arm(f, TakenId(s), delay, interval, cb)
    ensures h.running.Running? && g == Settle(h)
  {
    f := SetArms(s, delay, interval, cb);
    a := AfterSet(s, delay, interval, cb);
    SetCells(s, delay, interval, cb);
    h, g := ReturnSettles(a, s.running.node);
    r := AfterReturn(a, s.running.node);
  }

  /** The flat machine's SettleKeeps, step by step. */
  lemma SettleKept(f: Flat, id: nat, delay: int, interval: int, cb: nat, h: Flat, g: Flat)
    requires WellFormed(f) && f.running.Running? && Issuable(f, id)
    requires h == Arm(f, id, delay, interval, cb) && h.running.Running? && g == Settle(h)
    ensures var timer := Timer(id, Max(f.now, f.now + delay - 1), interval, Some(cb));
      NodeOf(id) in g.armed && g.armed[NodeOf(id)] == timer <==>
      NodeOf(id) != f.running.node || (interval > 0 && f.now + interval == timer.due)
  {
    SettleKeeps(f, id, delay, interval, cb);
  }

  lemma SetArms(s: State, delay: int, interval: int, cb: nat) returns (f: Flat)
    requires Good(s, s.now - 1)
    ensures f == Abs(s) && f.now == s.now && f.running == s.running
    ensures WellFormed(f) && Issuable(f, TakenId(s)) && NodeOf(TakenId(s)) == TakenNode(s)
    ensures Placed(AfterSet(s, delay, interval, cb)) && HandOf(AfterSet(s, delay, interval, cb))
    ensures Abs(AfterSet(s, delay, interval, cb)) == Arm(f, TakenId(s), delay, interval, cb)
  {
    f := Abs(s);
    SetIssuable(s);
    TakenPlaced(s, delay, interval, cb);
    SetHand(s, delay, interval, cb);
    SetAbs(s, delay, interval, cb);
    AbsWellFormed(s, s.now - 1);
  }

  lemma LastReturnGood(s: State, delay: int, interval: int, cb: nat)
    requires Good(s, s.now - 1) && s.running.Running?
    ensures Placed(AfterSet(s, delay, interval, cb)) && s.running.node < |AfterSet(s, delay, interval, cb).nodes|
    ensures delay != 256 && interval != 255 && Intervals(s) ==>
      Good(AfterReturn(AfterSet(s, delay, interval, cb), s.running.node), s.now - 1)
  {
    SetCells(s, delay, interval, cb);
    if delay != 256 && interval != 255 && Intervals(s) {
      var a := SetSafely(s, delay, interval, cb);
      var r := ReturnFacts(a, s.running.node);
    }
  }

  /** The end of a callback, whatever calls it made, takes its node out of the slot being drained for good, unless the
      node is to be re-armed with interval 255: then it puts it there again. */
  lemma ReturnIntoDrain(s: State, n: nat)
    requires Placed(s) && n < |s.nodes|
    ensures DrainList(AfterReturn(s, n)) ==
            Without(DrainList(s), n) + if s.nodes[n].isUsing && s.nodes[n].interval == 255 then [n] else []
  {
    if !s.nodes[n].isUsing {
      FreeFromDrain(s, n);
    } else if s.nodes[n].interval > 0 {
      RearmedIntoDrain(s, n);
    } else {
      RetiredFromDrain(s, n);
    }
  }

  lemma FreeFromDrain(s: State, n: nat)
    requires Placed(s) && n < |s.nodes| && !s.nodes[n].isUsing
    ensures DrainList(AfterReturn(s, n)) == Without(DrainList(s), n)
  {
    NotInSlot(s, n, Slot(0, IndexAt(0, s.now - 1)));
  }

  lemma ReturnShrinks(s: State, n: nat)
    requires Placed(s) && n < |s.nodes| && s.nodes[n].interval != 255
    ensures |DrainList(AfterReturn(s, n))| <= |DrainList(s)|
  {
    ReturnIntoDrain(s, n);
    assert NoDuplicates(DrainList(s));
    WithoutMembers(DrainList(s), n);
  }

  lemma NotInSlot(s: State, n: nat, sl: Slot)
    requires Placed(s) && n < |s.nodes| && !s.nodes[n].isUsing
    ensures Without(At(s.wheel, sl), n) == At(s.wheel, sl)
  {
    assert n !in At(s.wheel, sl);
    WithoutMembers(At(s.wheel, sl), n);
  }

  lemma RearmedIntoDrain(s: State, n: nat)
    requires n < |s.nodes| == |s.place| == |s.due| && s.nodes[n].isUsing && s.nodes[n].interval > 0
    ensures DrainList(AfterReturn(s, n)) == Without(DrainList(s), n) + if s.nodes[n].interval == 255 then [n] else []
  {
    var sl := Slot(0, IndexAt(0, s.now - 1));
    UnlinkAt(Expiring(s, n), n, sl);
    LinkAt(Unlink(Expiring(s, n), n), n, sl);
    DrainCollision(s.now - 1, s.now + s.nodes[n].interval);
  }

  lemma RetiredFromDrain(s: State, n: nat)
    requires n < |s.nodes| == |s.place| == |s.due| && s.nodes[n].isUsing && s.nodes[n].interval <= 0
    ensures DrainList(AfterReturn(s, n)) == Without(DrainList(s), n)
  {
    UnlinkAt(Back(s), n, Slot(0, IndexAt(0, s.now - 1)));
  }

  lemma UnlinkAt(s: State, n: nat, sl: Slot)
    requires n < |s.place|
    ensures At(Unlink(s, n).wheel, sl) == Without(At(s.wheel, sl), n)
  {
  }

  lemma LinkAt(s: State, n: nat, sl: Slot)
    requires n < |s.nodes| == |s.place| == |s.due|
    ensures At(Link(s, n).wheel, sl) == At(s.wheel, sl) + if SlotFor(s.now, s.nodes[n].expire) == sl then [n] else []
  {
  }

  /** One turn of the drain loop with a callback that makes no calls takes a node out of the slot for good,
      unless the timer's interval is 255: then the slot is as long as before, and the loop does not end. */
  lemma RearmIntoDrain(s: State)
    requires Good(s, s.now - 1) && s.running.Idle? && DrainList(s) != []
    ensures var n, sl := DrainList(s)[0], Slot(0, IndexAt(0, s.now - 1));
      && n < |s.nodes| && |AfterFire(s, sl).place| == |AfterFire(s, sl).nodes| == |AfterFire(s, sl).due|
      && var r := AfterReturn(AfterFire(s, sl), n);
         DrainList(r) == DrainList(s)[1..] + if s.nodes[n].interval == 255 then [n] else []
  {
    var n, sl := DrainList(s)[0], Slot(0, IndexAt(0, s.now - 1));
    PopPlaced(s, sl);
    assert n in DrainList(s);
    var t := AfterFire(s, sl);
    UnlinkIdle(t, n);
    DrainCollision(s.now - 1, s.now + s.nodes[n].interval);
    WithoutMembers(At(t.wheel, sl), n);
    PoppedMembers(DrainList(s));
  }
}
