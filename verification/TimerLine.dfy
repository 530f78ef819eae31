/** The lists of the wheel keep the line of TimerOrder: of two waiting timers for one tick that were set in turn, the
    one further back in the line is behind the other one in the list of one and the same slot. */
module TimerLine {
  import opened Options
  import opened Sequences
  import opened TimerFlat
  import opened TimerOrder
  import opened TimerState
  import opened TimerWheel

  /** A timer in the line is in a slot, in the one that its due tick selects as long as the time has not moved on, and
      for good if that is one of the lowest level. */
  ghost predicate Standing(s: State, x: Turn)
    requires Placed(s)
  {
    && x.node < |s.place| && s.place[x.node].InSlot? && x.at <= s.now
    && (x.at == s.now ==> s.place[x.node] == InSlot(SlotFor(s.now, s.due[x.node])))
    && (s.due[x.node] - x.at < 256 ==> s.place[x.node] == InSlot(Slot(0, IndexAt(0, s.due[x.node]))))
  }

  /** In one slot, for the same tick, in this order. */
  ghost predicate Together(s: State, a: nat, b: nat)
    requires Placed(s)
  {
    && a < |s.place| && b < |s.place| && s.place[a].InSlot? && s.place[a] == s.place[b] && s.due[a] == s.due[b]
    && Before(At(s.wheel, s.place[a].slot), a, b)
  }

  ghost predicate Behind(s: State, x: Turn, y: Turn)
    requires Placed(s)
  {
    && x.node < |s.place| && y.node < |s.place| && x.node != y.node
    && (s.due[x.node] == s.due[y.node] && InTurn(x.at, y.at, s.due[x.node]) ==> Together(s, x.node, y.node))
  }

  ghost predicate Lined(s: State, line: seq<Turn>)
    requires Placed(s)
  {
    && (forall x :: x in line ==> Standing(s, x))
    && (forall x, y :: Before(line, x, y) ==> Behind(s, x, y))
  }

  /** Timers that are past, or at once, are for the tick under way. */
  lemma SlotForDue(now: int, expire: int)
    ensures SlotFor(now, Max(now, expire)) == SlotFor(now, expire)
  {
  }

  /** What is due in less than 256 ticks goes to the lowest level. */
  lemma NearSlot(now: int, due: int)
    requires now <= due < now + 256
    ensures SlotFor(now, due) == Slot(0, IndexAt(0, due))
  {
  }

  lemma {:induction false} LeaveAbsent(line: seq<Turn>, n: nat)
    requires forall x :: x in line ==> x.node != n
    ensures Leave(line, n) == line
  {
    if line != [] {
      assert line[0] in line && forall x :: x in line[1..] ==> x in line;
      LeaveAbsent(line[1..], n);
    }
  }

  lemma {:induction false} LeaveBefore(line: seq<Turn>, n: nat, x: Turn, y: Turn)
    requires Before(Leave(line, n), x, y)
    ensures Before(line, x, y) && x.node != n && y.node != n
  {
    var left, rest := Leave(line, n), Leave(line[1..], n);
    LeaveMembers(line, n);
    assert x in left && y in left;
    BeforeTail(line, x, y);
    if line[0].node == n {
      LeaveBefore(line[1..], n, x, y);
    } else {
      assert left[1..] == rest;
      BeforeTail(left, x, y);
      LeaveMembers(line[1..], n);
      if Before(rest, x, y) { LeaveBefore(line[1..], n, x, y); }
    }
  }

  // ----- leaving and joining -----

  /** The other nodes are where they were and for the tick they were. */
  ghost predicate OthersStay(s: State, t: State, n: nat)
    requires Placed(s) && Placed(t)
  {
    && t.now == s.now && |s.place| <= |t.place|
    && forall k :: 0 <= k < |s.place| && k != n ==> t.place[k] == s.place[k] && t.due[k] == s.due[k]
  }

  /** Node n leaves the list that holds it, if any. */
  ghost predicate Leaves(s: State, t: State, n: nat)
    requires Placed(s) && Placed(t)
  {
    OthersStay(s, t, n) && forall sl :: At(t.wheel, sl) == Without(At(s.wheel, sl), n)
  }

  /** Node n goes to the end of the slot that its due tick selects. */
  ghost predicate Joins(s: State, t: State, n: nat)
    requires Placed(s) && Placed(t)
  {
    && OthersStay(s, t, n) && n < |t.place| && t.now <= t.due[n] && t.place[n] == InSlot(SlotFor(t.now, t.due[n]))
    && (n < |s.place| ==> !s.place[n].InSlot?)
    && forall sl :: At(t.wheel, sl) == At(s.wheel, sl) + if t.place[n] == InSlot(sl) then [n] else []
  }

  lemma LeaveLined(s: State, t: State, n: nat, line: seq<Turn>)
    requires Placed(s) && Placed(t) && Leaves(s, t, n) && Lined(s, line)
    ensures Lined(t, Leave(line, n))
  {
    LeaveMembers(line, n);
    forall x | x in Leave(line, n) ensures Standing(t, x) {
      assert Standing(s, x);
    }
    forall x, y | Before(Leave(line, n), x, y) ensures Behind(t, x, y) {
      LeaveBefore(line, n, x, y);
      assert Behind(s, x, y);
      if Together(s, x.node, y.node) {
        BeforeWithout(At(s.wheel, s.place[x.node].slot), n, x.node, y.node);
      }
    }
  }

  lemma JoinLined(s: State, t: State, n: nat, line: seq<Turn>)
    requires Placed(s) && Placed(t) && Joins(s, t, n) && Lined(s, line)
    ensures Lined(t, line + [Turn(n, t.now)])
    ensures Leave(line, n) == line
  {
    var z, all := Turn(n, t.now), line + [Turn(n, t.now)];
    forall x | x in line ensures x.node != n && Standing(t, x) {
      assert Standing(s, x);
    }
    LeaveAbsent(line, n);
    if t.due[n] < t.now + 256 { NearSlot(t.now, t.due[n]); }
    forall x, y | Before(all, x, y) ensures Behind(t, x, y) {
      BeforeAppended(line, z, x, y);
      if Before(line, x, y) {
        JoinBehind(s, t, n, x, y);
      } else {
        assert Standing(s, x);
        JoinLast(s, t, n, x);
      }
    }
  }

  lemma JoinBehind(s: State, t: State, n: nat, x: Turn, y: Turn)
    requires Placed(s) && Placed(t) && Joins(s, t, n) && Behind(s, x, y) && x.node != n && y.node != n
    ensures Behind(t, x, y)
  {
    if Together(s, x.node, y.node) {
      var sl := s.place[x.node].slot;
      BeforeAppend(At(s.wheel, sl), if t.place[n] == InSlot(sl) then [n] else [], x.node, y.node);
    }
  }

  lemma JoinLast(s: State, t: State, n: nat, x: Turn)
    requires Placed(s) && Placed(t) && Joins(s, t, n) && Standing(s, x) && x.node != n
    ensures Behind(t, x, Turn(n, t.now))
  {
    var sl := s.place[x.node].slot;
    assert x.node in At(s.wheel, sl);
    BeforeLast(At(s.wheel, sl), x.node, n);
    if t.due[n] < t.now + 256 { NearSlot(t.now, t.due[n]); }
  }

  // ----- the steps of the manager -----

  /** Whatever the line: the event fits it, and the state after the event keeps the line after it. */
  ghost predicate LineKept(s: State, e: Event, t: State)
    requires Placed(s) && Placed(t)
  {
    forall line :: Lined(s, line) ==>
      (e.Fired? ==> MayStart(Abs(s), line, NodeOf(e.id))) && Lined(t, NextLine(Abs(s), line, e, Abs(t)))
  }

  lemma SetJoins(s: State, delay: int, interval: int, cb: nat)
    requires Placed(s)
    ensures var t, n := AfterSet(s, delay, interval, cb), TakenNode(s);
      Placed(t) && Joins(s, t, n) && NodeOf(TakenId(s)) == n
  {
    TakenPlaced(s, delay, interval, cb);
    SetCells(s, delay, interval, cb);
    SlotForDue(s.now, s.now + delay - 1);
  }

  /** `SetTimer` */
  lemma SetLined(s: State, delay: int, interval: int, cb: nat)
    requires Placed(s)
    ensures Placed(AfterSet(s, delay, interval, cb))
    ensures LineKept(s, Armed(TakenId(s), delay, interval, cb), AfterSet(s, delay, interval, cb))
  {
    var t, n := AfterSet(s, delay, interval, cb), TakenNode(s);
    SetJoins(s, delay, interval, cb);
    forall line | Lined(s, line)
      ensures Lined(t, NextLine(Abs(s), line, Armed(TakenId(s), delay, interval, cb), Abs(t)))
    {
      JoinLined(s, t, n, line);
    }
  }

  lemma ReleaseLeaves(s: State, n: nat)
    requires Placed(s) && n < |s.nodes| && s.nodes[n].isUsing
    ensures Placed(AfterRelease(s, n)) && Leaves(s, AfterRelease(s, n), n) && !AfterRelease(s, n).place[n].InSlot?
  {
    ReleasePlaced(s, n);
  }

  /** A node that is in no slot is not in the line either. */
  lemma NotInLine(s: State, n: nat, line: seq<Turn>)
    requires Placed(s) && Lined(s, line) && (n < |s.place| ==> !s.place[n].InSlot?)
    ensures Leave(line, n) == line
  {
    forall x | x in line ensures x.node != n {
      assert Standing(s, x);
    }
    LeaveAbsent(line, n);
  }

  /** `DelTimer` */
  lemma ReleaseLined(s: State, id: nat)
    requires Placed(s) && Find(s.nodes, id).Some?
    ensures Placed(AfterRelease(s, NodeOf(id))) && LineKept(s, Deleted(id), AfterRelease(s, NodeOf(id)))
  {
    var n := NodeOf(id);
    var t := AfterRelease(s, n);
    ReleaseLeaves(s, n);
    forall line | Lined(s, line) ensures Lined(t, NextLine(Abs(s), line, Deleted(id), Abs(t))) {
      LeaveLined(s, t, n, line);
      if !Holds(Abs(s), id) { NotInLine(s, n, line); }
    }
  }

  lemma {:induction false} WithoutFirst(list: seq<nat>)
    requires NoDuplicates(list) && list != []
    ensures Without(list, list[0]) == list[1..]
  {
    PoppedMembers(list);
    WithoutMembers(list[1..], list[0]);
  }

  lemma PopLeaves(s: State, sl: Slot)
    requires Placed(s) && At(s.wheel, sl) != []
    ensures At(s.wheel, sl)[0] < |s.nodes| && Placed(Pop(s, sl)) && Leaves(s, Pop(s, sl), At(s.wheel, sl)[0])
  {
    PopPlaced(s, sl);
    var n, t := At(s.wheel, sl)[0], Pop(s, sl);
    assert n in At(s.wheel, sl);
    forall sl' ensures At(t.wheel, sl') == Without(At(s.wheel, sl'), n) {
      assert NoDuplicates(At(s.wheel, sl'));
      if sl' == sl {
        WithoutFirst(At(s.wheel, sl));
      } else {
        WithoutMembers(At(s.wheel, sl'), n);
      }
    }
  }

  /** The first of a slot has to wait for nobody in front of it in the line. */
  lemma FirstMayStart(s: State, sl: Slot, line: seq<Turn>)
    requires Placed(s) && Lined(s, line) && At(s.wheel, sl) != []
    ensures MayStart(Abs(s), line, At(s.wheel, sl)[0])
  {
    var list := At(s.wheel, sl);
    forall i: nat, j: nat | InFront(Abs(s), line, i, j) ensures line[j].node != list[0] {
      assert Behind(s, line[i], line[j]);
      if line[j].node == list[0] {
        assert list[0] in list;
        FirstIsFirst(list, line[i].node);
      }
    }
  }

  lemma FirstIsFirst(list: seq<nat>, a: nat)
    requires NoDuplicates(list) && list != []
    ensures !Before(list, a, list[0])
  {
    forall j: nat | 0 < j < |list| ensures list[j] != list[0] {
      assert Apart(list, 0, j);
    }
  }

  lemma FireLeaves(s: State, sl: Slot) returns (n: nat, t: State)
    requires Placed(s) && At(s.wheel, sl) != []
    ensures n == At(s.wheel, sl)[0] && n < |s.nodes| && t == AfterFire(s, sl)
    ensures Placed(t) && Leaves(s, t, n) && !t.place[n].InSlot?
    ensures NodeOf(s.nodes[n].id) == n
  {
    PopLeaves(s, sl);
    n, t := At(s.wheel, sl)[0], AfterFire(s, sl);
    var p := Pop(s, sl);
    assert t.wheel == p.wheel && t.place == p.place && t.free == p.free && t.nodes == p.nodes && t.due == p.due;
  }

  lemma LeftLine(s: State, t: State, n: nat, line: seq<Turn>, e: Event)
    requires Placed(s) && Placed(t) && Leaves(s, t, n) && Lined(s, line)
    requires Touched(Abs(s), e) == Some(n) && n < |t.place| && !t.place[n].InSlot?
    ensures Lined(t, NextLine(Abs(s), line, e, Abs(t)))
  {
    LeaveLined(s, t, n, line);
  }

  /** A callback starts. */
  lemma FireLined(s: State, sl: Slot)
    requires Placed(s) && At(s.wheel, sl) != []
    ensures var n := At(s.wheel, sl)[0];
      && n < |s.nodes| && Placed(AfterFire(s, sl))
      && LineKept(s, Fired(s.nodes[n].id, s.nodes[n].cb), AfterFire(s, sl))
  {
    var n, t := FireLeaves(s, sl);
    forall line | Lined(s, line)
      ensures MayStart(Abs(s), line, n)
      ensures Lined(t, NextLine(Abs(s), line, Fired(s.nodes[n].id, s.nodes[n].cb), Abs(t)))
    {
      FirstMayStart(s, sl, line);
      LeftLine(s, t, n, line, Fired(s.nodes[n].id, s.nodes[n].cb));
    }
  }

  lemma LinkJoins(s: State, n: nat)
    requires Placed(s) && n < |s.nodes| && s.place[n] == InHand
    ensures Placed(Link(s, n)) && Joins(s, Link(s, n), n)
  {
    LinkPlaced(s, n);
    SlotForDue(s.now, s.nodes[n].expire);
  }

  /** A callback is over and its timer is set again. */
  lemma RearmLined(s: State, n: nat, line: seq<Turn>)
    requires Placed(s) && n < |s.nodes| && s.nodes[n].isUsing && s.nodes[n].interval > 0 && Lined(s, line)
    ensures Placed(AfterReturn(s, n)) && AfterReturn(s, n).place[n].InSlot? && AfterReturn(s, n).now == s.now
    ensures Lined(AfterReturn(s, n), Leave(line, n) + [Turn(n, s.now)])
  {
    RearmPlaced(s, n);
    var u := Unlink(Expiring(s, n), n);
    assert Leaves(s, u, n);
    LeaveLined(s, u, n, line);
    LinkJoins(u, n);
    JoinLined(u, Link(u, n), n, Leave(line, n));
  }

  lemma RetireLined(s: State, n: nat, line: seq<Turn>)
    requires Placed(s) && n < |s.nodes| && s.nodes[n].isUsing && s.nodes[n].interval <= 0 && Lined(s, line)
    ensures Placed(AfterReturn(s, n)) && !AfterReturn(s, n).place[n].InSlot?
    ensures Lined(AfterReturn(s, n), Leave(line, n))
  {
    RetiredPlaced(s, n);
    assert Leaves(s, AfterReturn(s, n), n);
    LeaveLined(s, AfterReturn(s, n), n, line);
  }

  lemma BackLined(s: State, n: nat, line: seq<Turn>)
    requires Placed(s) && n < |s.nodes| && !s.nodes[n].isUsing && Lined(s, line)
    ensures Placed(AfterReturn(s, n)) && !AfterReturn(s, n).place[n].InSlot?
    ensures Lined(AfterReturn(s, n), Leave(line, n))
  {
    NotInLine(s, n, line);
    assert Placed(Back(s));
    forall x, y | Before(line, x, y) ensures Behind(Back(s), x, y) {
      assert Behind(s, x, y);
    }
    forall x | x in line ensures Standing(Back(s), x) {
      assert Standing(s, x);
    }
  }

  /** A callback is over. */
  lemma ReturnLined(s: State, n: nat)
    requires Placed(s) && HandOf(s) && s.running.Running? && s.running.node == n
    ensures n < |s.nodes| && Placed(AfterReturn(s, n)) && LineKept(s, Returned, AfterReturn(s, n))
  {
    ReturnRefines(s, n);
    var t := AfterReturn(s, n);
    forall line | Lined(s, line) ensures Lined(t, NextLine(Abs(s), line, Returned, Abs(t))) {
      if s.nodes[n].isUsing && s.nodes[n].interval > 0 {
        RearmLined(s, n, line);
      } else if s.nodes[n].isUsing {
        RetireLined(s, n, line);
      } else {
        BackLined(s, n, line);
      }
    }
  }

  /** The time moves on. */
  lemma AdvanceLined(s: State)
    requires Placed(s)
    ensures Placed(s.(now := s.now + 1)) && LineKept(s, Advance, s.(now := s.now + 1))
  {
    var t := s.(now := s.now + 1);
    forall line | Lined(s, line) ensures Lined(t, line) {
      forall x | x in line ensures Standing(t, x) {
        assert Standing(s, x);
      }
      forall x, y | Before(line, x, y) ensures Behind(t, x, y) {
        assert Behind(s, x, y);
      }
    }
  }

  // ----- cascading -----

  /** The nodes of a list that go to slot `to`, in their order. */
  function Chosen(now: int, nodes: seq<TimerNode>, list: seq<nat>, to: Slot): seq<nat> {
    if list == [] then []
    else
      (if list[0] < |nodes| && SlotFor(now, nodes[list[0]].expire) == to then [list[0]] else []) +
      Chosen(now, nodes, list[1..], to)
  }

  lemma {:induction false} ChosenAppend(now: int, nodes: seq<TimerNode>, list: seq<nat>, n: nat, to: Slot)
    requires n < |nodes|
    ensures Chosen(now, nodes, list + [n], to) ==
            Chosen(now, nodes, list, to) + if SlotFor(now, nodes[n].expire) == to then [n] else []
  {
    if list == [] {
      assert [n][1..] == [];
      assert list + [n] == [n];
    } else {
      assert (list + [n])[1..] == list[1..] + [n];
      ChosenAppend(now, nodes, list[1..], n, to);
    }
  }

  lemma {:induction false} ChosenMembers(now: int, nodes: seq<TimerNode>, list: seq<nat>, to: Slot)
    ensures forall n :: n in Chosen(now, nodes, list, to) <==>
      n in list && n < |nodes| && SlotFor(now, nodes[n].expire) == to
  {
    if list != [] {
      ChosenMembers(now, nodes, list[1..], to);
      assert list == [list[0]] + list[1..];
    }
  }

  lemma {:induction false} ChosenOrder(now: int, nodes: seq<TimerNode>, list: seq<nat>, to: Slot, a: nat, b: nat)
    requires Before(list, a, b) && a < |nodes| && b < |nodes|
    requires SlotFor(now, nodes[a].expire) == to == SlotFor(now, nodes[b].expire)
    ensures Before(Chosen(now, nodes, list, to), a, b)
  {
    var rest := Chosen(now, nodes, list[1..], to);
    BeforeTail(list, a, b);
    ChosenMembers(now, nodes, list[1..], to);
    if Before(list[1..], a, b) { ChosenOrder(now, nodes, list[1..], to, a, b); }
    if list[0] < |nodes| && SlotFor(now, nodes[list[0]].expire) == to {
      assert ([list[0]] + rest)[1..] == rest;
      BeforeTail([list[0]] + rest, a, b);
    } else {
      assert Chosen(now, nodes, list, to) == rest;
    }
  }

  /** Slot `sl` has been emptied, and every other slot has got the nodes that choose it, at the end and in their
      order. */
  ghost predicate Emptied(s: State, t: State, sl: Slot) {
    && At(t.wheel, sl) == []
    && forall to :: to != sl ==>
         At(t.wheel, to) == At(s.wheel, to) + Chosen(s.now, s.nodes, At(s.wheel, sl), to)
  }

  /** Only the lists have changed; two timers in one slot for the same tick are so again, in the same order. */
  ghost predicate OrderKept(s: State, t: State)
    requires Placed(s) && Placed(t)
  {
    && t.now == s.now && t.nodes == s.nodes && t.due == s.due
    && (forall n :: 0 <= n < |s.place| && s.place[n].InSlot? ==>
          t.place[n] == s.place[n] ||
          (1 <= s.place[n].slot.level && t.place[n] == InSlot(SlotFor(s.now, s.due[n]))))
    && (forall a: nat, b: nat :: Together(s, a, b) ==> Together(t, a, b))
  }

  lemma OrderKeptOn(s: State, t: State, u: State)
    requires Placed(s) && Placed(t) && Placed(u) && OrderKept(s, t) && OrderKept(t, u)
    ensures OrderKept(s, u)
  {
  }

  /** Cascades keep the line. */
  lemma OrderLined(s: State, t: State, line: seq<Turn>)
    requires Placed(s) && Placed(t) && OrderKept(s, t) && Lined(s, line)
    ensures Lined(t, line)
  {
    forall x | x in line ensures Standing(t, x) {
      assert Standing(s, x);
    }
    forall x, y | Before(line, x, y) ensures Behind(t, x, y) {
      assert Behind(s, x, y);
    }
  }

  /** One turn of the cascade loop: the first node of the slot goes to the end of another one. */
  ghost predicate FirstMoved(s: State, t: State, sl: Slot)
    requires At(s.wheel, sl) != []
  {
    var n := At(s.wheel, sl)[0];
    && n < |s.nodes| && SlotFor(s.now, s.nodes[n].expire) != sl && At(t.wheel, sl) == At(s.wheel, sl)[1..]
    && forall to :: to != sl ==>
         At(t.wheel, to) == At(s.wheel, to) + if SlotFor(s.now, s.nodes[n].expire) == to then [n] else []
  }

  lemma RecascadeMoves(s: State, sl: Slot)
    requires Good(s, s.now) && At(s.wheel, sl) != [] && 1 <= sl.level && Visits(sl, s.now)
    ensures FirstMoved(s, Recascade(s, sl), sl) && Recascade(s, sl).due == s.due
  {
    PopPlaced(s, sl);
    CascadeDue(s, sl);
    var n, p := At(s.wheel, sl)[0], Pop(s, sl);
    forall to | to != sl
      ensures At(Recascade(s, sl).wheel, to) ==
              At(s.wheel, to) + if SlotFor(s.now, s.nodes[n].expire) == to then [n] else [] {
      LinkAt(p, n, to);
      assert At(p.wheel, to) == At(s.wheel, to);
    }
    LinkAt(p, n, sl);
    assert s.due[n := Max(s.now, s.nodes[n].expire)] == s.due;
  }

  /** The first k nodes of the slot have gone. */
  ghost predicate Emptying(s: State, t: State, sl: Slot, k: nat) {
    && k <= |At(s.wheel, sl)| && At(t.wheel, sl) == At(s.wheel, sl)[k..]
    && forall to :: to != sl ==>
         At(t.wheel, to) == At(s.wheel, to) + Chosen(s.now, s.nodes, At(s.wheel, sl)[..k], to)
  }

  lemma EmptyingStep(s: State, t: State, u: State, sl: Slot, k: nat)
    requires Emptying(s, t, sl, k) && t.now == s.now && t.nodes == s.nodes
    requires At(t.wheel, sl) != [] && FirstMoved(t, u, sl)
    ensures Emptying(s, u, sl, k + 1)
  {
    var list, n := At(s.wheel, sl), At(t.wheel, sl)[0];
    assert list[..k + 1] == list[..k] + [n];
    forall to | to != sl
      ensures At(u.wheel, to) == At(s.wheel, to) + Chosen(s.now, s.nodes, list[..k + 1], to) {
      ChosenAppend(s.now, s.nodes, list[..k], n, to);
    }
  }

  lemma EmptyingDone(s: State, t: State, sl: Slot, k: nat)
    requires Emptying(s, t, sl, k) && At(t.wheel, sl) == []
    ensures Emptied(s, t, sl)
  {
    assert At(s.wheel, sl)[..k] == At(s.wheel, sl);
  }

  /** A node of the slot that is emptied goes where its due tick leads. */
  lemma MemberMoves(s: State, t: State, sl: Slot, n: nat)
    requires Good(s, s.now) && Placed(t) && t.nodes == s.nodes && Emptied(s, t, sl) && 1 <= sl.level
    requires n < |s.nodes| && s.place[n] == InSlot(sl)
    ensures s.due[n] == s.nodes[n].expire
    ensures SlotFor(s.now, s.due[n]) != sl ==> t.place[n] == InSlot(SlotFor(s.now, s.due[n]))
  {
    var to := SlotFor(s.now, s.nodes[n].expire);
    assert NodeTimed(s, n, s.now);
    assert n in At(s.wheel, s.place[n].slot);
    if to != sl {
      ChosenMembers(s.now, s.nodes, At(s.wheel, sl), to);
      assert n in At(t.wheel, to);
    }
  }

  lemma MemberStays(s: State, t: State, sl: Slot, n: nat)
    requires Placed(s) && Placed(t) && t.nodes == s.nodes && Emptied(s, t, sl)
    requires n < |s.nodes| && s.place[n].InSlot? && s.place[n].slot != sl
    ensures t.place[n] == s.place[n]
  {
    var to := s.place[n].slot;
    assert n in At(s.wheel, to);
    assert n in At(t.wheel, to);
  }

  /** No node of the slot chooses the slot itself again. */
  ghost predicate Scatters(s: State, sl: Slot)
    requires |s.place| == |s.nodes| == |s.due|
  {
    forall n :: 0 <= n < |s.place| && s.place[n] == InSlot(sl) ==> SlotFor(s.now, s.due[n]) != sl
  }

  /** Emptying a slot keeps the order of timers for the same tick. */
  lemma EmptiedOrder(s: State, t: State, sl: Slot)
    requires Good(s, s.now) && Placed(t) && Emptied(s, t, sl) && 1 <= sl.level && Scatters(s, sl)
    requires t.now == s.now && t.nodes == s.nodes && t.due == s.due
    ensures OrderKept(s, t)
  {
    forall n | 0 <= n < |s.place| && s.place[n].InSlot?
      ensures t.place[n] == s.place[n] ||
              (1 <= s.place[n].slot.level && t.place[n] == InSlot(SlotFor(s.now, s.due[n]))) {
      if s.place[n].slot == sl { MemberMoves(s, t, sl, n); } else { MemberStays(s, t, sl, n); }
    }
    forall a: nat, b: nat | Together(s, a, b) ensures Together(t, a, b) {
      if s.place[a].slot == sl {
        MemberMoves(s, t, sl, a);
        MemberMoves(s, t, sl, b);
        PairMoves(s, t, sl, a, b, SlotFor(s.now, s.due[a]));
      } else {
        MemberStays(s, t, sl, a);
        MemberStays(s, t, sl, b);
        BeforeAppend(At(s.wheel, s.place[a].slot),
                     Chosen(s.now, s.nodes, At(s.wheel, sl), s.place[a].slot), a, b);
      }
    }
  }

  lemma PairMoves(s: State, t: State, sl: Slot, a: nat, b: nat, to: Slot)
    requires Emptied(s, t, sl) && Before(At(s.wheel, sl), a, b) && a < |s.nodes| && b < |s.nodes| && to != sl
    requires SlotFor(s.now, s.nodes[a].expire) == to == SlotFor(s.now, s.nodes[b].expire)
    ensures Before(At(t.wheel, to), a, b)
  {
    ChosenOrder(s.now, s.nodes, At(s.wheel, sl), to, a, b);
    BeforePrepend(At(s.wheel, to), Chosen(s.now, s.nodes, At(s.wheel, sl), to), a, b);
  }

  lemma SlotScatters(s: State, sl: Slot)
    requires Good(s, s.now) && 1 <= sl.level && Visits(sl, s.now)
    ensures Scatters(s, sl)
  {
    forall n | 0 <= n < |s.place| && s.place[n] == InSlot(sl) ensures SlotFor(s.now, s.due[n]) != sl {
      assert NodeTimed(s, n, s.now);
      LinkTimed(s.now, s.nodes[n].expire, s.now);
      VisitPending(sl, s.now);
    }
  }

  // ----- a whole history -----

  /** A trace from the beginning on is one of the flat machine with its line, and the lists keep the line. */
  ghost predicate InLine(birth: Flat, trace: seq<Event>, s: State)
    requires Placed(s)
  {
    var q := Moves(Lineup(birth, []), trace);
    q.Some? && q.value.flat == Abs(s) && Lined(s, q.value.line)
  }

  lemma InLineStep(birth: Flat, trace: seq<Event>, s: State, e: Event, t: State)
    requires Placed(s) && Placed(t) && InLine(birth, trace, s)
    requires Apply(Abs(s), e) == Some(Abs(t)) && LineKept(s, e, t)
    ensures InLine(birth, trace + [e], t)
  {
    var q := Moves(Lineup(birth, []), trace).value;
    var r := Lineup(Abs(t), NextLine(Abs(s), q.line, e, Abs(t)));
    MovesExtended(Lineup(birth, []), trace, q, e, r);
  }

  lemma InLineKept(birth: Flat, trace: seq<Event>, s: State, t: State)
    requires Placed(s) && Placed(t) && InLine(birth, trace, s) && OrderKept(s, t) && Abs(t) == Abs(s)
    ensures InLine(birth, trace, t)
  {
    OrderLined(s, t, Moves(Lineup(birth, []), trace).value.line);
  }

  lemma InLineOrder(birth: Flat, trace: seq<Event>, s: State)
    requires Placed(s) && WellFormed(birth) && InLine(birth, trace, s)
    ensures SettingOrder(birth, trace)
  {
    RunsInOrder(Lineup(birth, []), trace);
  }

  // ----- timers that are not set in turn -----

  lemma SetWheel(s: State, delay: int, interval: int, cb: nat)
    requires Placed(s)
    ensures var a, n, sl := AfterSet(s, delay, interval, cb), TakenNode(s), SlotFor(s.now, s.now + delay - 1);
      && a.wheel == s.wheel[sl := At(s.wheel, sl) + [n]] && n < |a.due| && a.due[n] == Max(s.now, s.now + delay - 1)
      && n < |a.nodes| && a.nodes[n].expire == s.now + delay - 1 && (s.free == [] ==> a.free == [])
  {
    TakenPlaced(s, delay, interval, cb);
  }

  lemma FarAndNear()
    ensures SlotFor(1, 300) == Slot(1, 1) && SlotFor(100, 300) == Slot(0, 44) && SlotFor(256, 300) == Slot(0, 44)
  {
    assert LevelFor(299, 0) == LevelFor(299, 1) == 1;
    assert LevelFor(200, 0) == 0 && LevelFor(44, 0) == 0;
  }

  lemma NobodyPlaced()
    ensures Placed(State(1, [], [], map[], [], [], Idle))
  {
  }

  /** A timer set 299 ticks ahead goes to a higher level; one set later for the same tick, 200 ticks ahead, goes to the
      slot of that tick at once, and is in front of the first one there when the cascade has brought it. */
  lemma LaterAhead() returns (s: State, a: State, b: State)
    ensures s == State(1, [], [], map[], [], [], Idle) && Placed(s)
    ensures a == AfterSet(s, 300, 0, 7) && Placed(a.(now := 100))
    ensures b == AfterSet(a.(now := 100), 201, 0, 8) && Placed(b.(now := 256)) && b.due == [300, 300]
    ensures At(b.wheel, Slot(1, 1)) == [0]
    ensures At(Recascade(b.(now := 256), Slot(1, 1)).wheel, Slot(0, 44)) == [1, 0]
  {
    s := State(1, [], [], map[], [], [], Idle);
    FarAndNear();
    NobodyPlaced();
    a := FirstSet(s);
    b := AfterSet(a.(now := 100), 201, 0, 8);
    SetWheel(a.(now := 100), 201, 0, 8);
    SetCells(a.(now := 100), 201, 0, 8);
    var u := b.(now := 256);
    assert Placed(u);
    PopPlaced(u, Slot(1, 1));
    LinkAt(Pop(u, Slot(1, 1)), 0, Slot(0, 44));
  }

  lemma FirstSet(s: State) returns (a: State)
    requires s == State(1, [], [], map[], [], [], Idle) && Placed(s) && SlotFor(1, 300) == Slot(1, 1)
    ensures a == AfterSet(s, 300, 0, 7) && Placed(a.(now := 100))
    ensures a.wheel == map[Slot(1, 1) := [0]] && a.due == [300] && a.free == []
    ensures |a.nodes| == 1 && a.nodes[0].expire == 300
  {
    a := AfterSet(s, 300, 0, 7);
    SetWheel(s, 300, 0, 7);
    SetCells(s, 300, 0, 7);
    assert At(s.wheel, Slot(1, 1)) + [0] == [0];
  }
}
