/** The arithmetic of the five-level timer wheel: which slot a timer is put into, when that slot is next
    visited (drained on level 0, cascaded on the others), and why that is never too late. Times are
    unbounded integers, `>>` is division rounding down and `& mask` the non-negative remainder. */
module TimerWheel {
  import opened Arithmetic

  const LEVELS: nat := 5

  /** 1 << TIMER_WHEEL_OFFSET[level]: the number of ticks one slot of a level spans. */
  function Width(level: nat): (w: nat)
    ensures w > 0
  {
    if level == 0 then 1
    else if level == 1 then 0x100
    else if level == 2 then 0x4000
    else if level == 3 then 0x10_0000
    else 0x400_0000
  }

  /** TIMER_WHEEL_SIZE[level] */
  function Size(level: nat): nat {
    if level == 0 then 256 else 64
  }

  datatype Slot = Slot(level: nat, index: nat)

  predicate ValidSlot(s: Slot) {
    s.level < LEVELS && s.index < Size(s.level)
  }

  /** The index part of `(time >> offset) & mask`. */
  function IndexAt(level: nat, time: int): (i: nat)
    ensures i < Size(level)
  {
    (time / Width(level)) % Size(level)
  }

  /** The lowest level whose reach covers the delay; LEVELS when none does. */
  function LevelFor(delay: int, level: nat): nat
    requires level <= LEVELS
    decreases LEVELS - level
  {
    if level == LEVELS || delay / Width(level) < Size(level) then level else LevelFor(delay, level + 1)
  }

  /** The slot that `InsertTimerNodeToWheel` chooses at `now` for the expiry time `expire`. */
  function SlotFor(now: int, expire: int): (s: Slot)
    ensures ValidSlot(s)
  {
    var delay := expire - now;
    if delay <= 0 then Slot(0, IndexAt(0, now))
    else
      var level := LevelFor(delay, 0);
      if level < LEVELS then Slot(level, IndexAt(level, expire))
      else Slot(LEVELS - 1, (now / Width(LEVELS - 1) + 63) % 64)
  }

  /** Whether tick `t` drains (level 0) or cascades the slot. */
  predicate Visits(s: Slot, t: int) {
    t % Width(s.level) == 0 && IndexAt(s.level, t) == s.index
  }

  /** The first tick from `now` on that visits the slot. */
  function NextVisit(s: Slot, now: int): int
    requires ValidSlot(s)
  {
    var w := Width(s.level);
    var block := (now + w - 1) / w;
    (block + (s.index - block) % Size(s.level)) * w
  }

  lemma Ordered(a: int, b: int, w: nat)
    requires w > 0 && a * w < b * w
    ensures a < b
  {
    if b <= a {
      MulMonotone(b, a, w);
    }
  }

  lemma MultipleDiv(q: int, w: nat)
    requires w > 0
    ensures (q * w) / w == q && (q * w) % w == 0
  {
    var x := q * w;
    assert x == (x / w) * w + x % w;
    Ordered(x / w, q + 1, w);
    Ordered(q, x / w + 1, w);
  }

  /** Rounding up to a multiple of `w`. */
  lemma CeilBounds(now: int, w: nat)
    requires w > 0
    ensures var b := (now + w - 1) / w; (b - 1) * w < now <= b * w
  {
    var x := now + w - 1;
    assert x == (x / w) * w + x % w;
  }

  /** The block that `NextVisit` picks is congruent to the slot's index, and no earlier one is. */
  lemma NextBlock(s: Slot, b: int, k: int)
    requires ValidSlot(s)
    ensures var d := (s.index - b) % Size(s.level);
      && 0 <= d < Size(s.level) && (b + d) % Size(s.level) == s.index
      && (b <= k < b + d ==> k % Size(s.level) != s.index)
      && (b <= k < b + Size(s.level) && k % Size(s.level) == s.index ==> k == b + d)
  {
  }

  /** `NextVisit` is what it says. */
  lemma NextVisitFirst(s: Slot, now: int)
    requires ValidSlot(s)
    ensures now <= NextVisit(s, now) && Visits(s, NextVisit(s, now))
    ensures forall t :: now <= t < NextVisit(s, now) ==> !Visits(s, t)
  {
    var w := Width(s.level);
    var b := (now + w - 1) / w;
    var d := (s.index - b) % Size(s.level);
    NextBlock(s, b, b);
    CeilBounds(now, w);
    assert d * w >= 0;
    assert (b + d) * w == b * w + d * w;
    MultipleDiv(b + d, w);
    forall t | now <= t < NextVisit(s, now) ensures !Visits(s, t) {
      NotEarlier(s, now, t);
    }
  }

  lemma NotEarlier(s: Slot, now: int, t: int)
    requires ValidSlot(s) && now <= t < NextVisit(s, now)
    ensures !Visits(s, t)
  {
    var w := Width(s.level);
    var b := (now + w - 1) / w;
    var d := (s.index - b) % Size(s.level);
    if t % w == 0 {
      var k := t / w;
      assert t == k * w;
      CeilBounds(now, w);
      Ordered(b - 1, k, w);
      Ordered(k, b + d, w);
      NextBlock(s, b, k);
    }
  }

  /** The placement law: a timer's slot is visited exactly when the timer is due on level 0, and on a
      higher level later than `now` but not later than the expiry time. This covers expiry times that are
      in the past and those beyond the reach of the last level. */
  lemma Placement(now: int, expire: int)
    ensures var s := SlotFor(now, expire);
      if s.level == 0 then NextVisit(s, now) == if expire < now then now else expire
      else now < NextVisit(s, now) <= expire
  {
    var delay := expire - now;
    if delay < 256 {
      ZeroPlacement(now, expire);
    } else {
      LevelReach(delay, 0);
      var level := LevelFor(delay, 0);
      if level < LEVELS {
        NearPlacement(level, now, expire);
      } else {
        FarPlacement(LEVELS - 1, now, expire);
      }
    }
  }

  lemma ZeroPlacement(now: int, expire: int)
    requires expire - now < 256
    ensures SlotFor(now, expire).level == 0
    ensures NextVisit(SlotFor(now, expire), now) == if expire < now then now else expire
  {
    var at := if expire < now then now else expire;
    NextBlock(SlotFor(now, expire), now, at);
  }

  lemma ReachOf(delay: int, level: nat)
    requires level < LEVELS && delay > 0
    ensures delay / Width(level) < Size(level) <==> delay < Width(level) * Size(level)
  {
    var w := Width(level);
    DivMod(delay, w);
    if delay / w < Size(level) {
      MulMonotone(delay / w + 1, Size(level), w);
    } else {
      MulMonotone(Size(level), delay / w, w);
    }
  }

  /** A level is only chosen when the delay is at least the level's width, and below it times its size. */
  lemma {:induction false} LevelReach(delay: int, level: nat)
    requires level <= LEVELS && delay > 0 && (level > 0 ==> Width(level - 1) * Size(level - 1) <= delay)
    ensures var l := LevelFor(delay, level);
      && level <= l <= LEVELS
      && (l > 0 ==> Width(l - 1) * Size(l - 1) <= delay)
      && (l < LEVELS ==> delay < Width(l) * Size(l))
    decreases LEVELS - level
  {
    if level < LEVELS {
      ReachOf(delay, level);
      if delay / Width(level) >= Size(level) {
        LevelReach(delay, level + 1);
      }
    }
  }

  lemma NearPlacement(level: nat, now: int, expire: int)
    requires 1 <= level < LEVELS && Width(level) <= expire - now < Width(level) * 64
    ensures now < NextVisit(Slot(level, IndexAt(level, expire)), now) <= expire
  {
    var w := Width(level);
    var b, f, e := (now + w - 1) / w, now / w, expire / w;
    CeilBounds(now, w);
    assert now == f * w + now % w && expire == e * w + expire % w;
    Ordered(f, e, w);
    Ordered(b - 1, f + 1, w);
    Ordered(e, b + 64, w);
    NextBlock(Slot(level, e % 64), b, e);
    MulMonotone(f + 1, e, w);
  }

  lemma FarPlacement(level: nat, now: int, expire: int)
    requires 1 <= level < LEVELS && expire - now >= Width(level) * 64
    ensures now < NextVisit(Slot(level, (now / Width(level) + 63) % 64), now) <= expire
  {
    var w := Width(level);
    var b, f := (now + w - 1) / w, now / w;
    CeilBounds(now, w);
    assert now == f * w + now % w;
    Ordered(f, b + 1, w);
    Ordered(b - 1, f + 1, w);
    NextBlock(Slot(level, (f + 63) % 64), b, f + 63);
  }

  /** Until it is visited, a slot's next visit stays the same. */
  lemma VisitPending(s: Slot, now: int)
    requires ValidSlot(s)
    ensures Visits(s, now) <==> NextVisit(s, now) == now
    ensures !Visits(s, now) ==> NextVisit(s, now + 1) == NextVisit(s, now)
  {
    NextVisitFirst(s, now);
    NextVisitFirst(s, now + 1);
    if !Visits(s, now) {
      var t, t' := NextVisit(s, now), NextVisit(s, now + 1);
      assert !(t' < t) && !(t < t');
    }
  }

  /** While slot `k & 255` drains, `cur_time_` is already k + 1. A timer put in from there lands in the very
      slot being drained exactly when its expiry is 255 ticks ahead. */
  lemma DrainCollision(k: int, expire: int)
    ensures SlotFor(k + 1, expire) == Slot(0, IndexAt(0, k)) <==> expire - (k + 1) == 255
  {
    var delay := expire - (k + 1);
    if delay >= 256 {
      LevelReach(delay, 0);
    }
  }

  /** The cascade of a level goes on to the next one exactly when that level's slot starts at this tick too. */
  lemma CascadeGoesOn(level: nat, t: int)
    requires level < LEVELS - 1 && t % Width(level) == 0
    ensures t % Width(level + 1) == 0 <==> IndexAt(level, t) == 0
  {
    var w, q := Width(level), t / Width(level);
    assert t == q * w;
    assert Width(level + 1) == w * Size(level);
    if level == 0 {
    } else if level == 1 {
    } else if level == 2 {
    } else {
    }
  }

  /** A higher level is never at the start of a slot unless every lower one is. */
  lemma LowerAligned(level: nat, t: int)
    requires level < LEVELS - 1 && t % Width(level + 1) == 0
    ensures t % Width(level) == 0
  {
  }
}
