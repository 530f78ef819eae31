/** The single-producer single-consumer ring of spsc_queue.h as a two-thread state machine. Every atomic
    load or store and every beginning and end of an access to a slot is a step of its own; a run is any
    interleaving of producer and consumer steps. */
module SpscQueue {
  import opened Arithmetic
  import opened Options

  // ----- indices -----

  /** `NextIndex` */
  method NextIndex(index: nat, maxSize: nat) returns (next: nat)
    requires maxSize > 0
    ensures next == (index + 1) % maxSize
  {
    next := index + 1;
    while next >= maxSize
      invariant next >= 0 && next % maxSize == (index + 1) % maxSize
    {
      Wrap(next, maxSize);
      next := next - maxSize;
    }
    Small(next, maxSize);
  }

  /** `ReadAvailable(write_index, read_index, max_size)` */
  function ReadAvailable(write: nat, read: nat, maxSize: nat): int {
    if write >= read then write - read else write + maxSize - read
  }

  /** `WriteAvailable(write_index, read_index, max_size)` */
  function WriteAvailable(write: nat, read: nat, maxSize: nat): int {
    if write >= read then maxSize - write + read - 1 else read - write - 1
  }

  lemma Wrap(x: nat, m: nat)
    requires m > 0 && x >= m
    ensures (x - m) % m == x % m
  {
    DivMod(x, m);
    ModUnique(x - m, x / m - 1, x % m, m);
  }

  /** Going on by d < m positions moves the index by d, around the end if need be. */
  lemma Ahead(p: nat, d: nat, m: nat)
    requires d < m
    ensures (p + d) % m == if p % m + d < m then p % m + d else p % m + d - m
  {
    DivMod(p, m);
    if p % m + d < m {
      ModUnique(p + d, p / m, p % m + d, m);
    } else {
      ModUnique(p + d, p / m + 1, p % m + d - m, m);
    }
  }

  lemma Distinct(p: nat, q: nat, m: nat)
    requires p < q < p + m
    ensures p % m != q % m
  {
    Ahead(p, q - p, m);
    DivMod(p, m);
  }

  // ----- the machine -----

  /** A slot of raw memory: no object, one under construction, a value, or one under destruction. */
  datatype Cell<T> = Raw | Building | Live(value: T) | Dying

  /** Where the producing thread is; `w` and `next` are its copies of the index. */
  datatype Producer<T> =
    | Resting
    | PushLoaded(data: T, w: nat)                    // write_index loaded
    | PushFits(data: T, w: nat, next: nat)           // read_index loaded: not full
    | PushBuilding(data: T, w: nat, next: nat)       // inside the constructor
    | PushBuilt(next: nat)                           // about to store write_index
    | ProductLoaded(limit: nat, w: nat)              // write_index loaded
    | Producing(w: nat, i: nat, count: nat)          // head of the loop
    | ProducingAt(w: nat, i: nat, count: nat)        // inside the constructor and callback

  /** Where the consuming thread is; `seen` (for the proof) is how many values it saw published. */
  datatype Consumer =
    | Waiting
    | PopLoaded(w: nat, seen: nat)                   // write_index loaded
    | PopFound(r: nat)                               // read_index loaded: not empty
    | PopCopied(r: nat)                              // value copied out
    | PopDying(r: nat)                               // inside the destructor
    | PopDone(next: nat)                             // about to store read_index
    | ConsumeLoaded(limit: nat, w: nat, seen: nat)   // write_index loaded
    | Consuming(r: nat, i: nat, count: nat)          // head of the loop
    | ConsumingRead(r: nat, i: nat, count: nat)      // callback over
    | ConsumingDying(r: nat, i: nat, count: nat)     // inside the destructor

  /** Shared memory, both threads, what the last operation of each returned (`Push` and `Pop`: 1 for true and 0 for
      false), and the history: the values constructed and delivered so far, and how many of them have been published,
      destroyed and released by an index store. */
  datatype State<T> = State(maxSize: nat, cells: seq<Cell<T>>, read: nat, write: nat,
                            producer: Producer<T>, consumer: Consumer, gave: int, took: int,
                            sent: seq<T>, published: nat, received: seq<T>, destroyed: nat, released: nat)

  datatype Step<T> =
    | StartPush(data: T) | CheckPush | BeginPush | EndPush | PublishPush
    | StartProduct(limit: nat) | CheckProduct | BeginProduce | EndProduce(made: T) | PublishProduct
    | StartPop | CheckPop | CopyPop | BeginDestroy | EndDestroy | ReleasePop
    | StartConsume(limit: nat) | CheckConsume | ReadConsume | BeginConsumed | EndConsumed | ReleaseConsume

  /** A step that does not apply is blocked; one that builds over an object, or reads or destroys anything
      but an object, is a fault. */
  datatype Outcome<T> = Blocked | Fault | Next(state: State<T>)

  /** `SPSCQueue(capacity)`: one slot more than the capacity. */
  function Init<T>(capacity: nat): State<T> {
    State(capacity + 1, seq(capacity + 1, _ => Raw), 0, 0, Resting, Waiting, 0, 0, [], 0, [], 0, 0)
  }

  function Min(a: int, b: int): int {
    if a < b then a else b
  }

  function Succ(index: nat, maxSize: nat): nat
    requires maxSize > 0
  {
    (index + 1) % maxSize
  }

  function Produce<T>(s: State<T>, step: Step<T>): Outcome<T>
    requires s.maxSize > 0 && |s.cells| == s.maxSize
  {
    match (step, s.producer)
    case (StartPush(data), Resting) => Next(s.(producer := PushLoaded(data, s.write)))
    case (CheckPush, PushLoaded(data, w)) =>
      var next := Succ(w, s.maxSize);
      if next == s.read then Next(s.(producer := Resting, gave := 0))
      else Next(s.(producer := PushFits(data, w, next)))
    case (BeginPush, PushFits(data, w, next)) =>
      if w < s.maxSize && s.cells[w] == Raw then Next(s.(cells := s.cells[w := Building],
          producer := PushBuilding(data, w, next)))
      else Fault
    case (EndPush, PushBuilding(data, w, next)) =>
      if w < s.maxSize && s.cells[w] == Building then
        Next(s.(cells := s.cells[w := Live(data)], producer := PushBuilt(next), sent := s.sent + [data]))
      else Fault
    case (PublishPush, PushBuilt(next)) =>
      Next(s.(write := next, producer := Resting, gave := 1, published := |s.sent|))
    case (StartProduct(limit), Resting) =>
      if limit > 0 then Next(s.(producer := ProductLoaded(limit, s.write))) else Blocked
    case (CheckProduct, ProductLoaded(limit, w)) =>
      var avail := WriteAvailable(w, s.read, s.maxSize);
      if avail == 0 then Next(s.(producer := Resting, gave := 0))
      else if avail > 0 then Next(s.(producer := Producing(w, 0, Min(limit, avail))))
      else Fault
    case (BeginProduce, Producing(w, i, count)) =>
      if i == count then Blocked
      else if w < s.maxSize && s.cells[w] == Raw then Next(s.(cells := s.cells[w := Building],
          producer := ProducingAt(w, i, count)))
      else Fault
    case (EndProduce(made), ProducingAt(w, i, count)) =>
      if w < s.maxSize && s.cells[w] == Building then
        Next(s.(cells := s.cells[w := Live(made)], producer := Producing(Succ(w, s.maxSize), i + 1, count),
            sent := s.sent + [made]))
      else Fault
    case (PublishProduct, Producing(w, i, count)) =>
      if i == count then Next(s.(write := w, producer := Resting, gave := count, published := |s.sent|)) else Blocked
    case (_, _) => Blocked
  }

  function Consume<T>(s: State<T>, step: Step<T>): Outcome<T>
    requires s.maxSize > 0 && |s.cells| == s.maxSize
  {
    match (step, s.consumer)
    case (StartPop, Waiting) => Next(s.(consumer := PopLoaded(s.write, s.published)))
    case (CheckPop, PopLoaded(w, _)) =>
      if w == s.read then Next(s.(consumer := Waiting, took := 0)) else Next(s.(consumer := PopFound(s.read)))
    case (CopyPop, PopFound(r)) =>
      if r < s.maxSize && s.cells[r].Live? then Next(s.(consumer := PopCopied(r),
          received := s.received + [s.cells[r].value]))
      else Fault
    case (BeginDestroy, PopCopied(r)) =>
      if r < s.maxSize && s.cells[r].Live? then Next(s.(cells := s.cells[r := Dying], consumer := PopDying(r)))
      else Fault
    case (EndDestroy, PopDying(r)) =>
      if r < s.maxSize && s.cells[r] == Dying then
        Next(s.(cells := s.cells[r := Raw], consumer := PopDone(Succ(r, s.maxSize)), destroyed := s.destroyed + 1))
      else Fault
    case (ReleasePop, PopDone(next)) =>
      Next(s.(read := next, consumer := Waiting, took := 1, released := s.destroyed))
    case (StartConsume(limit), Waiting) =>
      if limit > 0 then Next(s.(consumer := ConsumeLoaded(limit, s.write, s.published))) else Blocked
    case (CheckConsume, ConsumeLoaded(limit, w, _)) =>
      var avail := ReadAvailable(w, s.read, s.maxSize);
      if avail == 0 then Next(s.(consumer := Waiting, took := 0))
      else if avail > 0 then Next(s.(consumer := Consuming(s.read, 0, Min(limit, avail))))
      else Fault
    case (ReadConsume, Consuming(r, i, count)) =>
      if i == count then Blocked
      else if r < s.maxSize && s.cells[r].Live? then
        Next(s.(consumer := ConsumingRead(r, i, count), received := s.received + [s.cells[r].value]))
      else Fault
    case (BeginConsumed, ConsumingRead(r, i, count)) =>
      if r < s.maxSize && s.cells[r].Live? then Next(s.(cells := s.cells[r := Dying], consumer := ConsumingDying(r,
          i, count)))
      else Fault
    case (EndConsumed, ConsumingDying(r, i, count)) =>
      if r < s.maxSize && s.cells[r] == Dying then
        Next(s.(cells := s.cells[r := Raw], consumer := Consuming(Succ(r, s.maxSize), i + 1, count),
            destroyed := s.destroyed + 1))
      else Fault
    case (ReleaseConsume, Consuming(r, i, count)) =>
      if i == count then Next(s.(read := r, consumer := Waiting, took := count, released := s.destroyed)) else Blocked
    case (_, _) => Blocked
  }

  /** The producer's steps come first in `Step`; every step belongs to one of the threads. */
  predicate IsProducerStep<T>(step: Step<T>) {
    || step.StartPush? || step.CheckPush? || step.BeginPush? || step.EndPush? || step.PublishPush?
    || step.StartProduct? || step.CheckProduct? || step.BeginProduce? || step.EndProduce? || step.PublishProduct?
  }

  function Do<T>(s: State<T>, step: Step<T>): Outcome<T>
    requires s.maxSize > 0 && |s.cells| == s.maxSize
  {
    if IsProducerStep(step) then Produce(s, step) else Consume(s, step)
  }

  function Run<T>(s: State<T>, steps: seq<Step<T>>): (o: Outcome<T>)
    requires s.maxSize > 0 && |s.cells| == s.maxSize
    decreases steps
  {
    if steps == [] then Next(s)
    else
      var o := Do(s, steps[0]);
      if o.Next? then Run(o.state, steps[1..]) else o
  }

  // ----- the invariant -----

  predicate InConstructor<T>(p: Producer<T>) {
    p.PushBuilding? || p.ProducingAt?
  }

  predicate InDestructor(c: Consumer) {
    c.PopDying? || c.ConsumingDying?
  }

  /** What the slot of position p holds, for the `maxSize` positions from the oldest undestroyed value on. */
  function CellAt<T>(s: State<T>, p: nat): Cell<T>
    requires s.destroyed <= p
  {
    if p < |s.sent| then (if p == s.destroyed && InDestructor(s.consumer) then Dying else Live(s.sent[p]))
    else if p == |s.sent| && InConstructor(s.producer) then Building
    else Raw
  }

  ghost predicate Cells<T>(s: State<T>)
    requires s.maxSize > 0 && |s.cells| == s.maxSize
  {
    forall p {:trigger CellAt(s, p)} :: s.destroyed <= p < s.destroyed + s.maxSize ==>
        s.cells[p % s.maxSize] == CellAt(s, p)
  }

  predicate ProducerOk<T>(s: State<T>)
    requires s.maxSize > 0
  {
    var n := |s.sent|;
    match s.producer
    case Resting => s.published == n
    case PushLoaded(_, w) => s.published == n && w == s.write
    case PushFits(_, w, next) => s.published == n && w == s.write && next == (n + 1) % s.maxSize &&
        n - s.released < s.maxSize - 1
    case PushBuilding(_, w, next) => s.published == n && w == s.write && next == (n + 1) % s.maxSize &&
        n - s.released < s.maxSize - 1
    case PushBuilt(next) => s.published + 1 == n && next == n % s.maxSize
    case ProductLoaded(limit, w) => s.published == n && w == s.write && limit > 0
    case Producing(w, i, count) => w == n % s.maxSize && s.published + i == n && i <= count &&
        s.published + count - s.released < s.maxSize
    case ProducingAt(w, i, count) =>
        w == n % s.maxSize && s.published + i == n && i < count && s.published + count - s.released < s.maxSize
  }

  predicate ConsumerOk<T>(s: State<T>)
    requires s.maxSize > 0
  {
    var d, n := s.destroyed, |s.received|;
    match s.consumer
    case Waiting => n == d == s.released
    case PopLoaded(w, seen) => n == d == s.released && w == seen % s.maxSize && d <= seen <= s.published
    case PopFound(r) => n == d == s.released && r == s.read && n < s.published
    case PopCopied(r) => n == d + 1 && d == s.released && r == s.read
    case PopDying(r) => n == d + 1 && d == s.released && r == s.read
    case PopDone(next) => n == d == s.released + 1 && next == d % s.maxSize
    case ConsumeLoaded(limit, w, seen) => n == d == s.released && w == seen % s.maxSize &&
        d <= seen <= s.published && limit > 0
    case Consuming(r, i, count) => n == d == s.released + i && r == d % s.maxSize && i <= count &&
        s.released + count <= s.published
    case ConsumingRead(r, i, count) => n == d + 1 && d == s.released + i && r == d % s.maxSize && i < count &&
        s.released + count <= s.published
    case ConsumingDying(r, i, count) =>
        n == d + 1 && d == s.released + i && r == d % s.maxSize && i < count && s.released + count <= s.published
  }

  /** Indices are counters modulo the ring size; what has been delivered is a prefix of what has been
      published, that of what has been constructed; and never more than maxSize - 1 values are outstanding. */
  ghost predicate Inv<T>(s: State<T>) {
    && s.maxSize > 1 && |s.cells| == s.maxSize
    && s.write == s.published % s.maxSize && s.read == s.released % s.maxSize
    && s.released <= s.destroyed <= |s.received| <= s.published <= |s.sent| < s.released + s.maxSize
    && s.received <= s.sent
    && ProducerOk(s) && ConsumerOk(s) && Cells(s)
  }

  lemma InitInv<T>(capacity: nat)
    requires capacity > 0
    ensures Inv(Init<T>(capacity))
  {
    Small(0, capacity + 1);
  }

  /** Writing the slot of one position leaves those of the others in the window alone. */
  lemma Written<T>(cells: seq<Cell<T>>, from: nat, q: nat, c: Cell<T>)
    requires |cells| > 0 && from <= q < from + |cells|
    ensures q % |cells| < |cells|
    ensures forall p :: from <= p < from + |cells| ==>
      cells[q % |cells| := c][p % |cells|] == if p == q then c else cells[p % |cells|]
  {
    forall p | from <= p < from + |cells|
      ensures cells[q % |cells| := c][p % |cells|] == if p == q then c else cells[p % |cells|] {
      if p < q {
        Distinct(p, q, |cells|);
      } else if q < p {
        Distinct(q, p, |cells|);
      }
    }
  }

  /** The distance of two indices less than a ring apart is that of the counters behind them. */
  lemma Distance(from: nat, to: nat, m: nat)
    requires from <= to < from + m
    ensures ReadAvailable(to % m, from % m, m) == to - from
    ensures WriteAvailable(to % m, from % m, m) == m - 1 - (to - from)
    ensures to % m == from % m <==> to == from
  {
    DivMod(from, m);
    Ahead(from, to - from, m);
  }

  lemma NextCount(n: nat, m: nat)
    requires m > 1
    ensures (n % m + 1) % m == (n + 1) % m
  {
    Ahead(n, 1, m);
    DivMod(n, m);
    if n % m + 1 < m {
      Small(n % m + 1, m);
    } else {
      ModUnique(n % m + 1, 1, 0, m);
    }
  }

  /** A step that touches no slot and enters or leaves no constructor or destructor leaves the cells as they are. */
  lemma CellsKept<T>(s: State<T>, s': State<T>)
    requires s.maxSize > 0 && |s.cells| == s.maxSize && Cells(s)
    requires s'.maxSize == s.maxSize && s'.cells == s.cells && s'.sent == s.sent && s'.destroyed == s.destroyed
    requires InConstructor(s'.producer) == InConstructor(s.producer) &&
              InDestructor(s'.consumer) == InDestructor(s.consumer)
    ensures Cells(s')
  {
    forall p | s.destroyed <= p < s.destroyed + s.maxSize ensures s'.cells[p % s.maxSize] == CellAt(s', p) {
      assert CellAt(s', p) == CellAt(s, p);
    }
  }

  /** `next == read_index_` says just that the ring is full. */
  lemma Full<T>(s: State<T>)
    requires Inv(s)
    ensures (s.published % s.maxSize + 1) % s.maxSize == (s.published + 1) % s.maxSize
    ensures (s.published + 1) % s.maxSize == s.read <==> s.published - s.released == s.maxSize - 1
  {
    NextCount(s.published, s.maxSize);
    if s.published + 1 < s.released + s.maxSize {
      Distance(s.released, s.published + 1, s.maxSize);
    } else {
      Wrap(s.published + 1, s.maxSize);
    }
  }

  /** No fault, and the invariant where the step leads on. */
  ghost predicate Keeps<T>(s: State<T>, o: Outcome<T>) {
    !o.Fault? && (o.Next? ==> Inv(o.state) && o.state.maxSize == s.maxSize)
  }

  /** The producer's index loads and stores keep the invariant. */
  lemma ProducerLoad<T>(s: State<T>, step: Step<T>)
    requires Inv(s) && (step.StartPush? || step.CheckPush? || step.StartProduct? || step.CheckProduct?)
    ensures Keeps(s, Produce(s, step))
  {
    var o := Produce(s, step);
    if s.producer.PushLoaded? {
      Full(s);
    } else if s.producer.ProductLoaded? {
      Distance(s.released, s.published, s.maxSize);
    }
    if o.Next? {
      CellsKept(s, o.state);
    }
  }

  lemma ProducerPublish<T>(s: State<T>, step: Step<T>)
    requires Inv(s) && (step.PublishPush? || step.PublishProduct?)
    ensures Keeps(s, Produce(s, step))
  {
    var o := Produce(s, step);
    assert o.Next? ==> forall p :: s.destroyed <= p ==> CellAt(o.state, p) == CellAt(s, p);
  }

  /** So do its accesses to slots: they only ever build where there is no object. */
  lemma ProducerBuildBegin<T>(s: State<T>, step: Step<T>)
    requires Inv(s) && (step.BeginPush? || step.BeginProduce?)
    ensures Keeps(s, Produce(s, step))
  {
    var o, n := Produce(s, step), |s.sent|;
    DivMod(n, s.maxSize);
    if !o.Blocked? {
      assert s.cells[n % s.maxSize] == CellAt(s, n);
      Written(s.cells, s.destroyed, n, Building);
      assert o.Next? ==> forall p :: s.destroyed <= p < s.destroyed + s.maxSize && p != n ==>
          CellAt(o.state, p) == CellAt(s, p);
    }
  }

  lemma ProducerBuildEnd<T>(s: State<T>, step: Step<T>)
    requires Inv(s) && (step.EndPush? || step.EndProduce?)
    ensures Keeps(s, Produce(s, step))
  {
    var o, n := Produce(s, step), |s.sent|;
    DivMod(n, s.maxSize);
    if !o.Blocked? {
      assert s.cells[n % s.maxSize] == CellAt(s, n);
      BuiltCells(s, o);
      NextCount(n, s.maxSize);
    }
  }

  /** The value built is the next in the sequence, and no other slot has changed. */
  lemma BuiltCells<T>(s: State<T>, o: Outcome<T>)
    requires s.maxSize > 1 && |s.cells| == s.maxSize && Cells(s) && InConstructor(s.producer)
    requires s.destroyed <= |s.sent| < s.destroyed + s.maxSize && |s.sent| % s.maxSize < s.maxSize
    requires o.Next? ==>
      var s', n := o.state, |s.sent|;
      && s'.maxSize == s.maxSize && !InConstructor(s'.producer) && s'.consumer == s.consumer
      && s'.destroyed == s.destroyed && |s'.sent| == n + 1 && s.sent <= s'.sent
      && s'.cells == s.cells[n % s.maxSize := Live(s'.sent[n])]
      && (InDestructor(s.consumer) ==> s.destroyed < n)
    ensures o.Next? ==> Cells(o.state)
  {
    if o.Next? {
      Written(s.cells, s.destroyed, |s.sent|, Live(o.state.sent[|s.sent|]));
      forall p | s.destroyed <= p < s.destroyed + s.maxSize
        ensures o.state.cells[p % s.maxSize] == CellAt(o.state, p) {
        assert p != |s.sent| ==> CellAt(o.state, p) == CellAt(s, p);
      }
    }
  }

  lemma ConsumerLoad<T>(s: State<T>, step: Step<T>)
    requires Inv(s) && (step.StartPop? || step.CheckPop? || step.StartConsume? || step.CheckConsume?)
    ensures Keeps(s, Consume(s, step))
  {
    if s.consumer.PopLoaded? || s.consumer.ConsumeLoaded? {
      Distance(s.released, s.consumer.seen, s.maxSize);
    }
    var o := Consume(s, step);
    if o.Next? {
      CellsKept(s, o.state);
    }
  }

  lemma ConsumerRelease<T>(s: State<T>, step: Step<T>)
    requires Inv(s) && (step.ReleasePop? || step.ReleaseConsume?)
    ensures Keeps(s, Consume(s, step))
  {
    var o := Consume(s, step);
    if o.Next? {
      CellsKept(s, o.state);
    }
  }

  /** The consumer delivers the next value of the sequence, from a slot that holds it. */
  lemma ConsumerRead<T>(s: State<T>, step: Step<T>)
    requires Inv(s) && (step.CopyPop? || step.ReadConsume?)
    ensures Keeps(s, Consume(s, step))
  {
    var o, d := Consume(s, step), s.destroyed;
    DivMod(d, s.maxSize);
    if !o.Blocked? {
      assert s.cells[d % s.maxSize] == CellAt(s, d);
      assert o.Next? ==> forall p :: s.destroyed <= p ==> CellAt(o.state, p) == CellAt(s, p);
    }
  }

  lemma ConsumerDestroyBegin<T>(s: State<T>, step: Step<T>)
    requires Inv(s) && (step.BeginDestroy? || step.BeginConsumed?)
    ensures Keeps(s, Consume(s, step))
  {
    var o, d := Consume(s, step), s.destroyed;
    DivMod(d, s.maxSize);
    if !o.Blocked? {
      assert s.cells[d % s.maxSize] == CellAt(s, d);
      Written(s.cells, d, d, Dying);
      assert o.Next? ==> forall p :: d < p < d + s.maxSize ==> CellAt(o.state, p) == CellAt(s, p);
    }
  }

  lemma ConsumerDestroyEnd<T>(s: State<T>, step: Step<T>)
    requires Inv(s) && (step.EndDestroy? || step.EndConsumed?)
    ensures Keeps(s, Consume(s, step))
  {
    var o, d := Consume(s, step), s.destroyed;
    DivMod(d, s.maxSize);
    NextCount(d, s.maxSize);
    if !o.Blocked? {
      assert s.cells[d % s.maxSize] == CellAt(s, d);
      WindowMoved(s, o.state);
    }
  }

  /** Destroying the oldest value moves the window of positions on by one, onto the same slot. */
  lemma WindowMoved<T>(s: State<T>, s': State<T>)
    requires s.maxSize > 1 && |s.cells| == s.maxSize && Cells(s) && InDestructor(s.consumer)
    requires |s.sent| < s.destroyed + s.maxSize && (InConstructor(s.producer) ==>
              |s.sent| < s.destroyed + s.maxSize - 1)
    requires s.destroyed % s.maxSize < s.maxSize
    requires s'.maxSize == s.maxSize && s'.cells == s.cells[s.destroyed % s.maxSize := Raw]
    requires s'.sent == s.sent && s'.destroyed == s.destroyed + 1 && s'.producer == s.producer &&
              !InDestructor(s'.consumer)
    ensures Cells(s')
  {
    var d, m := s.destroyed, s.maxSize;
    Written(s.cells, d, d, Raw);
    DivMod(d, m);
    ModUnique(d + m, d / m + 1, d % m, m);
    forall p | d + 1 <= p < d + 1 + m ensures s'.cells[p % m] == CellAt(s', p) {
      if p < d + m {
        assert CellAt(s', p) == CellAt(s, p);
      }
    }
  }

  lemma ProducerStep<T>(s: State<T>, step: Step<T>)
    requires Inv(s) && IsProducerStep(step)
    ensures Keeps(s, Produce(s, step))
  {
    if step.BeginPush? || step.BeginProduce? {
      ProducerBuildBegin(s, step);
    } else if step.EndPush? || step.EndProduce? {
      ProducerBuildEnd(s, step);
    } else if step.PublishPush? || step.PublishProduct? {
      ProducerPublish(s, step);
    } else {
      ProducerLoad(s, step);
    }
  }

  lemma ConsumerStep<T>(s: State<T>, step: Step<T>)
    requires Inv(s) && !IsProducerStep(step)
    ensures Keeps(s, Consume(s, step))
  {
    if step.CopyPop? || step.ReadConsume? {
      ConsumerRead(s, step);
    } else if step.BeginDestroy? || step.BeginConsumed? {
      ConsumerDestroyBegin(s, step);
    } else if step.EndDestroy? || step.EndConsumed? {
      ConsumerDestroyEnd(s, step);
    } else if step.ReleasePop? || step.ReleaseConsume? {
      ConsumerRelease(s, step);
    } else {
      ConsumerLoad(s, step);
    }
  }

  /** Every step of either thread, in any reachable state, is free of faults and keeps the invariant. */
  lemma StepInv<T>(s: State<T>, step: Step<T>)
    requires Inv(s)
    ensures var o := Do(s, step); !o.Fault? && (o.Next? ==> Inv(o.state) && o.state.maxSize == s.maxSize)
  {
    if IsProducerStep(step) { ProducerStep(s, step); } else { ConsumerStep(s, step); }
  }

  lemma {:induction false} RunInv<T>(s: State<T>, steps: seq<Step<T>>)
    requires Inv(s)
    ensures var o := Run(s, steps); !o.Fault? && (o.Next? ==> Inv(o.state) && o.state.maxSize == s.maxSize)
    decreases steps
  {
    if steps != [] {
      StepInv(s, steps[0]);
      var o := Do(s, steps[0]);
      if o.Next? {
        RunInv(o.state, steps[1..]);
      }
    }
  }

  /** The value a step gives the run to send: that of a `Push` at the end of its constructor, or what a callback of
      `Product` makes. */
  function Gives<T>(pushing: Option<T>, step: Step<T>): seq<T> {
    match step
    case EndPush => if pushing.Some? then [pushing.value] else []
    case EndProduce(made) => [made]
    case _ => []
  }

  /** The value the last `Push` was begun with. */
  function Pushed<T>(pushing: Option<T>, step: Step<T>): Option<T> {
    if step.StartPush? then Some(step.data) else pushing
  }

  /** The values a run is given to send, in order, read off its steps alone. */
  function Given<T>(pushing: Option<T>, steps: seq<Step<T>>): seq<T>
    decreases steps
  {
    if steps == [] then [] else Gives(pushing, steps[0]) + Given(Pushed(pushing, steps[0]), steps[1..])
  }

  /** The value of a `Push` that has not constructed it yet is the one it was begun with. */
  ghost predicate Holding<T>(p: Producer<T>, pushing: Option<T>) {
    p.PushLoaded? || p.PushFits? || p.PushBuilding? ==> pushing == Some(p.data)
  }

  /** The consumer leaves what the producer has done alone. */
  lemma ConsumerLeaves<T>(s: State<T>, step: Step<T>)
    requires s.maxSize > 0 && |s.cells| == s.maxSize && Consume(s, step).Next?
    ensures var s' := Consume(s, step).state;
      s'.producer == s.producer && s'.gave == s.gave && s'.sent == s.sent && s'.published == s.published
  {
  }

  lemma GivenProduce<T>(s: State<T>, pushing: Option<T>, step: Step<T>)
    requires s.maxSize > 0 && |s.cells| == s.maxSize && Holding(s.producer, pushing) && Produce(s, step).Next?
    ensures Holding(Produce(s, step).state.producer, Pushed(pushing, step))
    ensures Produce(s, step).state.sent == s.sent + Gives(pushing, step)
  {
  }

  lemma GivenStep<T>(s: State<T>, pushing: Option<T>, step: Step<T>)
    requires s.maxSize > 0 && |s.cells| == s.maxSize && Holding(s.producer, pushing) && Do(s, step).Next?
    ensures Holding(Do(s, step).state.producer, Pushed(pushing, step))
    ensures var s' := Do(s, step).state;
      s'.maxSize == s.maxSize == |s'.cells| && s'.sent == s.sent + Gives(pushing, step)
  {
    if IsProducerStep(step) { GivenProduce(s, pushing, step); } else { ConsumerLeaves(s, step); }
  }

  lemma Regroup<T>(a: seq<T>, b: seq<T>, c: seq<T>, all: seq<T>)
    requires all == a + b + c
    ensures all == a + (b + c)
  {
  }

  /** What a run constructs is what it is given. */
  lemma {:induction false} RunGiven<T>(s: State<T>, pushing: Option<T>, steps: seq<Step<T>>)
    requires s.maxSize > 0 && |s.cells| == s.maxSize && Holding(s.producer, pushing) && Run(s, steps).Next?
    ensures Run(s, steps).state.sent == s.sent + Given(pushing, steps)
    decreases steps
  {
    if steps == [] {
      assert s.sent + [] == s.sent;
    } else {
      GivenStep(s, pushing, steps[0]);
      var s', given := Do(s, steps[0]).state, Given(Pushed(pushing, steps[0]), steps[1..]);
      RunGiven(s', Pushed(pushing, steps[0]), steps[1..]);
      Regroup(s.sent, Gives(pushing, steps[0]), given, Run(s, steps).state.sent);
    }
  }

  /** Over every interleaving of one producer and one consumer: no access to a slot is a fault; the values
      constructed are those the steps gave; the values delivered are a prefix of those published, which are a prefix
      of those given; and at most `capacity` values are outstanding. */
  lemma Safety<T>(capacity: nat, steps: seq<Step<T>>)
    requires capacity > 0
    ensures var o := Run(Init(capacity), steps); var given := Given(None, steps);
      && !o.Fault?
      && (o.Next? ==>
            var s := o.state;
            && s.sent == given && s.published <= |given|
            && s.received <= given[..s.published]
            && |given| - |s.received| <= |given| - s.released <= capacity)
  {
    InitInv<T>(capacity);
    RunInv(Init(capacity), steps);
    if Run(Init(capacity), steps).Next? {
      RunGiven(Init(capacity), None, steps);
    }
  }

  // ----- progress -----

  /** The step each thread takes next; a thread between two operations may begin one. */
  function NextProduce<T>(s: State<T>, v: T): Step<T> {
    match s.producer
    case Resting => StartPush(v)
    case PushLoaded(_, _) => CheckPush
    case PushFits(_, _, _) => BeginPush
    case PushBuilding(_, _, _) => EndPush
    case PushBuilt(_) => PublishPush
    case ProductLoaded(_, _) => CheckProduct
    case Producing(_, i, count) => if i == count then PublishProduct else BeginProduce
    case ProducingAt(_, _, _) => EndProduce(v)
  }

  function NextConsume<T>(s: State<T>): Step<T> {
    match s.consumer
    case Waiting => StartPop
    case PopLoaded(_, _) => CheckPop
    case PopFound(_) => CopyPop
    case PopCopied(_) => BeginDestroy
    case PopDying(_) => EndDestroy
    case PopDone(_) => ReleasePop
    case ConsumeLoaded(_, _, _) => CheckConsume
    case Consuming(_, i, count) => if i == count then ReleaseConsume else ReadConsume
    case ConsumingRead(_, _, _) => BeginConsumed
    case ConsumingDying(_, _, _) => EndConsumed
  }

  lemma ProducerEnabled<T>(s: State<T>, v: T)
    requires Inv(s)
    ensures IsProducerStep(NextProduce(s, v)) && Produce(s, NextProduce(s, v)).Next?
  {
    ProducerStep(s, NextProduce(s, v));
  }

  lemma ConsumerEnabled<T>(s: State<T>)
    requires Inv(s)
    ensures !IsProducerStep(NextConsume(s)) && Consume(s, NextConsume(s)).Next?
  {
    ConsumerStep(s, NextConsume(s));
  }

  /** Neither thread ever waits for the other: its next step applies in every reachable state, and between two
      operations it may begin any. */
  lemma Enabled<T>(s: State<T>, v: T, limit: nat)
    requires Inv(s) && limit > 0
    ensures IsProducerStep(NextProduce(s, v)) && Do(s, NextProduce(s, v)).Next?
    ensures !IsProducerStep(NextConsume(s)) && Do(s, NextConsume(s)).Next?
    ensures s.producer.Resting? ==> Do(s, StartPush(v)).Next? && Do(s, StartProduct(limit)).Next?
    ensures s.consumer.Waiting? ==> Do(s, StartPop).Next? && Do(s, StartConsume(limit)).Next?
  {
    ProducerEnabled(s, v);
    ConsumerEnabled(s);
  }

  /** A bound on the steps a thread still has to take to the end of its operation. */
  function ProducerWork<T>(p: Producer<T>): int {
    match p
    case Resting => 0
    case PushLoaded(_, _) => 4
    case PushFits(_, _, _) => 3
    case PushBuilding(_, _, _) => 2
    case PushBuilt(_) => 1
    case ProductLoaded(limit, _) => 2 * limit + 2
    case Producing(_, i, count) => 2 * (count - i) + 1
    case ProducingAt(_, i, count) => 2 * (count - i)
  }

  function ConsumerWork(c: Consumer): int {
    match c
    case Waiting => 0
    case PopLoaded(_, _) => 5
    case PopFound(_) => 4
    case PopCopied(_) => 3
    case PopDying(_) => 2
    case PopDone(_) => 1
    case ConsumeLoaded(limit, _, _) => 3 * limit + 2
    case Consuming(_, i, count) => 3 * (count - i) + 1
    case ConsumingRead(_, i, count) => 3 * (count - i)
    case ConsumingDying(_, i, count) => 3 * (count - i) - 1
  }

  function ProducerSteps<T>(steps: seq<Step<T>>): nat
    decreases steps
  {
    if steps == [] then 0 else (if IsProducerStep(steps[0]) then 1 else 0) + ProducerSteps(steps[1..])
  }

  lemma ProducerWorks<T>(s: State<T>, step: Step<T>)
    requires s.maxSize > 1 && |s.cells| == s.maxSize && ProducerOk(s) && Produce(s, step).Next?
    ensures var s' := Produce(s, step).state;
      s'.consumer == s.consumer && (s.producer != Resting ==> ProducerWork(s'.producer) < ProducerWork(s.producer))
  {
  }

  lemma ConsumerWorks<T>(s: State<T>, step: Step<T>)
    requires s.maxSize > 1 && |s.cells| == s.maxSize && ConsumerOk(s) && Consume(s, step).Next?
    ensures var s' := Consume(s, step).state;
      s'.producer == s.producer && (s.consumer != Waiting ==> ConsumerWork(s'.consumer) < ConsumerWork(s.consumer))
  {
  }

  /** A step brings its own thread nearer to the end of its operation and leaves the other where it is. */
  lemma StepWorks<T>(s: State<T>, step: Step<T>)
    requires Inv(s) && Do(s, step).Next?
    ensures var s' := Do(s, step).state;
      if IsProducerStep(step)
      then s'.consumer == s.consumer &&
           (s.producer != Resting ==> ProducerWork(s'.producer) < ProducerWork(s.producer))
      else s'.producer == s.producer &&
           (s.consumer != Waiting ==> ConsumerWork(s'.consumer) < ConsumerWork(s.consumer))
  {
    if IsProducerStep(step) { ProducerWorks(s, step); } else { ConsumerWorks(s, step); }
  }

  /** Wait-freedom: once the producer has taken that many steps of its own, it has ended its operation, whatever the
      consumer did in between. */
  lemma {:induction false} ProducerEnds<T>(s: State<T>, steps: seq<Step<T>>) returns (k: nat)
    requires Inv(s) && Run(s, steps).Next? && ProducerSteps(steps) >= ProducerWork(s.producer)
    ensures k <= |steps|
    ensures var o := Run(s, steps[..k]); o.Next? && o.state.producer == Resting
    decreases steps
  {
    k := 0;
    if s.producer != Resting {
      StepInv(s, steps[0]);
      StepWorks(s, steps[0]);
      k := ProducerEnds(Do(s, steps[0]).state, steps[1..]);
      assert steps[..k + 1][1..] == steps[1..][..k];
      k := k + 1;
    }
  }

  lemma {:induction false} ConsumerEnds<T>(s: State<T>, steps: seq<Step<T>>) returns (k: nat)
    requires Inv(s) && Run(s, steps).Next? && |steps| - ProducerSteps(steps) >= ConsumerWork(s.consumer)
    ensures k <= |steps|
    ensures var o := Run(s, steps[..k]); o.Next? && o.state.consumer == Waiting
    decreases steps
  {
    k := 0;
    if s.consumer != Waiting {
      StepInv(s, steps[0]);
      StepWorks(s, steps[0]);
      k := ConsumerEnds(Do(s, steps[0]).state, steps[1..]);
      assert steps[..k + 1][1..] == steps[1..][..k];
      k := k + 1;
    }
  }

  // ----- the bounded queue behind the ring -----

  /** The values published and not yet released. */
  function Queue<T>(s: State<T>): seq<T>
    requires s.released <= s.published <= |s.sent|
  {
    s.sent[s.released..s.published]
  }

  /** A FIFO queue of bounded capacity: one `Push`, and as many as there are values. */
  function PushOne<T>(queue: seq<T>, v: T, capacity: nat): Option<seq<T>> {
    if |queue| < capacity then Some(queue + [v]) else None
  }

  function PushAll<T>(queue: seq<T>, values: seq<T>, capacity: nat): Option<seq<T>>
    decreases values
  {
    if values == [] then Some(queue)
    else
      var q := PushOne(queue, values[0], capacity);
      if q.None? then None else PushAll(q.value, values[1..], capacity)
  }

  /** As many `Pop`s: the values taken, and what remains. */
  function PopAll<T>(queue: seq<T>, count: nat): Option<(seq<T>, seq<T>)>
    decreases count
  {
    if count == 0 then Some(([], queue))
    else if queue == [] then None
    else
      var r := PopAll(queue[1..], count - 1);
      if r.None? then None else Some(([queue[0]] + r.value.0, r.value.1))
  }

  lemma {:induction false} PushAllAppends<T>(queue: seq<T>, values: seq<T>, capacity: nat)
    requires |queue| + |values| <= capacity
    ensures PushAll(queue, values, capacity) == Some(queue + values)
    decreases values
  {
    if values == [] {
      assert queue + values == queue;
    } else {
      PushAllAppends(queue + [values[0]], values[1..], capacity);
      assert queue + [values[0]] + values[1..] == queue + values;
    }
  }

  lemma {:induction false} PopAllSplits<T>(queue: seq<T>, count: nat)
    requires count <= |queue|
    ensures PopAll(queue, count) == Some((queue[..count], queue[count..]))
    decreases count
  {
    if count > 0 {
      PopAllSplits(queue[1..], count - 1);
      assert [queue[0]] + queue[1..][..count - 1] == queue[..count];
    }
  }

  lemma SliceSplit<T>(values: seq<T>, i: nat, j: nat)
    requires i <= j <= |values|
    ensures values[i..|values|] == values[i..j] + values[j..]
  {
  }

  /** A store of `write_index_` pushes the values constructed since the last one, in that order: one for
      `Push`, and for `Product` as many `Push`es as it counted. */
  lemma PublishRefines<T>(s: State<T>, step: Step<T>)
    requires Inv(s) && (step.PublishPush? || step.PublishProduct?) && Produce(s, step).Next?
    ensures var s' := Produce(s, step).state;
      && s'.released <= s'.published <= |s'.sent|
      && PushAll(Queue(s), s.sent[s.published..], s.maxSize - 1) == Some(Queue(s'))
    ensures |s.sent| - s.published == if step.PublishPush? then 1 else s.producer.count
  {
    PushAllAppends(Queue(s), s.sent[s.published..], s.maxSize - 1);
    SliceSplit(s.sent, s.released, s.published);
  }

  /** A store of `read_index_` pops the values delivered since the last one. */
  lemma ReleaseRefines<T>(s: State<T>, step: Step<T>)
    requires Inv(s) && (step.ReleasePop? || step.ReleaseConsume?) && Consume(s, step).Next?
    ensures var s' := Consume(s, step).state;
      && s'.released <= s'.published <= |s'.sent|
      && PopAll(Queue(s), |s.received| - s.released) == Some((s.received[s.released..], Queue(s')))
    ensures |s.received| - s.released == if step.ReleasePop? then 1 else s.consumer.count
  {
    var n := |s.received| - s.released;
    PopAllSplits(Queue(s), n);
    assert Queue(s)[..n] == s.received[s.released..];
    assert Queue(Consume(s, step).state) == Queue(s)[n..];
  }

  predicate ChangesQueue<T>(step: Step<T>) {
    step.PublishPush? || step.PublishProduct? || step.ReleasePop? || step.ReleaseConsume?
  }

  lemma ProducerStutters<T>(s: State<T>, step: Step<T>)
    requires s.maxSize > 1 && |s.cells| == s.maxSize && !ChangesQueue(step) && Produce(s, step).Next?
    ensures var s' := Produce(s, step).state;
      s'.published == s.published && s'.released == s.released && s.sent <= s'.sent
  {
  }

  lemma ConsumerStutters<T>(s: State<T>, step: Step<T>)
    requires s.maxSize > 1 && |s.cells| == s.maxSize && !ChangesQueue(step) && Consume(s, step).Next?
    ensures var s' := Consume(s, step).state;
      s'.published == s.published && s'.released == s.released && s.sent <= s'.sent
  {
  }

  /** No other step is visible in the queue. */
  lemma OthersStutter<T>(s: State<T>, step: Step<T>)
    requires Inv(s) && !ChangesQueue(step)
    ensures var o := Do(s, step);
      o.Next? ==> o.state.released <= o.state.published <= |o.state.sent| && Queue(o.state) == Queue(s)
  {
    if Do(s, step).Next? {
      if IsProducerStep(step) { ProducerStutters(s, step); } else { ConsumerStutters(s, step); }
    }
  }

  /** What the comparisons with the other thread's index mean: that of `Push` holds exactly when the queue is full, and
      that of `Pop` exactly when it was empty as the write index was loaded; the producer's snapshot is the free space
      at that moment, which only grows until it publishes, and the consumer's is at most the content. */
  lemma Snapshots<T>(s: State<T>)
    requires Inv(s)
    ensures s.producer.PushLoaded? ==> (Succ(s.producer.w, s.maxSize) == s.read <==> |Queue(s)| == s.maxSize - 1)
    ensures s.producer.ProductLoaded? ==> WriteAvailable(s.producer.w, s.read, s.maxSize) == s.maxSize - 1 - |Queue(s)|
    ensures s.producer.Producing? ==> s.producer.count <= s.maxSize - 1 - |Queue(s)|
    ensures s.consumer.PopLoaded? ==> (s.consumer.w == s.read <==> s.consumer.seen == s.released)
    ensures s.consumer.PopLoaded? && s.consumer.w != s.read ==> Queue(s) != []
    ensures s.consumer.ConsumeLoaded? ==> 0 <= ReadAvailable(s.consumer.w, s.read, s.maxSize) <= |Queue(s)|
    ensures s.consumer.Consuming? ==> s.consumer.count <= |Queue(s)|
    ensures ReadAvailable(s.write, s.read, s.maxSize) == |Queue(s)|
    ensures WriteAvailable(s.write, s.read, s.maxSize) + ReadAvailable(s.write, s.read, s.maxSize) == s.maxSize - 1
  {
    Full(s);
    Distance(s.released, s.published, s.maxSize);
    if s.consumer.PopLoaded? || s.consumer.ConsumeLoaded? {
      Distance(s.released, s.consumer.seen, s.maxSize);
    }
  }

  // ----- whole operations, whatever the other thread does meanwhile -----

  predicate StartsProduce<T>(step: Step<T>) {
    step.StartPush? || step.StartProduct?
  }

  predicate StartsConsume<T>(step: Step<T>) {
    step.StartPop? || step.StartConsume?
  }

  /** Since state m, where its operation began, the consumer has delivered the first `read` values of the queue. */
  ghost predicate Delivered<T>(m: State<T>, s: State<T>, read: nat)
    requires m.released <= m.published <= |m.sent|
  {
    m.sent <= s.sent && read <= |Queue(m)| && s.received == m.received + Queue(m)[..read]
  }

  /** How far an operation that takes up to `limit` values and began at m has come; `Pop` takes up to one. */
  ghost predicate Taking<T>(m: State<T>, limit: nat, s: State<T>)
    requires m.released <= m.published <= |m.sent|
  {
    var n := Min(limit, |Queue(m)|);
    match s.consumer
    case Waiting => Delivered(m, s, n) && s.released == m.released + n && s.took == n
    case PopLoaded(_, seen) => limit == 1 && Delivered(m, s, 0) && s.released == m.released && seen == m.published
    case PopFound(_) => n == limit == 1 && Delivered(m, s, 0) && s.released == m.released
    case PopCopied(_) => n == limit == 1 && Delivered(m, s, 1) && s.released == m.released
    case PopDying(_) => n == limit == 1 && Delivered(m, s, 1) && s.released == m.released
    case PopDone(_) => n == limit == 1 && Delivered(m, s, 1) && s.released == m.released
    case ConsumeLoaded(l, _, seen) =>
      l == limit && Delivered(m, s, 0) && s.released == m.released && seen == m.published
    case Consuming(_, i, count) => count == n && i <= n && Delivered(m, s, i) && s.released == m.released
    case ConsumingRead(_, i, count) => count == n && i < n && Delivered(m, s, i + 1) && s.released == m.released
    case ConsumingDying(_, i, count) => count == n && i < n && Delivered(m, s, i + 1) && s.released == m.released
  }

  /** One value more is delivered. */
  lemma DeliveredNext<T>(m: State<T>, s: State<T>, read: nat)
    requires m.released <= m.published <= |m.sent| && |m.received| == m.released
    requires Delivered(m, s, read) && read < |Queue(m)|
    ensures |s.received| == m.released + read && s.sent[|s.received|] == Queue(m)[read]
    ensures Queue(m)[..read + 1] == Queue(m)[..read] + [Queue(m)[read]]
  {
  }

  /** The producer only adds to what has been constructed. */
  lemma ProducerLeaves<T>(s: State<T>, step: Step<T>)
    requires s.maxSize > 0 && |s.cells| == s.maxSize && Produce(s, step).Next?
    ensures var s' := Produce(s, step).state;
      && s'.consumer == s.consumer && s'.received == s.received && s'.released == s.released && s'.took == s.took
      && s.sent <= s'.sent
  {
  }

  lemma TakingProduce<T>(m: State<T>, limit: nat, s: State<T>, step: Step<T>)
    requires m.released <= m.published <= |m.sent| && Taking(m, limit, s)
    requires s.maxSize > 0 && |s.cells| == s.maxSize && Produce(s, step).Next?
    ensures Taking(m, limit, Produce(s, step).state)
  {
    ProducerLeaves(s, step);
  }

  lemma TakingLoad<T>(m: State<T>, limit: nat, s: State<T>, step: Step<T>)
    requires m.released <= m.published <= |m.sent| && |m.received| == m.released && Taking(m, limit, s)
    requires Inv(s) && (step.CheckPop? || step.CheckConsume?) && Consume(s, step).Next?
    ensures Taking(m, limit, Consume(s, step).state)
  {
    Distance(s.released, s.consumer.seen, s.maxSize);
  }

  lemma TakingRead<T>(m: State<T>, limit: nat, s: State<T>, step: Step<T>)
    requires m.released <= m.published <= |m.sent| && |m.received| == m.released && Taking(m, limit, s)
    requires Inv(s) && (step.CopyPop? || step.ReadConsume?) && Consume(s, step).Next?
    ensures Taking(m, limit, Consume(s, step).state)
  {
    var read := |s.received| - m.released;
    DivMod(s.destroyed, s.maxSize);
    assert s.cells[s.destroyed % s.maxSize] == CellAt(s, s.destroyed);
    DeliveredNext(m, s, read);
  }

  lemma TakingRest<T>(m: State<T>, limit: nat, s: State<T>, step: Step<T>)
    requires m.released <= m.published <= |m.sent| && |m.received| == m.released && Taking(m, limit, s)
    requires Inv(s) && !StartsConsume(step) && Consume(s, step).Next?
    requires !step.CheckPop? && !step.CheckConsume? && !step.CopyPop? && !step.ReadConsume?
    ensures Taking(m, limit, Consume(s, step).state)
  {
  }

  lemma {:induction false} TakingRun<T>(m: State<T>, limit: nat, s: State<T>, steps: seq<Step<T>>)
    requires m.released <= m.published <= |m.sent| && |m.received| == m.released
    requires Inv(s) && Taking(m, limit, s) && Run(s, steps).Next?
    requires forall step :: step in steps ==> !StartsConsume(step)
    ensures Taking(m, limit, Run(s, steps).state)
    decreases steps
  {
    if steps != [] {
      StepInv(s, steps[0]);
      var step := steps[0];
      if IsProducerStep(step) {
        TakingProduce(m, limit, s, step);
      } else if step.CheckPop? || step.CheckConsume? {
        TakingLoad(m, limit, s, step);
      } else if step.CopyPop? || step.ReadConsume? {
        TakingRead(m, limit, s, step);
      } else {
        TakingRest(m, limit, s, step);
      }
      TakingRun(m, limit, Do(s, step).state, steps[1..]);
    }
  }

  /** `Pop`, from its load of the write index to its end, in any interleaving: if the queue is empty at the load it
      delivers and releases nothing and returns false; otherwise it delivers and releases just the head, and returns
      true. */
  lemma PopTakesHead<T>(s: State<T>, steps: seq<Step<T>>)
    requires Inv(s) && steps != [] && steps[0].StartPop? && Run(s, steps).Next?
    requires forall step :: step in steps[1..] ==> !StartsConsume(step)
    ensures var t := Run(s, steps).state; t.consumer == Waiting ==>
      if Queue(s) == [] then t.received == s.received && t.released == s.released && t.took == 0
      else t.received == s.received + [Queue(s)[0]] && t.released == s.released + 1 && t.took == 1
  {
    StepInv(s, steps[0]);
    var s' := Do(s, steps[0]).state;
    assert Delivered(s, s', 0);
    TakingRun(s, 1, s', steps[1..]);
    assert Queue(s) != [] ==> Queue(s)[..1] == [Queue(s)[0]];
  }

  /** `Consume` likewise delivers, releases and counts the first values of the queue, as many as it is allowed. */
  lemma ConsumeTakesFirst<T>(s: State<T>, steps: seq<Step<T>>)
    requires Inv(s) && steps != [] && steps[0].StartConsume? && Run(s, steps).Next?
    requires forall step :: step in steps[1..] ==> !StartsConsume(step)
    ensures var t := Run(s, steps).state; var n := if steps[0].limit < |Queue(s)| then steps[0].limit else |Queue(s)|;
      t.consumer == Waiting ==>
      t.received == s.received + Queue(s)[..n] && t.released == s.released + n && t.took == n
  {
    StepInv(s, steps[0]);
    var s' := Do(s, steps[0]).state;
    assert Delivered(s, s', 0);
    TakingRun(s, steps[0].limit, s', steps[1..]);
  }

  /** The free places of the queue. */
  function Free<T>(s: State<T>): int
    requires s.released <= s.published <= |s.sent|
  {
    s.maxSize - 1 - |Queue(s)|
  }

  /** How far a `Push` of v has come that looked at the read index at m. */
  ghost predicate Pushing<T>(m: State<T>, v: T, s: State<T>)
    requires m.released <= m.published <= |m.sent|
  {
    match s.producer
    case Resting => if Free(m) == 0 then s.sent == m.sent && s.gave == 0 else s.sent == m.sent + [v] && s.gave == 1
    case PushFits(data, _, _) => Free(m) > 0 && data == v && s.sent == m.sent
    case PushBuilding(data, _, _) => Free(m) > 0 && data == v && s.sent == m.sent
    case PushBuilt(_) => Free(m) > 0 && s.sent == m.sent + [v]
    case _ => false
  }

  /** How far a `Product` of up to `limit` values has come that looked at the read index at m. */
  ghost predicate Making<T>(m: State<T>, limit: nat, s: State<T>)
    requires m.released <= m.published <= |m.sent|
  {
    var n := Min(limit, Free(m));
    match s.producer
    case Resting => |s.sent| == |m.sent| + n && s.gave == n
    case Producing(_, i, count) => count == n && |s.sent| == |m.sent| + i
    case ProducingAt(_, i, count) => count == n && |s.sent| == |m.sent| + i
    case _ => false
  }

  lemma PushingProduce<T>(m: State<T>, v: T, s: State<T>, step: Step<T>)
    requires m.released <= m.published <= |m.sent| && Pushing(m, v, s)
    requires s.maxSize > 0 && |s.cells| == s.maxSize && Produce(s, step).Next? && !StartsProduce(step)
    ensures !step.CheckPush? && Pushing(m, v, Produce(s, step).state)
  {
  }

  lemma MakingProduce<T>(m: State<T>, limit: nat, s: State<T>, step: Step<T>)
    requires m.released <= m.published <= |m.sent| && Making(m, limit, s)
    requires s.maxSize > 0 && ProducerOk(s) && |s.cells| == s.maxSize && Produce(s, step).Next? && !StartsProduce(step)
    ensures !step.CheckProduct? && Making(m, limit, Produce(s, step).state)
  {
  }

  lemma {:induction false} PushingRun<T>(m: State<T>, v: T, s: State<T>, steps: seq<Step<T>>)
    requires m.released <= m.published <= |m.sent|
    requires Inv(s) && Pushing(m, v, s) && Run(s, steps).Next?
    requires forall step :: step in steps ==> !StartsProduce(step)
    ensures CheckPush !in steps && Pushing(m, v, Run(s, steps).state)
    decreases steps
  {
    if steps != [] {
      StepInv(s, steps[0]);
      if IsProducerStep(steps[0]) { PushingProduce(m, v, s, steps[0]); } else { ConsumerLeaves(s, steps[0]); }
      PushingRun(m, v, Do(s, steps[0]).state, steps[1..]);
    }
  }

  lemma {:induction false} MakingRun<T>(m: State<T>, limit: nat, s: State<T>, steps: seq<Step<T>>)
    requires m.released <= m.published <= |m.sent|
    requires Inv(s) && Making(m, limit, s) && Run(s, steps).Next?
    requires forall step :: step in steps ==> !StartsProduce(step)
    ensures CheckProduct !in steps && Making(m, limit, Run(s, steps).state)
    decreases steps
  {
    if steps != [] {
      StepInv(s, steps[0]);
      if IsProducerStep(steps[0]) { MakingProduce(m, limit, s, steps[0]); } else { ConsumerLeaves(s, steps[0]); }
      MakingRun(m, limit, Do(s, steps[0]).state, steps[1..]);
    }
  }

  /** Step k is the one look at the read index in a run, and m is the state it found. */
  ghost predicate LooksAt<T>(s: State<T>, steps: seq<Step<T>>, look: Step<T>, k: nat, m: State<T>)
    requires Inv(s)
  {
    && k < |steps| && steps[k] == look && look !in steps[..k] && look !in steps[k + 1..]
    && Run(s, steps[..k]) == Next(m) && m.released <= m.published <= |m.sent|
  }

  lemma LooksLater<T>(s: State<T>, steps: seq<Step<T>>, look: Step<T>, k: nat, m: State<T>)
    requires Inv(s) && steps != [] && steps[0] != look && Do(s, steps[0]).Next? && Inv(Do(s, steps[0]).state)
    requires LooksAt(Do(s, steps[0]).state, steps[1..], look, k, m)
    ensures LooksAt(s, steps, look, k + 1, m)
  {
    assert steps[..k + 1] == [steps[0]] + steps[1..][..k];
    assert steps[k + 2..] == steps[1..][k + 1..];
    assert steps[..k + 1][1..] == steps[1..][..k];
  }

  lemma PushLooks<T>(s: State<T>, step: Step<T>)
    requires Inv(s) && s.producer.PushLoaded? && IsProducerStep(step) && Produce(s, step).Next?
    ensures step == CheckPush && Pushing(s, s.producer.data, Produce(s, step).state)
  {
    Snapshots(s);
  }

  lemma ProductLooks<T>(s: State<T>, step: Step<T>)
    requires Inv(s) && s.producer.ProductLoaded? && IsProducerStep(step) && Produce(s, step).Next?
    ensures step == CheckProduct && Making(s, s.producer.limit, Produce(s, step).state)
  {
    Snapshots(s);
  }

  /** The check of a `Push` in progress decides it. */
  lemma {:induction false} PushDecided<T>(s: State<T>, steps: seq<Step<T>>) returns (k: nat, m: State<T>)
    requires Inv(s) && s.producer.PushLoaded? && Run(s, steps).Next? && Run(s, steps).state.producer == Resting
    requires forall step :: step in steps ==> !StartsProduce(step)
    ensures LooksAt(s, steps, CheckPush, k, m) && m.sent == s.sent && m.published == s.published
    ensures Pushing(m, s.producer.data, Run(s, steps).state)
    decreases steps
  {
    StepInv(s, steps[0]);
    var s' := Do(s, steps[0]).state;
    if IsProducerStep(steps[0]) {
      k, m := 0, s;
      PushLooks(s, steps[0]);
      PushingRun(s, s.producer.data, s', steps[1..]);
    } else {
      ConsumerLeaves(s, steps[0]);
      k, m := PushDecided(s', steps[1..]);
      LooksLater(s, steps, CheckPush, k, m);
      k := k + 1;
    }
  }

  lemma {:induction false} ProductDecided<T>(s: State<T>, steps: seq<Step<T>>) returns (k: nat, m: State<T>)
    requires Inv(s) && s.producer.ProductLoaded? && Run(s, steps).Next? && Run(s, steps).state.producer == Resting
    requires forall step :: step in steps ==> !StartsProduce(step)
    ensures LooksAt(s, steps, CheckProduct, k, m) && m.sent == s.sent && m.published == s.published
    ensures Making(m, s.producer.limit, Run(s, steps).state)
    decreases steps
  {
    StepInv(s, steps[0]);
    var s' := Do(s, steps[0]).state;
    if IsProducerStep(steps[0]) {
      k, m := 0, s;
      ProductLooks(s, steps[0]);
      MakingRun(s, s.producer.limit, s', steps[1..]);
    } else {
      ConsumerLeaves(s, steps[0]);
      k, m := ProductDecided(s', steps[1..]);
      LooksLater(s, steps, CheckProduct, k, m);
      k := k + 1;
    }
  }

  /** `Push` of a value, in any interleaving: it gives up, and returns false, if and only if the queue is full where it
      looks at the read index; otherwise it publishes just that value and returns true. */
  lemma PushAppends<T>(s: State<T>, steps: seq<Step<T>>) returns (k: nat, m: State<T>)
    requires Inv(s) && steps != [] && steps[0].StartPush? && Run(s, steps).Next?
    requires forall step :: step in steps[1..] ==> !StartsProduce(step)
    requires Run(s, steps).state.producer == Resting
    ensures LooksAt(s, steps, CheckPush, k, m)
    ensures var t := Run(s, steps).state;
      if |Queue(m)| == m.maxSize - 1 then t.sent == s.sent && t.published == s.published && t.gave == 0
      else t.sent == s.sent + [steps[0].data] && t.published == s.published + 1 && t.gave == 1
  {
    StepInv(s, steps[0]);
    RunInv(s, steps);
    k, m := PushDecided(Do(s, steps[0]).state, steps[1..]);
    LooksLater(s, steps, CheckPush, k, m);
    k := k + 1;
  }

  /** `Product`, in any interleaving: it publishes just what its callbacks make, which is as many values as it is
      allowed and as there are places free where it looks at the read index, and returns their number. */
  lemma ProductAppends<T>(s: State<T>, steps: seq<Step<T>>) returns (k: nat, m: State<T>)
    requires Inv(s) && steps != [] && steps[0].StartProduct? && Run(s, steps).Next?
    requires forall step :: step in steps[1..] ==> !StartsProduce(step)
    requires Run(s, steps).state.producer == Resting
    ensures LooksAt(s, steps, CheckProduct, k, m)
    ensures var t, free := Run(s, steps).state, m.maxSize - 1 - |Queue(m)|;
      var n := if steps[0].limit < free then steps[0].limit else free;
      && t.sent == s.sent + Given(None, steps) && |Given(None, steps)| == n
      && t.published == s.published + n && t.gave == n
  {
    StepInv(s, steps[0]);
    RunInv(s, steps);
    k, m := ProductDecided(Do(s, steps[0]).state, steps[1..]);
    LooksLater(s, steps, CheckProduct, k, m);
    k := k + 1;
    RunGiven(s, None, steps);
  }
}
