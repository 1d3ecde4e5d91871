/** The bounded message queue of queue.c:42-90 between the main thread (nacl_io_demo.c:772-777) and
    the worker (nacl_io_demo.c:355-363), as a state machine: every statement that touches shared
    state is one step, and the steps of the two threads interleave in any order. Messages are
    accepted when the size is counted up and taken when the start index moves on. */
module MessageQueue {

  const MAX_QUEUE_SIZE := 256

  datatype Thread = Nobody | Main | Worker

  /** What the main thread does next, and the message it is busy with. */
  datatype MainPc<M> =
    | Idle
    | Lock(m: M)
    | TestFull(m: M)
    | Store(m: M)
    | AdvanceEnd(m: M)
    | CountUp(m: M)
    | Signal
    | Unlock
    | UnlockFull(m: M)
    | ReleaseDropped(m: M)

  /** What the worker does next, and the message it is busy with. */
  datatype WorkerPc<M> =
    | WLock
    | TestEmpty
    | Asleep
    | Relock
    | Fetch
    | AdvanceStart(m: M)
    | CountDown(m: M)
    | WUnlock(m: M)
    | Handle(m: M)
    | Release(m: M)

  /** A message that was counted in, or dropped while the ring held the given number of messages. */
  datatype Fate<M> = Accepted(m: M) | Dropped(m: M, held: int)

  datatype State<M> = State(
    ring: seq<M>, start: nat, end: nat, size: nat,
    owner: Thread, main: MainPc<M>, worker: WorkerPc<M>,
    accepted: seq<M>,     // every message counted in, in order
    taken: seq<M>,        // every message fetched, in order
    offered: seq<M>,      // every message handed to the main thread, in order
    fates: seq<Fate<M>>,  // what became of them, in order
    refs: multiset<M>)    // references held: AddRef adds one, Release drops one

  /** The scheduler's choice. Only Offer starts new work; Spurious is a wake-up without a signal. */
  datatype Action<M> = Offer(m: M) | MainStep | WorkerStep | Spurious

  predicate Enabled<M>(s: State<M>, a: Action<M>)
  {
    match a
    case Offer(_) => s.main.Idle?
    case MainStep => !s.main.Idle? && (s.main.Lock? ==> s.owner.Nobody?)
    case WorkerStep => !s.worker.Asleep? && (s.worker.WLock? || s.worker.Relock? ==> s.owner.Nobody?)
    case Spurious => s.worker.Asleep?
  }

  /** The cell of the ring that an index falls on. */
  function Wrap(i: nat): (r: nat)
    ensures r < MAX_QUEUE_SIZE
  {
    i % MAX_QUEUE_SIZE
  }

  function Next(i: nat): (r: nat)
    ensures r < MAX_QUEUE_SIZE
  {
    Wrap(i + 1)
  }

  function MainNext<M>(s: State<M>): State<M>
    requires Bounds(s)
  {
    match s.main
    case Idle => s
    case Lock(m) => s.(owner := Main, main := TestFull(m))
    case TestFull(m) =>
      if s.size == MAX_QUEUE_SIZE then s.(main := UnlockFull(m), fates := s.fates + [Dropped(m, |Contents(s)|)])
      else s.(main := Store(m))
    case Store(m) => s.(ring := s.ring[s.end := m], main := AdvanceEnd(m))
    case AdvanceEnd(m) => s.(end := Next(s.end), main := CountUp(m))
    case CountUp(m) =>
      s.(size := s.size + 1, main := Signal, accepted := s.accepted + [m], fates := s.fates + [Accepted(m)])
    case Signal => s.(worker := if s.worker.Asleep? then Relock else s.worker, main := Unlock)
    case Unlock => s.(owner := Nobody, main := Idle)
    case UnlockFull(m) => s.(owner := Nobody, main := ReleaseDropped(m))
    case ReleaseDropped(m) => s.(main := Idle, refs := s.refs - multiset{m})
  }

  function WorkerNext<M>(s: State<M>): State<M>
    requires Bounds(s)
  {
    match s.worker
    case WLock => s.(owner := Worker, worker := TestEmpty)
    case TestEmpty => if s.size == 0 then s.(owner := Nobody, worker := Asleep) else s.(worker := Fetch)
    case Asleep => s
    case Relock => s.(owner := Worker, worker := TestEmpty)
    case Fetch => s.(worker := AdvanceStart(s.ring[s.start]))
    case AdvanceStart(m) => s.(start := Next(s.start), worker := CountDown(m), taken := s.taken + [m])
    case CountDown(m) => s.(size := s.size - 1, worker := WUnlock(m))
    case WUnlock(m) => s.(owner := Nobody, worker := Handle(m))
    case Handle(m) => s.(worker := Release(m))
    case Release(m) => s.(worker := WLock, refs := s.refs - multiset{m})
  }

  /** The effect of an enabled action. */
  function Do<M>(s: State<M>, a: Action<M>): State<M>
    requires Inv(s) && Enabled(s, a)
  {
    match a
    case Offer(m) => s.(main := Lock(m), refs := s.refs + multiset{m}, offered := s.offered + [m])
    case MainStep => MainNext(s)
    case WorkerStep => WorkerNext(s)
    case Spurious => s.(worker := Relock)
  }

  // ----- the invariant -----

  predicate MainHolds<M>(s: State<M>)
  {
    match s.main
    case Idle => false
    case Lock(_) => false
    case ReleaseDropped(_) => false
    case _ => true
  }

  predicate WorkerHolds<M>(s: State<M>)
  {
    s.worker.TestEmpty? || s.worker.Fetch? || s.worker.AdvanceStart? || s.worker.CountDown? || s.worker.WUnlock?
  }

  /** Number of messages in the ring: between moving the start and counting down, one less than `size`. */
  function Length<M>(s: State<M>): int
  {
    if s.worker.CountDown? then s.size - 1 else s.size
  }

  /** The messages in the ring, oldest first. */
  function Contents<M>(s: State<M>): seq<M>
    requires Bounds(s)
  {
    Cells(s.ring, s.start, Length(s))
  }

  /** `len` cells of the ring from `start` on, wrapping around. */
  function Cells<M>(ring: seq<M>, start: nat, len: nat): (c: seq<M>)
    requires |ring| == MAX_QUEUE_SIZE
    ensures |c| == len
  {
    seq(len, k requires 0 <= k < len => ring[Wrap(start + k)])
  }

  /** The message, if any, that the main thread is passing on and holds a reference to. */
  function InFlight<M>(s: State<M>): seq<M>
  {
    if s.main.Idle? || s.main.Signal? || s.main.Unlock? then [] else [s.main.m]
  }

  /** The message, if any, that the worker has taken and not yet released. */
  function InHand<M>(s: State<M>): seq<M>
  {
    if s.worker.CountDown? || s.worker.WUnlock? || s.worker.Handle? || s.worker.Release? then [s.worker.m] else []
  }

  /** Only the owner of the mutex is inside the queue's code. */
  predicate Exclusive<M>(s: State<M>)
  {
    && (s.owner.Main? <==> MainHolds(s))
    && (s.owner.Worker? <==> WorkerHolds(s))
  }

  predicate Bounds<M>(s: State<M>)
  {
    && |s.ring| == MAX_QUEUE_SIZE && s.start < MAX_QUEUE_SIZE && s.end < MAX_QUEUE_SIZE
    && s.size <= MAX_QUEUE_SIZE && 0 <= Length(s)
  }

  /** The end index is behind the last message, or one further just before counting up. */
  predicate EndPlaced<M>(s: State<M>)
    requires Bounds(s)
  {
    s.end == Wrap(s.start + Length(s) + if s.main.CountUp? then 1 else 0)
  }

  /** What the two tests under the mutex have established. */
  predicate Tested<M>(s: State<M>)
  {
    && (s.main.Store? || s.main.AdvanceEnd? || s.main.CountUp? ==> s.size < MAX_QUEUE_SIZE)
    && (s.worker.Fetch? || s.worker.AdvanceStart? ==> s.size > 0)
  }

  /** A message that was stored or fetched but not yet counted is the one in its cell. */
  predicate InCell<M>(s: State<M>)
    requires Bounds(s)
  {
    && (s.main.AdvanceEnd? || s.main.CountUp? ==> s.ring[Wrap(s.start + Length(s))] == s.main.m)
    && (s.worker.AdvanceStart? ==> s.worker.m == s.ring[s.start])
  }

  predicate Shape<M>(s: State<M>)
  {
    Bounds(s) && EndPlaced(s) && Tested(s) && InCell(s)
  }

  /** A sleeping worker means an empty ring, except just before the main thread signals. */
  predicate NoLostWakeup<M>(s: State<M>)
  {
    s.worker.Asleep? && s.size > 0 ==> s.main.Signal?
  }

  predicate Inv<M>(s: State<M>)
  {
    && Exclusive(s)
    && Shape(s)
    && NoLostWakeup(s)
    && Accounts(s)
  }

  /** Nothing is lost or repeated: what was accepted is what was taken and what is still there, and
      every reference held belongs to a message in the ring, in hand or in flight. */
  predicate Accounts<M>(s: State<M>)
    requires Bounds(s)
  {
    && s.accepted == s.taken + Contents(s)
    && s.refs == multiset(Contents(s)) + multiset(InHand(s)) + multiset(InFlight(s))
  }

  // ----- every step keeps it -----

  /** Writing behind the last message leaves the messages alone. */
  lemma CellsOfStore<M>(ring: seq<M>, start: nat, len: nat, m: M)
    requires |ring| == MAX_QUEUE_SIZE && len < MAX_QUEUE_SIZE
    ensures Cells(ring[Wrap(start + len) := m], start, len) == Cells(ring, start, len)
  {
    hide Wrap;
    var before, after := Cells(ring, start, len), Cells(ring[Wrap(start + len) := m], start, len);
    forall k | 0 <= k < |before|
      ensures before[k] == after[k]
    {
      WrapDiffers(start, k, len);
    }
  }

  lemma WrapDiffers(start: nat, k: nat, len: nat)
    requires k < len < MAX_QUEUE_SIZE
    ensures Wrap(start + k) != Wrap(start + len)
  {
    assert (start + len) - (start + k) == len - k;
  }

  lemma CellsAppend<M>(ring: seq<M>, start: nat, len: nat)
    requires |ring| == MAX_QUEUE_SIZE
    ensures Cells(ring, start, len + 1) == Cells(ring, start, len) + [ring[Wrap(start + len)]]
  {
  }

  lemma CellsDrop<M>(ring: seq<M>, start: nat, len: nat)
    requires |ring| == MAX_QUEUE_SIZE && start < MAX_QUEUE_SIZE && len > 0
    ensures Cells(ring, start, len) == [ring[start]] + Cells(ring, Next(start), len - 1)
  {
    hide Next, Wrap;
    FirstCell(start);
    var all, rest := Cells(ring, start, len), Cells(ring, Next(start), len - 1);
    forall k | 0 <= k < |rest|
      ensures rest[k] == all[k + 1]
    {
      StartMoves(start, k);
    }
  }

  lemma FirstCell(start: nat)
    requires start < MAX_QUEUE_SIZE
    ensures Wrap(start + 0) == start
  {
  }

  lemma StartMoves(start: nat, k: nat)
    ensures Wrap(Next(start) + k) == Wrap(start + (k + 1))
  {
  }

  lemma EndMoves(start: nat, size: nat)
    ensures Next(Wrap(start + size)) == Wrap(start + size + 1)
  {
  }

  /** Only counting up changes the contents, by the message in flight. */
  lemma MainContents<M>(s: State<M>)
    requires Exclusive(s) && Shape(s)
    ensures Bounds(MainNext(s))
    ensures Contents(MainNext(s)) == if s.main.CountUp? then Contents(s) + [s.main.m] else Contents(s)
  {
    hide Cells;
    match s.main
    case Store(m) =>
      CellsOfStore(s.ring, s.start, s.size, m);
    case CountUp(m) =>
      CellsAppend(s.ring, s.start, s.size);
    case _ =>
  }

  lemma MainKeepsEnd<M>(s: State<M>)
    requires Exclusive(s) && Shape(s) && Bounds(MainNext(s))
    ensures EndPlaced(MainNext(s))
  {
    hide Wrap, Next, InCell;
    if s.main.AdvanceEnd? {
      EndMoves(s.start, s.size);
    }
  }

  lemma MainKeepsTested<M>(s: State<M>)
    requires Exclusive(s) && Shape(s)
    ensures Tested(MainNext(s))
  {
    hide Wrap, Next, InCell, EndPlaced;
  }

  lemma MainKeepsInCell<M>(s: State<M>)
    requires Exclusive(s) && Shape(s) && Bounds(MainNext(s))
    ensures InCell(MainNext(s))
  {
    hide Wrap, Next;
  }

  lemma MainKeepsShape<M>(s: State<M>)
    requires Exclusive(s) && Shape(s)
    ensures Shape(MainNext(s))
  {
    hide InCell, EndPlaced, Tested, MainNext, Exclusive;
    MainContents(s);
    MainKeepsEnd(s);
    MainKeepsTested(s);
    MainKeepsInCell(s);
  }

  lemma MainKeepsControl<M>(s: State<M>)
    requires Exclusive(s) && Bounds(s) && NoLostWakeup(s) && Enabled(s, MainStep)
    ensures Exclusive(MainNext(s)) && NoLostWakeup(MainNext(s))
  {
  }

  /** How a step of the main thread changes who holds which reference. */
  lemma MainRefs<M>(s: State<M>)
    requires Bounds(s)
    ensures var t := MainNext(s);
            && InHand(t) == InHand(s)
            && (s.main.CountUp? ==>
                  t.refs == s.refs && InFlight(s) == [s.main.m] && InFlight(t) == []
                  && t.accepted == s.accepted + [s.main.m])
            && (s.main.ReleaseDropped? ==>
                  t.refs == s.refs - multiset{s.main.m} && InFlight(s) == [s.main.m] && InFlight(t) == [])
            && (!s.main.CountUp? && !s.main.ReleaseDropped? ==> t.refs == s.refs && InFlight(t) == InFlight(s))
            && (!s.main.CountUp? ==> t.accepted == s.accepted)
            && t.taken == s.taken
  {
    hide Cells;
    if s.main.CountUp? || s.main.ReleaseDropped? {
    } else {
    }
  }

  lemma MainKeepsInv<M>(s: State<M>)
    requires Inv(s) && Enabled(s, MainStep)
    ensures Inv(MainNext(s))
  {
    hide Contents, Exclusive, Shape, NoLostWakeup, Enabled, InHand, InFlight, MainNext;
    ShapeBounds(s);
    MainContents(s);
    MainKeepsShape(s);
    MainKeepsControl(s);
    MainRefs(s);
    if s.main.CountUp? {
      RefsAfterCountUp(Contents(s), s.main.m, multiset(InHand(s)));
      assert s.taken + (Contents(s) + [s.main.m]) == s.taken + Contents(s) + [s.main.m];
    } else if s.main.ReleaseDropped? {
      RefsAfterRelease(multiset(Contents(s)), multiset(InHand(s)), s.main.m);
    }
  }

  lemma RefsAfterCountUp<M>(c: seq<M>, m: M, hand: multiset<M>)
    ensures multiset(c) + hand + multiset([m]) == multiset(c + [m]) + hand + multiset([])
  {
  }

  lemma RefsAfterTake<M>(c: seq<M>, m: M, flight: multiset<M>)
    ensures multiset([m] + c) + multiset([]) + flight == multiset(c) + multiset([m]) + flight
  {
  }

  lemma RefsAfterRelease<M>(a: multiset<M>, b: multiset<M>, m: M)
    ensures a + b + multiset([m]) - multiset{m} == a + b + multiset([])
    ensures a + multiset([m]) + b - multiset{m} == a + multiset([]) + b
  {
  }

  lemma ShapeBounds<M>(s: State<M>)
    requires Shape(s)
    ensures Bounds(s)
  {
  }

  /** Only moving the start changes the contents: the oldest message leaves. */
  lemma WorkerContents<M>(s: State<M>)
    requires Exclusive(s) && Shape(s)
    ensures Bounds(WorkerNext(s))
    ensures Contents(s) == if s.worker.AdvanceStart? then [s.worker.m] + Contents(WorkerNext(s)) else Contents(WorkerNext(s))
  {
    hide Cells;
    match s.worker
    case AdvanceStart(m) =>
      CellsDrop(s.ring, s.start, s.size);
    case _ =>
  }

  lemma WorkerKeepsEnd<M>(s: State<M>)
    requires Exclusive(s) && Shape(s) && Bounds(WorkerNext(s))
    ensures EndPlaced(WorkerNext(s))
  {
    hide Wrap, Next, InCell;
    if s.worker.AdvanceStart? {
      StartMoves(s.start, s.size - 1);
    }
  }

  lemma WorkerKeepsTested<M>(s: State<M>)
    requires Exclusive(s) && Shape(s)
    ensures Tested(WorkerNext(s))
  {
    hide Wrap, Next, InCell, EndPlaced;
  }

  lemma WorkerKeepsInCell<M>(s: State<M>)
    requires Exclusive(s) && Shape(s) && Bounds(WorkerNext(s))
    ensures InCell(WorkerNext(s))
  {
    hide Wrap, Next, EndPlaced, Tested;
    match s.worker
    case Fetch =>
    case AdvanceStart(m) =>
    case CountDown(m) =>
    case _ =>
  }

  lemma WorkerKeepsShape<M>(s: State<M>)
    requires Exclusive(s) && Shape(s)
    ensures Shape(WorkerNext(s))
  {
    hide InCell, EndPlaced, Tested, WorkerNext, Exclusive;
    WorkerContents(s);
    WorkerKeepsEnd(s);
    WorkerKeepsTested(s);
    WorkerKeepsInCell(s);
  }

  lemma WorkerKeepsControl<M>(s: State<M>)
    requires Exclusive(s) && Bounds(s) && NoLostWakeup(s) && Enabled(s, WorkerStep)
    ensures Exclusive(WorkerNext(s)) && NoLostWakeup(WorkerNext(s))
  {
  }

  /** How a step of the worker changes who holds which reference. */
  lemma WorkerRefs<M>(s: State<M>)
    requires Bounds(s)
    ensures var t := WorkerNext(s);
            && InFlight(t) == InFlight(s)
            && (s.worker.AdvanceStart? ==>
                  t.refs == s.refs && InHand(s) == [] && InHand(t) == [s.worker.m]
                  && t.taken == s.taken + [s.worker.m])
            && (s.worker.Release? ==>
                  t.refs == s.refs - multiset{s.worker.m} && InHand(s) == [s.worker.m] && InHand(t) == [])
            && (!s.worker.AdvanceStart? && !s.worker.Release? ==> t.refs == s.refs && InHand(t) == InHand(s))
            && (!s.worker.AdvanceStart? ==> t.taken == s.taken)
            && t.accepted == s.accepted
  {
  }

  lemma WorkerKeepsInv<M>(s: State<M>)
    requires Inv(s) && Enabled(s, WorkerStep)
    ensures Inv(WorkerNext(s))
  {
    hide Contents, Exclusive, Shape, NoLostWakeup, Enabled, InHand, InFlight, WorkerNext;
    ShapeBounds(s);
    WorkerContents(s);
    WorkerKeepsShape(s);
    WorkerKeepsControl(s);
    WorkerRefs(s);
    if s.worker.AdvanceStart? {
      var c := Contents(WorkerNext(s));
      RefsAfterTake(c, s.worker.m, multiset(InFlight(s)));
      assert s.taken + ([s.worker.m] + c) == s.taken + [s.worker.m] + c;
    } else if s.worker.Release? {
      RefsAfterRelease(multiset(Contents(s)), multiset(InFlight(s)), s.worker.m);
    }
  }

  lemma OfferKeepsInv<M>(s: State<M>, m: M)
    requires Inv(s) && Enabled(s, Offer(m))
    ensures Inv(Do(s, Offer(m)))
  {
    hide Cells, InHand;
    var t := Do(s, Offer(m));
    assert InHand(t) == InHand(s) by { SameHand(s, t); }
    assert Contents(t) == Contents(s);
    assert InFlight(s) == [] && InFlight(t) == [m];
    assert t.refs == multiset(Contents(t)) + multiset(InHand(t)) + multiset(InFlight(t));
  }

  lemma SameHand<M>(s: State<M>, t: State<M>)
    requires s.worker == t.worker || (InHand(s) == [] && t.worker.Relock?)
    ensures InHand(s) == InHand(t)
  {
  }

  lemma SpuriousKeepsInv<M>(s: State<M>)
    requires Inv(s) && Enabled(s, Spurious)
    ensures Inv(Do(s, Spurious))
  {
    hide Cells, InFlight;
    var t := Do(s, Spurious);
    assert InHand(s) == InHand(t) == [];
    assert Contents(t) == Contents(s);
    assert InFlight(t) == InFlight(s) by { SameFlight(s, t); }
    assert Accounts(t);
  }

  lemma SameFlight<M>(s: State<M>, t: State<M>)
    requires s.main == t.main
    ensures InFlight(s) == InFlight(t)
  {
  }

  /** Every step of either thread keeps the invariant. */
  lemma DoKeepsInv<M>(s: State<M>, a: Action<M>)
    requires Inv(s) && Enabled(s, a)
    ensures Inv(Do(s, a))
  {
    hide Inv, Enabled;
    match a
    case Offer(m) =>
      OfferKeepsInv(s, m);
    case MainStep =>
      MainKeepsInv(s);
    case WorkerStep =>
      WorkerKeepsInv(s);
    case Spurious =>
      SpuriousKeepsInv(s);
  }

  // ----- whole runs -----

  /** `InitializeMessageQueue`: an empty ring, whatever its cells hold. */
  function Start<M>(ring: seq<M>): State<M>
  {
    State(ring, 0, 0, 0, Nobody, Idle, WLock, [], [], [], [], multiset{})
  }

  lemma StartInv<M>(ring: seq<M>)
    requires |ring| == MAX_QUEUE_SIZE
    ensures Inv(Start(ring))
  {
  }

  /** The schedule can be carried out from s: each of its actions is enabled when its turn comes. */
  ghost predicate Possible<M>(s: State<M>, run: seq<Action<M>>)
    requires Inv(s)
    decreases |run|
  {
    run == [] || (Enabled(s, run[0]) && (DoKeepsInv(s, run[0]); Possible(Do(s, run[0]), run[1..])))
  }

  ghost function After<M>(s: State<M>, run: seq<Action<M>>): State<M>
    requires Inv(s) && Possible(s, run)
    decreases |run|
  {
    if run == [] then s else
      DoKeepsInv(s, run[0]);
      After(Do(s, run[0]), run[1..])
  }

  lemma {:induction false} InvHolds<M>(s: State<M>, run: seq<Action<M>>)
    requires Inv(s) && Possible(s, run)
    ensures Inv(After(s, run))
    decreases |run|
  {
    hide Inv, Enabled, Do;
    if run != [] {
      DoKeepsInv(s, run[0]);
      InvHolds(Do(s, run[0]), run[1..]);
    }
  }

  lemma InvMeans<M>(s: State<M>)
    requires Inv(s)
    ensures Bounds(s)
    ensures s.accepted == s.taken + Contents(s)
    ensures s.refs == multiset(Contents(s)) + multiset(InHand(s)) + multiset(InFlight(s))
    ensures s.worker.Asleep? && !s.main.Signal? ==> s.size == 0
    ensures !(MainHolds(s) && WorkerHolds(s))
  {
    hide Contents, InHand, InFlight, MainHolds, WorkerHolds;
    ShapeBounds(s);
  }

  // ----- what becomes of a message -----

  /** The messages that were counted in. */
  function AcceptedOf<M>(fates: seq<Fate<M>>): seq<M>
  {
    if fates == [] then [] else
      var last := fates[|fates| - 1];
      AcceptedOf(fates[..|fates| - 1]) + if last.Accepted? then [last.m] else []
  }

  function Messages<M>(fates: seq<Fate<M>>): seq<M>
  {
    seq(|fates|, i requires 0 <= i < |fates| => fates[i].m)
  }

  /** The message, if any, of which it is still open whether the ring takes it. */
  function Undecided<M>(s: State<M>): seq<M>
  {
    if s.main.Lock? || s.main.TestFull? || s.main.Store? || s.main.AdvanceEnd? || s.main.CountUp? then [s.main.m] else []
  }

  ghost predicate OnlyWhenFull<M>(fates: seq<Fate<M>>)
  {
    forall i :: 0 <= i < |fates| && fates[i].Dropped? ==> fates[i].held == 256
  }

  /** Every offered message was accepted, was dropped by a full ring, or is still open, in this order. */
  ghost predicate Recorded<M>(s: State<M>)
  {
    && s.offered == Messages(s.fates) + Undecided(s)
    && s.accepted == AcceptedOf(s.fates)
    && OnlyWhenFull(s.fates)
    && (s.main.UnlockFull? ==> s.size == 256)
  }

  lemma FateAdded<M>(fates: seq<Fate<M>>, f: Fate<M>)
    ensures Messages(fates + [f]) == Messages(fates) + [f.m]
    ensures AcceptedOf(fates + [f]) == AcceptedOf(fates) + if f.Accepted? then [f.m] else []
    ensures OnlyWhenFull(fates + [f]) <==> OnlyWhenFull(fates) && (f.Dropped? ==> f.held == 256)
  {
    var longer := fates + [f];
    assert longer[..|longer| - 1] == fates;
    if OnlyWhenFull(longer) {
      forall i | 0 <= i < |fates| && fates[i].Dropped?
        ensures fates[i].held == 256
      {
        assert longer[i] == fates[i];
      }
      assert longer[|fates|] == f;
    }
  }

  lemma FullRing<M>(s: State<M>)
    requires Inv(s) && s.main.TestFull?
    ensures Bounds(s) && |Contents(s)| == s.size
  {
    hide Accounts, EndPlaced, InCell, Wrap;
  }

  /** Inside the queue's code the worker cannot touch the ring. */
  lemma MainKeepsWorkerOut<M>(s: State<M>)
    requires Inv(s) && MainHolds(s) && Enabled(s, WorkerStep)
    ensures Bounds(s) && WorkerNext(s).size == s.size
  {
    hide Accounts, EndPlaced, InCell, Wrap;
  }

  lemma MainKeepsRecord<M>(s: State<M>)
    requires Inv(s) && Recorded(s) && Enabled(s, MainStep)
    ensures Bounds(s) && Recorded(MainNext(s))
  {
    hide Inv, Contents, Messages, AcceptedOf, OnlyWhenFull;
    InvParts(s);
    match s.main
    case TestFull(m) =>
      FullRing(s);
      FateAdded(s.fates, Dropped(m, |Contents(s)|));
    case CountUp(m) =>
      FateAdded(s.fates, Accepted(m));
    case _ =>
  }

  lemma DoKeepsRecord<M>(s: State<M>, a: Action<M>)
    requires Inv(s) && Recorded(s) && Enabled(s, a)
    ensures Recorded(Do(s, a))
  {
    hide Inv, Messages, AcceptedOf, OnlyWhenFull, MainNext;
    InvParts(s);
    match a
    case MainStep =>
      MainKeepsRecord(s);
    case WorkerStep =>
      if MainHolds(s) {
        MainKeepsWorkerOut(s);
      }
    case _ =>
  }

  lemma {:induction false} RecordHolds<M>(s: State<M>, run: seq<Action<M>>)
    requires Inv(s) && Recorded(s) && Possible(s, run)
    ensures Recorded(After(s, run))
    decreases |run|
  {
    hide Inv, Enabled, Do, Recorded;
    if run != [] {
      DoKeepsInv(s, run[0]);
      DoKeepsRecord(s, run[0]);
      RecordHolds(Do(s, run[0]), run[1..]);
    }
  }

  lemma StartIsRecorded<M>(ring: seq<M>)
    ensures Recorded(Start(ring))
  {
  }

  /** Safety over every interleaving from the start: first in, first out with nothing lost or repeated;
      every message offered was accepted, or dropped while the ring held 256 messages, or is still open;
      references taken and not released are those of the messages in the ring, of the one being handled
      and of the one being passed on; the worker does not sleep beside a filled ring; never are both
      threads inside the queue. */
  lemma EveryRunIsSafe<M>(ring: seq<M>, run: seq<Action<M>>)
    requires |ring| == MAX_QUEUE_SIZE
    ensures Inv(Start(ring))
    ensures Possible(Start(ring), run) ==>
      var t := After(Start(ring), run);
      && Bounds(t)
      && t.accepted == t.taken + Contents(t)
      && t.accepted == AcceptedOf(t.fates) && t.offered == Messages(t.fates) + Undecided(t) && OnlyWhenFull(t.fates)
      && t.refs == multiset(Contents(t)) + multiset(InHand(t)) + multiset(InFlight(t))
      && (t.worker.Asleep? && !t.main.Signal? ==> t.size == 0)
      && !(MainHolds(t) && WorkerHolds(t))
  {
    hide Inv, Possible, After, Bounds, Contents, InHand, InFlight, MainHolds, WorkerHolds, AcceptedOf, Messages, Undecided,
      OnlyWhenFull;
    StartInv(ring);
    StartIsRecorded(ring);
    if Possible(Start(ring), run) {
      InvHolds(Start(ring), run);
      InvMeans(After(Start(ring), run));
      RecordHolds(Start(ring), run);
    }
  }

  /** How many steps of the schedule are the main thread's. */
  function MainSteps<M>(run: seq<Action<M>>): nat
  {
    if run == [] then 0 else (if run[0].MainStep? then 1 else 0) + MainSteps(run[1..])
  }

  lemma {:induction false} FatesGrow<M>(s: State<M>, run: seq<Action<M>>)
    requires Inv(s) && Possible(s, run)
    ensures s.fates <= After(s, run).fates
    decreases |run|
  {
    hide Inv, Enabled, Do;
    if run != [] {
      DoKeepsInv(s, run[0]);
      FateGrows(s, run[0]);
      FatesGrow(Do(s, run[0]), run[1..]);
    }
  }

  lemma FateGrows<M>(s: State<M>, a: Action<M>)
    requires Inv(s) && Enabled(s, a)
    ensures s.fates <= Do(s, a).fates
  {
    hide Exclusive, Shape, Accounts, NoLostWakeup, Contents;
    ShapeBounds(s);
  }

  /** Main steps until the message that is being stored has been counted in. */
  function ToStore<M>(pc: MainPc<M>): nat
  {
    match pc
    case Store(_) => 3
    case AdvanceEnd(_) => 2
    case CountUp(_) => 1
    case _ => 0
  }

  /** One step while m is being stored. */
  lemma StoringStep<M>(s: State<M>, a: Action<M>)
    requires Inv(s) && Enabled(s, a) && ToStore(s.main) > 0
    ensures var t := Do(s, a);
            if !a.MainStep? then t.main == s.main && t.fates == s.fates
            else if s.main.CountUp? then t.fates == s.fates + [Accepted(s.main.m)]
            else t.fates == s.fates && ToStore(t.main) == ToStore(s.main) - 1 && t.main.m == s.main.m
  {
    hide Exclusive, Shape, Accounts, NoLostWakeup, Contents, Wrap, Next;
    ShapeBounds(s);
  }

  lemma {:induction false} StoredInTheEnd<M>(s: State<M>, run: seq<Action<M>>)
    requires Inv(s) && Possible(s, run) && 0 < ToStore(s.main) <= MainSteps(run)
    ensures s.fates + [Accepted(s.main.m)] <= After(s, run).fates
    decreases |run|
  {
    hide Inv, Enabled, Do, ToStore;
    DoKeepsInv(s, run[0]);
    StoringStep(s, run[0]);
    var t := Do(s, run[0]);
    if run[0].MainStep? && s.main.CountUp? {
      FatesGrow(t, run[1..]);
    } else {
      StillToStore(s.main);
      StoredInTheEnd(t, run[1..]);
    }
  }

  lemma StillToStore<M>(pc: MainPc<M>)
    requires ToStore(pc) > 0
    ensures pc.CountUp? <==> ToStore(pc) == 1
    ensures pc.Store? || pc.AdvanceEnd? || pc.CountUp?
  {
  }

  /** One step while the main thread is about to test for a full ring. */
  lemma TestStep<M>(s: State<M>, a: Action<M>)
    requires Inv(s) && Enabled(s, a) && s.main.TestFull?
    ensures Bounds(s)
    ensures var t := Do(s, a);
            if !a.MainStep? then t.main == s.main && t.fates == s.fates && t.size == s.size
            else if s.size < 256 then t.main == Store(s.main.m) && t.fates == s.fates
            else t.fates == s.fates + [Dropped(s.main.m, |Contents(s)|)]
  {
    hide Accounts, EndPlaced, InCell, Wrap, Contents;
    InvParts(s);
    if a.WorkerStep? {
      MainKeepsWorkerOut(s);
    }
  }

  /** The test decides as it should, whatever the worker does meanwhile: with fewer than 256 messages in the
      ring the message is accepted within four steps of the main thread, otherwise it is dropped. */
  lemma {:induction false} TestDecides<M>(s: State<M>, run: seq<Action<M>>)
    requires Inv(s) && Possible(s, run) && s.main.TestFull? && MainSteps(run) >= 4
    ensures Bounds(s)
    ensures s.fates + [if |Contents(s)| < 256 then Accepted(s.main.m) else Dropped(s.main.m, 256)] <= After(s, run).fates
    decreases |run|
  {
    hide Inv, Enabled, Do, Contents;
    var t := Do(s, run[0]);
    DoKeepsInv(s, run[0]);
    FullRing(s);
    TestStep(s, run[0]);
    if !run[0].MainStep? {
      FullRing(t);
      TestDecides(t, run[1..]);
    } else if s.size < 256 {
      StoredInTheEnd(t, run[1..]);
    } else {
      SizeBound(s);
      FatesGrow(t, run[1..]);
    }
  }

  /** One step while the main thread waits for the mutex. */
  lemma LockStep<M>(s: State<M>, a: Action<M>)
    requires Inv(s) && Enabled(s, a) && s.main.Lock?
    ensures var t := Do(s, a);
            t.fates == s.fates && t.main == if a.MainStep? then TestFull(s.main.m) else s.main
  {
    hide Exclusive, Shape, Accounts, NoLostWakeup, Contents;
    ShapeBounds(s);
  }

  lemma {:induction false} DecidedFromLock<M>(s: State<M>, run: seq<Action<M>>)
    requires Inv(s) && Possible(s, run) && s.main.Lock? && MainSteps(run) >= 5
    ensures |After(s, run).fates| > |s.fates| && After(s, run).fates[|s.fates|].m == s.main.m
    decreases |run|
  {
    hide Inv, Enabled, Do, Contents;
    var t := Do(s, run[0]);
    DoKeepsInv(s, run[0]);
    LockStep(s, run[0]);
    if run[0].MainStep? {
      TestDecides(t, run[1..]);
    } else {
      DecidedFromLock(t, run[1..]);
    }
  }

  /** An idle main thread takes any message, and five of its steps later it is decided whether the ring has it. */
  lemma OfferIsDecided<M>(s: State<M>, m: M, run: seq<Action<M>>)
    requires Inv(s) && s.main.Idle?
    ensures Enabled(s, Offer(m)) && Inv(Do(s, Offer(m)))
    ensures var t := Do(s, Offer(m));
            Possible(t, run) && MainSteps(run) >= 5 ==>
              |After(t, run).fates| > |s.fates| && After(t, run).fates[|s.fates|].m == m
  {
    hide Inv, Possible, After;
    DoKeepsInv(s, Offer(m));
    var t := Do(s, Offer(m));
    if Possible(t, run) && MainSteps(run) >= 5 {
      DecidedFromLock(t, run);
    }
  }

  lemma SizeBound<M>(s: State<M>)
    requires Inv(s)
    ensures s.size <= 256
  {
    hide Accounts, Exclusive, EndPlaced, InCell, Tested, NoLostWakeup;
  }

  // ----- progress -----

  function MainRank<M>(pc: MainPc<M>): nat
  {
    match pc
    case Idle => 0
    case Lock(_) => 8
    case TestFull(_) => 7
    case Store(_) => 6
    case AdvanceEnd(_) => 5
    case CountUp(_) => 4
    case Signal => 3
    case Unlock => 1
    case UnlockFull(_) => 2
    case ReleaseDropped(_) => 1
  }

  function WorkerRank<M>(pc: WorkerPc<M>): nat
  {
    match pc
    case CountDown(_) => 9
    case WUnlock(_) => 8
    case Handle(_) => 7
    case Release(_) => 6
    case WLock => 5
    case Asleep => 5
    case Relock => 4
    case TestEmpty => 3
    case Fetch => 2
    case AdvanceStart(_) => 1
  }

  /** Steps that may still pass before the worker takes the next message. */
  function Rank<M>(s: State<M>): nat
  {
    MainRank(s.main) + WorkerRank(s.worker)
  }

  /** While the ring holds a message there is always a thread that can move. */
  lemma NeverStuck<M>(s: State<M>)
    requires Inv(s) && Length(s) > 0
    ensures Enabled(s, MainStep) || Enabled(s, WorkerStep)
  {
    hide Contents;
  }

  lemma MainProgress<M>(s: State<M>)
    requires Inv(s) && Length(s) > 0 && Enabled(s, MainStep)
    ensures var t := MainNext(s);
            t.taken == s.taken && MainRank(t.main) < MainRank(s.main) - (if s.main.Signal? then 1 else 0)
            && WorkerRank(t.worker) <= WorkerRank(s.worker) && Length(t) > 0
  {
    hide Contents, InHand, InFlight, Cells, EndPlaced, InCell, Wrap, Next, Exclusive;
    InvParts(s);
    match s.main
    case Signal =>
    case CountUp(m) =>
    case _ =>
  }

  lemma WorkerProgress<M>(s: State<M>)
    requires Inv(s) && Length(s) > 0 && Enabled(s, WorkerStep)
    ensures var t := WorkerNext(s);
            t.main == s.main &&
            (|t.taken| > |s.taken| ||
              (t.taken == s.taken && WorkerRank(t.worker) < WorkerRank(s.worker) && Length(t) > 0))
  {
    hide Contents, InHand, InFlight, Cells, EndPlaced, InCell, Wrap, Next, Exclusive;
    InvParts(s);
    match s.worker
    case TestEmpty =>
    case CountDown(m) =>
    case AdvanceStart(m) =>
    case _ =>
  }

  lemma InvParts<M>(s: State<M>)
    requires Inv(s)
    ensures Bounds(s) && EndPlaced(s) && Tested(s) && InCell(s)
  {
    hide Accounts, Exclusive, NoLostWakeup, EndPlaced, Tested, InCell, Bounds;
  }

  /** And every step of a thread brings the next message closer to being taken, or takes it. */
  lemma StepMakesProgress<M>(s: State<M>, a: Action<M>)
    requires Inv(s) && Length(s) > 0 && Enabled(s, a) && !a.Offer?
    ensures var t := Do(s, a);
            |t.taken| > |s.taken| || (t.taken == s.taken && Rank(t) < Rank(s) && Length(t) > 0)
  {
    hide Inv, MainNext, WorkerNext, Length, MainRank;
    match a
    case MainStep =>
      MainProgress(s);
    case WorkerStep =>
      WorkerProgress(s);
    case Spurious =>
      SpuriousProgress(s);
  }

  lemma SpuriousProgress<M>(s: State<M>)
    requires Inv(s) && Enabled(s, Spurious)
    ensures var t := Do(s, Spurious);
            t.taken == s.taken && t.main == s.main && WorkerRank(t.worker) < WorkerRank(s.worker) && Length(t) == Length(s)
  {
    hide Inv;
  }

  /** Without new work for the main thread, no schedule of more than Rank(s) steps, at most 17, goes by
      without a message being taken, whichever threads its steps belong to. */
  lemma {:induction false} TakenBySomeSchedule<M>(s: State<M>, run: seq<Action<M>>)
    requires Inv(s) && Length(s) > 0 && Possible(s, run)
    requires forall a :: a in run ==> !a.Offer?
    requires |run| > Rank(s)
    ensures Rank(s) <= 17
    ensures |After(s, run).taken| > |s.taken|
    decreases |run|
  {
    hide Enabled, Do, Inv, Length;
    DoKeepsInv(s, run[0]);
    StepMakesProgress(s, run[0]);
    var t := Do(s, run[0]);
    if |t.taken| > |s.taken| {
      OnlyGrows(t, run[1..]);
    } else {
      TakenBySomeSchedule(t, run[1..]);
    }
  }

  /** How many steps of the schedule are the worker's. */
  function WorkerSteps<M>(run: seq<Action<M>>): nat
  {
    if run == [] then 0 else (if run[0].WorkerStep? then 1 else 0) + WorkerSteps(run[1..])
  }

  /** Worker steps that may pass before `target` messages have been taken: nine a message. */
  function Needed<M>(s: State<M>, target: nat): nat
  {
    if target <= |s.taken| then 0 else WorkerRank(s.worker) + 9 * (target - |s.taken| - 1)
  }

  lemma RingNotEmpty<M>(s: State<M>)
    requires Inv(s) && |s.taken| < |s.accepted|
    ensures Length(s) > 0
  {
    hide Exclusive, Shape, InHand, InFlight;
    ShapeBounds(s);
    assert |s.accepted| == |s.taken| + |Contents(s)|;
  }

  /** What a step of any kind does to the worker's distance from the next message. */
  lemma StepAdvances<M>(s: State<M>, a: Action<M>)
    requires Inv(s) && Enabled(s, a)
    ensures var t := Do(s, a);
            && (t.taken == s.taken ||
                  (a.WorkerStep? && |t.taken| == |s.taken| + 1 && s.worker.AdvanceStart? && t.worker.CountDown?))
            && (t.taken == s.taken && Length(s) > 0 && a.WorkerStep? ==>
                  WorkerRank(t.worker) < WorkerRank(s.worker))
            && (!a.WorkerStep? ==> WorkerRank(t.worker) <= WorkerRank(s.worker))
  {
    hide Contents, InHand, InFlight, Cells;
    if a.WorkerStep? {
    } else {
    }
  }

  lemma Grows<M>(s: State<M>, a: Action<M>)
    requires Inv(s) && Enabled(s, a)
    ensures s.taken <= Do(s, a).taken && s.accepted <= Do(s, a).accepted
  {
    hide Exclusive, Shape, Accounts;
    ShapeBounds(s);
  }

  lemma {:induction false} OnlyGrows<M>(s: State<M>, run: seq<Action<M>>)
    requires Inv(s) && Possible(s, run)
    ensures s.taken <= After(s, run).taken && s.accepted <= After(s, run).accepted
    decreases |run|
  {
    hide Inv, Enabled, Do;
    if run != [] {
      DoKeepsInv(s, run[0]);
      Grows(s, run[0]);
      OnlyGrows(Do(s, run[0]), run[1..]);
    }
  }

  lemma {:induction false} EnoughSteps<M>(s: State<M>, run: seq<Action<M>>, target: nat)
    requires Inv(s) && Possible(s, run)
    requires target <= |s.accepted| && WorkerSteps(run) >= Needed(s, target)
    ensures |After(s, run).taken| >= target
    decreases |run|
  {
    hide Inv, Enabled, Do, Length;
    if run != [] && target > |s.taken| {
      var t := Do(s, run[0]);
      DoKeepsInv(s, run[0]);
      Grows(s, run[0]);
      RingNotEmpty(s);
      StepAdvances(s, run[0]);
      EnoughSteps(t, run[1..], target);
    } else if target <= |s.taken| {
      OnlyGrows(s, run);
    }
  }

  /** Whatever is offered in between and however the steps interleave: the first `target` of the accepted
      messages have all been taken, in order, once the worker has made nine steps for each. */
  lemma MessageIsTaken<M>(s: State<M>, run: seq<Action<M>>, target: nat)
    requires Inv(s) && Possible(s, run)
    requires target <= |s.accepted|
    requires WorkerSteps(run) >= 9 * (target - |s.taken|)
    ensures s.accepted[..target] <= After(s, run).taken
  {
    hide Inv, Possible, After, Bounds, Contents, InHand, InFlight, MainHolds, WorkerHolds;
    EnoughSteps(s, run, target);
    OnlyGrows(s, run);
    InvHolds(s, run);
    InvMeans(After(s, run));
  }
}
