/**
 The ring under its mutex and two condition variables: one producer, any number of consumers,
 every interleaving, spurious wake-ups included.  `pthread_cond_wait` gives the lock up and
 waits in one step; `pthread_cond_signal` wakes at least one waiter if there is any.
 */
module RingProtocol {
  import opened RingBuffer

  type Block = seq<Half>

  datatype Pc =
    | Outside                 // not in the ring code
    | Holding(woken: bool)    // has the lock and is about to test its condition
    | Waiting                 // in pthread_cond_wait, not signalled
    | Woken                   // signalled (or spuriously awake), needs the lock to test again
    | Leaving                 // block moved and partner signalled, about to unlock

  datatype Thread = Producer | Consumer(id: nat)

  datatype Lock = Free | HeldBy(t: Thread)

  datatype State = State(
    capacity: nat,
    lock: Lock,
    producer: Pc,
    consumers: map<nat, Pc>,
    queue: seq<Block>,
    put: seq<Block>,                  // every block put so far
    taken: seq<(nat, Block)>)         // every block taken so far, and by whom
  {
    predicate Has(t: Thread) { t.Producer? || t.id in consumers }

    function PcOf(t: Thread): Pc
      requires Has(t)
    {
      if t.Producer? then producer else consumers[t.id]
    }

    function With(t: Thread, pc: Pc): State
      requires Has(t)
    {
      if t.Producer? then this.(producer := pc) else this.(consumers := consumers[t.id := pc])
    }

    /** The condition of the thread's `while` loop. */
    predicate MustWait(t: Thread) {
      if t.Producer? then |queue| == capacity else queue == []
    }
  }

  datatype Action =
    | Acquire(t: Thread)
    | Wait(t: Thread)
    | PutBlock(b: Block, wake: set<nat>)
    | GetBlock(id: nat)
    | Release(t: Thread)
    | Spurious(t: Thread)

  function WaitingConsumers(s: State): set<nat> { set c | c in s.consumers && s.consumers[c] == Waiting }

  predicate Enabled(s: State, a: Action) {
    match a
    case Acquire(t) => s.Has(t) && s.lock.Free? && (s.PcOf(t).Outside? || s.PcOf(t).Woken?)
    case Wait(t) => s.Has(t) && s.PcOf(t).Holding? && s.MustWait(t)
    case PutBlock(b, wake) =>
      && s.producer.Holding? && !s.MustWait(Producer)
      && wake <= WaitingConsumers(s) && (WaitingConsumers(s) != {} ==> wake != {})
    case GetBlock(id) => id in s.consumers && s.consumers[id].Holding? && !s.MustWait(Consumer(id))
    case Release(t) => s.Has(t) && s.PcOf(t).Leaving?
    case Spurious(t) => s.Has(t) && s.PcOf(t).Waiting?
  }

  function Wake(cs: map<nat, Pc>, wake: set<nat>): (r: map<nat, Pc>)
    ensures r.Keys == cs.Keys
    ensures forall c :: c in cs ==> r[c] == if c in wake then Woken else cs[c]
  {
    map c | c in cs :: if c in wake then Woken else cs[c]
  }

  function Apply(s: State, a: Action): State
    requires Enabled(s, a)
  {
    match a
    case Acquire(t) => s.With(t, Holding(s.PcOf(t).Woken?)).(lock := HeldBy(t))
    case Wait(t) => s.With(t, Waiting).(lock := Free)
    case PutBlock(b, wake) =>
      s.(queue := s.queue + [b], put := s.put + [b], producer := Leaving, consumers := Wake(s.consumers, wake))
    case GetBlock(id) =>
      s.(queue := s.queue[1..], taken := s.taken + [(id, s.queue[0])],
         consumers := s.consumers[id := Leaving],
         producer := if s.producer == Waiting then Woken else s.producer)
    case Release(t) => s.With(t, Outside).(lock := Free)
    case Spurious(t) => s.With(t, Woken)
  }

  predicate Init(s: State) {
    && s.capacity > 0 && s.lock == Free && s.producer == Outside
    && (forall c :: c in s.consumers ==> s.consumers[c] == Outside)
    && s.queue == [] && s.put == [] && s.taken == []
  }

  // ---- The invariant ----

  predicate Inside(pc: Pc) { pc.Holding? || pc.Leaving? }

  /** Consumers woken from a wait that have not looked at the ring since. */
  function WokenConsumers(s: State): set<nat> {
    set c | c in s.consumers && (s.consumers[c] == Woken || s.consumers[c] == Holding(true))
  }

  function Blocks(taken: seq<(nat, Block)>): (r: seq<Block>)
    ensures |r| == |taken|
  {
    seq(|taken|, i requires 0 <= i < |taken| => taken[i].1)
  }

  /** The lock is held by exactly the one thread that is inside. */
  predicate LockInv(s: State) {
    && (s.lock.HeldBy? ==> s.Has(s.lock.t))
    && (Inside(s.producer) <==> s.lock == HeldBy(Producer))
    && (forall c :: c in s.consumers ==> (Inside(s.consumers[c]) <==> s.lock == HeldBy(Consumer(c))))
  }

  /** No wake-up is lost. */
  predicate WakeInv(s: State) {
    && (s.producer == Waiting ==> |s.queue| == s.capacity)
    && (WaitingConsumers(s) != {} ==> |s.queue| <= |WokenConsumers(s)|)
  }

  predicate FifoInv(s: State) {
    |s.queue| <= s.capacity && Blocks(s.taken) + s.queue == s.put
  }

  predicate Inv(s: State) { s.capacity > 0 && LockInv(s) && WakeInv(s) && FifoInv(s) }

  lemma Subset(a: set<nat>, b: set<nat>)
    requires a <= b
    ensures |a| <= |b|
    decreases b
  {
    if a != {} {
      var x :| x in a;
      Subset(a - {x}, b - {x});
    }
  }

  lemma LockKept(s: State, a: Action)
    requires Inv(s) && Enabled(s, a)
    ensures LockInv(Apply(s, a))
  {
  }

  lemma BlocksPush(taken: seq<(nat, Block)>, id: nat, b: Block)
    ensures Blocks(taken + [(id, b)]) == Blocks(taken) + [b]
  {
  }

  lemma FifoKept(s: State, a: Action)
    requires Inv(s) && Enabled(s, a)
    ensures FifoInv(Apply(s, a))
  {
    match a {
      case PutBlock(b, wake) =>
        assert Blocks(s.taken) + (s.queue + [b]) == Blocks(s.taken) + s.queue + [b];
      case GetBlock(id) =>
        BlocksPush(s.taken, id, s.queue[0]);
        assert Blocks(s.taken) + [s.queue[0]] + s.queue[1..] == Blocks(s.taken) + s.queue;
      case _ =>
    }
  }

  lemma WakeKeptByPut(s: State, b: Block, wake: set<nat>)
    requires Inv(s) && Enabled(s, PutBlock(b, wake))
    ensures WakeInv(Apply(s, PutBlock(b, wake)))
  {
    var t := Apply(s, PutBlock(b, wake));
    if WaitingConsumers(t) != {} {
      var c :| c in WaitingConsumers(t);
      assert c in WaitingConsumers(s);
      assert WokenConsumers(t) == WokenConsumers(s) + wake;
      assert WokenConsumers(s) !! wake;
    }
  }

  lemma WakeKeptByGet(s: State, id: nat)
    requires Inv(s) && Enabled(s, GetBlock(id))
    ensures WakeInv(Apply(s, GetBlock(id)))
  {
    var t := Apply(s, GetBlock(id));
    if WaitingConsumers(t) != {} {
      var c :| c in WaitingConsumers(t);
      assert c in WaitingConsumers(s);
      assert WokenConsumers(t) == WokenConsumers(s) - {id};
    }
  }

  lemma WakeKept(s: State, a: Action)
    requires Inv(s) && Enabled(s, a)
    ensures WakeInv(Apply(s, a))
  {
    match a {
      case PutBlock(b, wake) => WakeKeptByPut(s, b, wake);
      case GetBlock(id) => WakeKeptByGet(s, id);
      case _ =>
        var t := Apply(s, a);
        if WaitingConsumers(t) != {} && s.queue != [] {
          var c :| c in WaitingConsumers(t);
          assert c in WaitingConsumers(s);
          Subset(WokenConsumers(s), WokenConsumers(t));
        }
    }
  }

  // ---- Runs ----

  ghost predicate Run(s: State, acts: seq<Action>, t: State)
    decreases |acts|
  {
    if acts == [] then t == s
    else Enabled(s, acts[0]) && Run(Apply(s, acts[0]), acts[1..], t)
  }

  lemma {:induction false} RunKeeps(s: State, acts: seq<Action>, t: State)
    requires Inv(s) && Run(s, acts, t)
    ensures Inv(t) && t.consumers.Keys == s.consumers.Keys
    decreases |acts|
  {
    if acts != [] {
      LockKept(s, acts[0]);
      WakeKept(s, acts[0]);
      FifoKept(s, acts[0]);
      assert Apply(s, acts[0]).consumers.Keys == s.consumers.Keys;
      RunKeeps(Apply(s, acts[0]), acts[1..], t);
    }
  }

  lemma InitInv(s: State)
    requires Init(s)
    ensures Inv(s)
  {
  }

  /** Over any run, the blocks taken -- merged over all consumers -- are a prefix of the blocks put, in
      order and each exactly once; the rest is what the ring holds, never more than its capacity. */
  lemma TakenIsPrefixOfPut(s: State, acts: seq<Action>, t: State)
    requires Init(s) && Run(s, acts, t)
    ensures Blocks(t.taken) <= t.put && t.put[|t.taken|..] == t.queue && |t.queue| <= t.capacity
  {
    InitInv(s);
    RunKeeps(s, acts, t);
  }

  /** No lost wake-up: an unsignalled producer has nothing to do, and unsignalled consumers leave no
      block without a woken consumer to take it. */
  lemma NoLostWakeup(s: State, acts: seq<Action>, t: State)
    requires Init(s) && Run(s, acts, t)
    ensures t.producer == Waiting ==> |t.queue| == t.capacity
    ensures WaitingConsumers(t) != {} ==> |t.queue| <= |WokenConsumers(t)|
  {
    InitInv(s);
    RunKeeps(s, acts, t);
  }

  /** At most one thread is inside the critical sections. */
  lemma MutualExclusion(s: State, acts: seq<Action>, t: State, x: Thread, y: Thread)
    requires Init(s) && Run(s, acts, t) && t.Has(x) && t.Has(y)
    requires Inside(t.PcOf(x)) && Inside(t.PcOf(y))
    ensures x == y
  {
    InitInv(s);
    RunKeeps(s, acts, t);
  }

  /** The producer and the consumers are never all stuck: some step other than a spurious wake-up is enabled. */
  lemma NeverStuck(s: State, acts: seq<Action>, t: State)
    requires Init(s) && Run(s, acts, t) && s.consumers.Keys != {}
    ensures exists a :: Enabled(t, a) && !a.Spurious?
  {
    InitInv(s);
    RunKeeps(s, acts, t);
    if t.lock.HeldBy? {
      InsideCanMove(t, t.lock.t);
    } else if t.producer.Outside? || t.producer.Woken? {
      assert Enabled(t, Acquire(Producer));
    } else {
      var c := SomeConsumerAwake(t);
      assert Enabled(t, Acquire(Consumer(c)));
    }
  }

  lemma InsideCanMove(s: State, x: Thread)
    requires Inv(s) && s.Has(x) && s.lock == HeldBy(x)
    ensures exists a :: Enabled(s, a) && !a.Spurious?
  {
    assert Inside(s.PcOf(x));
    if s.PcOf(x).Leaving? {
      assert Enabled(s, Release(x));
    } else if s.MustWait(x) {
      assert Enabled(s, Wait(x));
    } else if x.Producer? {
      assert Enabled(s, PutBlock([], WaitingConsumers(s)));
    } else {
      assert Enabled(s, GetBlock(x.id));
    }
  }

  /** With the lock free and the producer waiting, a consumer is outside or woken. */
  lemma SomeConsumerAwake(s: State) returns (c: nat)
    requires Inv(s) && s.lock.Free? && s.producer == Waiting && s.consumers.Keys != {}
    ensures c in s.consumers && (s.consumers[c].Outside? || s.consumers[c].Woken?)
  {
    if WaitingConsumers(s) != {} {
      assert WokenConsumers(s) != {};
      c :| c in WokenConsumers(s);
    } else {
      c :| c in s.consumers.Keys;
      assert c !in WaitingConsumers(s);
    }
  }
}
