/**
 What the wake-ups are for: from every reachable state of the ring, and without any spurious wake-up, the blocks
 in the ring can all be taken and a further block can be put.
 */
module RingProgress {
  import opened RingProtocol

  /** A run without spurious wake-ups. */
  ghost predicate Clean(s: State, acts: seq<Action>, t: State) {
    Run(s, acts, t) && forall k :: 0 <= k < |acts| ==> !acts[k].Spurious?
  }

  lemma Stay(s: State)
    ensures Clean(s, [], s)
  {
  }

  lemma CleanCons(s: State, a: Action, rest: seq<Action>, t: State)
    requires Enabled(s, a) && !a.Spurious? && Clean(Apply(s, a), rest, t)
    ensures Clean(s, [a] + rest, t)
  {
    assert ([a] + rest)[1..] == rest;
  }

  lemma {:induction false} CleanConcat(s: State, a: seq<Action>, u: State, b: seq<Action>, t: State)
    requires Clean(s, a, u) && Clean(u, b, t)
    ensures Clean(s, a + b, t)
    decreases |a|
  {
    if a == [] {
      assert [] + b == b;
    } else {
      CleanConcat(Apply(s, a[0]), a[1..], u, b, t);
      CleanCons(s, a[0], a[1..] + b, t);
      assert [a[0]] + (a[1..] + b) == a + b;
    }
  }

  lemma TwoSteps(s: State, a: Action, b: Action, t: State)
    requires Enabled(s, a) && !a.Spurious? && Enabled(Apply(s, a), b) && !b.Spurious?
    requires t == Apply(Apply(s, a), b)
    ensures Clean(s, [a] + ([b] + []), t)
  {
    Stay(t);
    CleanCons(Apply(s, a), b, [], t);
    CleanCons(s, a, [b] + [], t);
  }

  /** Reachable and with a consumer, and nobody inside. */
  predicate Resting(s: State) { Inv(s) && s.lock.Free? && s.consumers.Keys != {} }

  /** Whoever is inside leaves. */
  lemma LetGo(s: State, b: Block) returns (acts: seq<Action>, t: State)
    requires Inv(s) && s.consumers.Keys != {}
    ensures Clean(s, acts, t) && Resting(t) && s.put <= t.put
  {
    if s.lock.Free? {
      acts, t := [], s;
    } else {
      var x := s.lock.t;
      assert Inside(s.PcOf(x));
      if s.PcOf(x).Leaving? || s.MustWait(x) {
        var a := if s.PcOf(x).Leaving? then Release(x) else Wait(x);
        t := Apply(s, a);
        Stay(t);
        CleanCons(s, a, [], t);
        acts := [a] + [];
      } else {
        var a := if x.Producer? then PutBlock(b, WaitingConsumers(s)) else GetBlock(x.id);
        t := Apply(Apply(s, a), Release(x));
        TwoSteps(s, a, Release(x), t);
        acts := [a] + ([Release(x)] + []);
      }
    }
    RunKeeps(s, acts, t);
  }

  /** A ring that holds a block has a consumer that is not asleep. */
  lemma SomeoneTakes(s: State) returns (c: nat)
    requires Resting(s) && s.queue != []
    ensures c in s.consumers && (s.consumers[c].Outside? || s.consumers[c].Woken?)
  {
    if WaitingConsumers(s) != {} {
      assert WokenConsumers(s) != {};
      c :| c in WokenConsumers(s);
    } else {
      c :| c in s.consumers.Keys;
      assert c !in WaitingConsumers(s);
    }
  }

  /** It takes the oldest block. */
  lemma TakeOne(s: State) returns (acts: seq<Action>, t: State, c: nat)
    requires Resting(s) && s.queue != []
    ensures Clean(s, acts, t) && Resting(t) && c in s.consumers
    ensures t.queue == s.queue[1..] && t.taken == s.taken + [(c, s.queue[0])]
    ensures t.put == s.put && t.capacity == s.capacity && t.producer != Waiting
  {
    c := SomeoneTakes(s);
    var s1 := Apply(s, Acquire(Consumer(c)));
    var s2 := Apply(s1, GetBlock(c));
    t := Apply(s2, Release(Consumer(c)));
    TwoSteps(s1, GetBlock(c), Release(Consumer(c)), t);
    CleanCons(s, Acquire(Consumer(c)), [GetBlock(c)] + ([Release(Consumer(c))] + []), t);
    acts := [Acquire(Consumer(c))] + ([GetBlock(c)] + ([Release(Consumer(c))] + []));
    RunKeeps(s, acts, t);
  }

  lemma {:induction false} TakeAll(s: State) returns (acts: seq<Action>, t: State)
    requires Resting(s)
    ensures Clean(s, acts, t) && Resting(t) && t.queue == [] && t.put == s.put
    decreases |s.queue|
  {
    if s.queue == [] {
      acts, t := [], s;
    } else {
      var first, u, c := TakeOne(s);
      var rest;
      rest, t := TakeAll(u);
      CleanConcat(s, first, u, rest, t);
      acts := first + rest;
    }
  }

  /** A ring with room lets the producer in. */
  lemma PutOne(s: State, b: Block) returns (acts: seq<Action>, t: State)
    requires Resting(s) && |s.queue| < s.capacity
    ensures Clean(s, acts, t) && Resting(t) && t.put == s.put + [b] && t.queue == s.queue + [b]
  {
    var s1 := Apply(s, Acquire(Producer));
    var put := PutBlock(b, WaitingConsumers(s1));
    t := Apply(Apply(s1, put), Release(Producer));
    TwoSteps(s1, put, Release(Producer), t);
    CleanCons(s, Acquire(Producer), [put] + ([Release(Producer)] + []), t);
    acts := [Acquire(Producer)] + ([put] + ([Release(Producer)] + []));
    RunKeeps(s, acts, t);
  }

  /**
   From every reachable state, all that has been put can be taken: whoever is inside leaves, and the consumers
   that are awake empty the ring.
   */
  lemma AllCanBeTaken(s: State, before: seq<Action>, u: State) returns (acts: seq<Action>, t: State)
    requires Init(s) && Run(s, before, u) && s.consumers.Keys != {}
    ensures Clean(u, acts, t) && t.queue == [] && Blocks(t.taken) == t.put && u.put <= t.put
  {
    InitInv(s);
    RunKeeps(s, before, u);
    var first, v := LetGo(u, []);
    var rest;
    rest, t := TakeAll(v);
    CleanConcat(u, first, v, rest, t);
    acts := first + rest;
    assert Blocks(t.taken) + [] == Blocks(t.taken);
  }

  /** From every reachable state, any further block can be put: a full ring gives up a block first, and that
      wakes the producer. */
  lemma AnyCanBePut(s: State, before: seq<Action>, u: State, b: Block)
    returns (acts: seq<Action>, t: State, p: seq<Block>)
    requires Init(s) && Run(s, before, u) && s.consumers.Keys != {}
    ensures Clean(u, acts, t) && u.put <= p && t.put == p + [b]
  {
    InitInv(s);
    RunKeeps(s, before, u);
    var first, v := LetGo(u, []);
    if |v.queue| == v.capacity {
      var more, w, c := TakeOne(v);
      CleanConcat(u, first, v, more, w);
      first, v := first + more, w;
    }
    var rest;
    rest, t := PutOne(v, b);
    CleanConcat(u, first, v, rest, t);
    acts, p := first + rest, v.put;
  }
}
