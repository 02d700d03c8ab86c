/**
 Several clients on one ring: every block goes to one of them, and each numbers the scaler blocks it gets by
 the run ends it gets.  One client alone numbers each run from 0; with two, the run end may go to the other.
 */
module Clients {
  import opened Basics
  import opened RingBuffer
  import opened RingProtocol
  import opened ScalerBlocks
  import RunControl

  // ---- One client ----

  /** The words of the blocks that the collector emits. */
  predicate Encodes(bs: seq<seq<Half>>, stream: seq<RunControl.Block>) {
    && |bs| == |stream|
    && forall k :: 0 <= k < |bs| ==>
         && |bs[k]| == BLK_BUF_SIZE
         && (IsScaler(bs[k]) <==> stream[k].Scaler?) && (IsRunEnd(bs[k]) <==> stream[k].End?)
  }

  /** Scaler blocks of the stream between places `from` and `k`. */
  function ScalersIn(stream: seq<RunControl.Block>, from: nat, k: nat): set<nat>
    requires k <= |stream|
  {
    set i: nat | from <= i < k && stream[i].Scaler?
  }

  /**
   Whatever stream the collector emits, a client that takes all of it reads at each scaler block the number of
   scaler blocks sent before it since the last End (modulo 2^16).
   */
  lemma SoleClientNumbersTheRun(stream: seq<RunControl.Block>, bs: seq<seq<Half>>, from: nat, k: nat)
    requires Encodes(bs, stream) && from <= k < |bs| && stream[k].Scaler?
    requires (from == 0 || stream[from - 1].End?) && forall i :: from <= i < k ==> !stream[i].End?
    ensures Decode(Sent(bs, k)).Some?
    ensures Decode(Sent(bs, k)).value.number == |ScalersIn(stream, from, k)| % 0x1_0000
  {
    ClientReadsScalers(bs, k);
    ScalersSinceEndCounts(bs, from, k);
    assert ScalerPlaces(bs, from, k) == ScalersIn(stream, from, k);
  }

  // ---- Two clients ----

  /** What one client has taken. */
  function Share(taken: seq<(nat, Block)>, id: nat): seq<Block> {
    if taken == [] then []
    else
      var n := |taken| - 1;
      Share(taken[..n], id) + if taken[n].0 == id then [taken[n].1] else []
  }

  /** Nobody is in the ring code. */
  predicate Quiet(s: State) {
    s.lock == Free && s.producer == Outside && forall c :: c in s.consumers ==> s.consumers[c] == Outside
  }

  lemma RunCons(s: State, a: Action, rest: seq<Action>, t: State)
    requires Enabled(s, a) && Run(Apply(s, a), rest, t)
    ensures Run(s, [a] + rest, t)
  {
    assert ([a] + rest)[1..] == rest;
  }

  lemma ThreeThen(s: State, a: Action, b: Action, c: Action, rest: seq<Action>, t: State) returns (acts: seq<Action>)
    requires Enabled(s, a) && Enabled(Apply(s, a), b) && Enabled(Apply(Apply(s, a), b), c)
    requires Run(Apply(Apply(Apply(s, a), b), c), rest, t)
    ensures Run(s, acts, t)
  {
    var s1 := Apply(s, a);
    var s2 := Apply(s1, b);
    RunCons(s2, c, rest, t);
    RunCons(s1, b, [c] + rest, t);
    RunCons(s, a, [b] + ([c] + rest), t);
    acts := [a] + ([b] + ([c] + rest));
  }

  lemma PutThen(s: State, b: Block, rest: seq<Action>, t: State) returns (acts: seq<Action>)
    requires Quiet(s) && |s.queue| < s.capacity
    requires Run(s.(queue := s.queue + [b], put := s.put + [b]), rest, t)
    ensures Run(s, acts, t)
  {
    var s1 := Apply(s, Acquire(Producer));
    assert WaitingConsumers(s1) == {};
    var s2 := Apply(s1, PutBlock(b, {}));
    assert s2.consumers == s.consumers;
    assert Apply(s2, Release(Producer)) == s.(queue := s.queue + [b], put := s.put + [b]);
    acts := ThreeThen(s, Acquire(Producer), PutBlock(b, {}), Release(Producer), rest, t);
  }

  lemma GetThen(s: State, id: nat, b: Block, rest: seq<Action>, t: State) returns (acts: seq<Action>)
    requires Quiet(s) && id in s.consumers && s.queue == [b]
    requires Run(s.(queue := [], taken := s.taken + [(id, b)]), rest, t)
    ensures Run(s, acts, t)
  {
    var s1 := Apply(s, Acquire(Consumer(id)));
    var s2 := Apply(s1, GetBlock(id));
    var s3 := Apply(s2, Release(Consumer(id)));
    assert s3.consumers == s.consumers;
    assert s3 == s.(queue := [], taken := s.taken + [(id, b)]);
    acts := ThreeThen(s, Acquire(Consumer(id)), GetBlock(id), Release(Consumer(id)), rest, t);
  }

  /** One block put and taken by client `id` at once. */
  lemma PassThen(s: State, id: nat, b: Block, rest: seq<Action>, t: State) returns (acts: seq<Action>)
    requires Quiet(s) && id in s.consumers && s.queue == [] && s.capacity > 0
    requires Run(s.(put := s.put + [b], taken := s.taken + [(id, b)]), rest, t)
    ensures Run(s, acts, t)
  {
    var s1 := s.(queue := s.queue + [b], put := s.put + [b]);
    assert s1.queue == [b];
    assert s1.(queue := [], taken := s1.taken + [(id, b)]) == s.(put := s.put + [b], taken := s.taken + [(id, b)]);
    var more := GetThen(s1, id, b, rest, t);
    acts := PutThen(s, b, more, t);
  }

  /** A run of the ring in which client 0 takes the first and the third block and client 1 the second. */
  lemma TwoClientsShare(s: State, a: Block, b: Block, c: Block) returns (acts: seq<Action>, t: State)
    requires Init(s) && 0 in s.consumers && 1 in s.consumers
    ensures Run(s, acts, t) && t.put == [a, b, c] && Share(t.taken, 0) == [a, c] && Share(t.taken, 1) == [b]
  {
    var s1 := s.(put := s.put + [a], taken := s.taken + [(0, a)]);
    var s2 := s1.(put := s1.put + [b], taken := s1.taken + [(1, b)]);
    t := s2.(put := s2.put + [c], taken := s2.taken + [(0, c)]);
    var last := PassThen(s2, 0, c, [], t);
    var middle := PassThen(s1, 1, b, last, t);
    acts := PassThen(s, 0, a, middle, t);
    ShareOfThree(t.taken, a, b, c);
  }

  lemma ShareOfThree(taken: seq<(nat, Block)>, a: Block, b: Block, c: Block)
    requires taken == [(0, a), (1, b), (0, c)]
    ensures Share(taken, 0) == [a, c] && Share(taken, 1) == [b]
  {
    var two, one := taken[..2], taken[..1];
    assert two[..1] == one && one[..0] == [];
    assert Share([], 0) == [] && Share([], 1) == [];
    assert Share(one, 0) == [a] && Share(one, 1) == [];
    assert Share(two, 0) == [a] && Share(two, 1) == [b];
  }

  /**
   With two clients that can go wrong: a run ends between two scaler blocks, the End goes to the other client,
   and the first scaler block of the new run gets number 1, where a sole client would have read 0.
   */
  lemma OtherClientGotTheEnd(s: State, first: Block, end: Block, second: Block) returns (acts: seq<Action>, t: State)
    requires Init(s) && 0 in s.consumers && 1 in s.consumers
    requires |first| == |end| == |second| == BLK_BUF_SIZE
    requires IsScaler(first) && IsScaler(second) && IsRunEnd(end)
    ensures Run(s, acts, t) && t.put == [first, end, second] && Share(t.taken, 0) == [first, second]
    ensures Decode(Sent(t.put, 2)).Some? && Decode(Sent(t.put, 2)).value.number == 0
    ensures Decode(Sent([first, second], 1)).Some? && Decode(Sent([first, second], 1)).value.number == 1
  {
    acts, t := TwoClientsShare(s, first, end, second);
    ClientReadsScalers(t.put, 2);
    ClientReadsScalers([first, second], 1);
    assert ScalersSinceEnd(t.put, 2) == 0;
    assert ScalersSinceEnd([first, second], 0) == 0;
    assert ScalersSinceEnd([first, second], 1) == 1;
  }
}
