/**
 The ring of blocks between the collector and the TCP threads: `capacity` slots in one backing
 array, as a bounded first-in first-out queue.
 */
module RingBuffer {

  type Half = h: int | 0 <= h < 0x1_0000

  const QSIZE := 128

  // ---- Slots of one array ----

  lemma SlotInRange(k: nat, capacity: nat, blkSize: nat)
    requires k < capacity
    ensures 0 <= k * blkSize && k * blkSize + blkSize <= capacity * blkSize
  {
    assert (k + 1) * blkSize <= capacity * blkSize;
    assert (k + 1) * blkSize == k * blkSize + blkSize;
  }

  /** Different slots are disjoint pieces of the array. */
  lemma SlotsDisjoint(j: nat, k: nat, blkSize: nat)
    requires j != k
    ensures j * blkSize + blkSize <= k * blkSize || k * blkSize + blkSize <= j * blkSize
  {
    if j < k {
      assert (j + 1) * blkSize <= k * blkSize;
    } else {
      assert (k + 1) * blkSize <= j * blkSize;
    }
  }

  /** The slot `i` places behind `start`. */
  function Index(start: nat, i: nat, capacity: nat): (r: nat)
    requires start < capacity && i <= capacity
    ensures r < capacity
    ensures r == if start + i < capacity then start + i else start + i - capacity
  {
    Wrap(start + i, capacity);
    (start + i) % capacity
  }

  lemma Multiples(c: nat, q: int)
    requires c > 0
    ensures q >= 2 ==> c * q >= 2 * c
    ensures q < 0 ==> c * q < 0
  {
    if q >= 2 {
      assert c * q == 2 * c + c * (q - 2);
    }
  }

  lemma Wrap(a: nat, capacity: nat)
    requires 0 < capacity && a < 2 * capacity
    ensures a % capacity == if a < capacity then a else a - capacity
  {
    Multiples(capacity, a / capacity);
    assert a == capacity * (a / capacity) + a % capacity;
  }

  class RingBuf {
    const capacity: nat
    const blkSize: nat
    const shmBuf: array<Half>
    var startIdx: nat
    var numFull: nat

    ghost predicate Valid()
      reads this
    {
      && 0 < capacity <= QSIZE
      && shmBuf.Length == capacity * blkSize
      && startIdx < capacity && numFull <= capacity
    }

    /** The contents of slot `k`. */
    ghost function Slot(k: nat): (r: seq<Half>)
      requires Valid() && k < capacity
      reads this, shmBuf
      ensures |r| == blkSize
    {
      SlotInRange(k, capacity, blkSize);
      shmBuf[k * blkSize..k * blkSize + blkSize]
    }

    /** The blocks in the ring, oldest first. */
    ghost function Queue(): (r: seq<seq<Half>>)
      requires Valid()
      reads this, shmBuf
      ensures |r| == numFull
    {
      seq(numFull, i requires 0 <= i < numFull && Valid() reads this, shmBuf => Slot(Index(startIdx, i, capacity)))
    }

    /** `new_rb` */
    constructor (capacity: nat, blkSize: nat)
      requires 0 < capacity <= QSIZE
      ensures Valid() && Queue() == [] && this.capacity == capacity && this.blkSize == blkSize && fresh(shmBuf)
    {
      this.capacity := capacity;
      this.blkSize := blkSize;
      shmBuf := new Half[capacity * blkSize](i => 0);
      startIdx := 0;
      numFull := 0;
    }

    /** Copies a block into slot `k`, word by word; every other slot keeps its contents. */
    method FillSlot(k: nat, data: array<Half>)
      requires Valid() && k < capacity && data.Length == blkSize && data != shmBuf
      modifies shmBuf
      ensures Slot(k) == data[..]
      ensures forall j :: 0 <= j < capacity && j != k ==> Slot(j) == old(Slot(j))
    {
      SlotInRange(k, capacity, blkSize);
      var base := k * blkSize;
      for i := 0 to blkSize
        invariant shmBuf[base..base + i] == data[..i]
        invariant forall p :: 0 <= p < shmBuf.Length && !(base <= p < base + blkSize) ==> shmBuf[p] == old(shmBuf[p])
      {
        shmBuf[base + i] := data[i];
        assert shmBuf[base..base + i + 1] == shmBuf[base..base + i] + [data[i]];
      }
      forall j | 0 <= j < capacity && j != k ensures Slot(j) == old(Slot(j)) {
        SlotsDisjoint(j, k, blkSize);
        SlotInRange(j, capacity, blkSize);
      }
    }

    /** `put_rb_data` once it holds the lock: appends the block, or finds the ring full and has to wait. */
    method Put(data: array<Half>) returns (done: bool)
      requires Valid() && data.Length == blkSize && data != shmBuf
      modifies this`numFull, shmBuf
      ensures Valid()
      ensures done == (|old(Queue())| < capacity)
      ensures Queue() == if done then old(Queue()) + [data[..]] else old(Queue())
    {
      done := numFull != capacity;
      if done {
        ghost var before := Queue();
        FillSlot(Index(startIdx, numFull, capacity), data);
        numFull := numFull + 1;
        assert forall i :: 0 <= i < |before| ==> Queue()[i] == before[i];
        assert Queue()[|before|] == data[..];
      }
    }

    method CopySlot(k: nat, data: array<Half>)
      requires Valid() && k < capacity && data.Length == blkSize && data != shmBuf
      modifies data
      ensures data[..] == Slot(k)
    {
      SlotInRange(k, capacity, blkSize);
      var base := k * blkSize;
      for i := 0 to blkSize
        invariant data[..i] == shmBuf[base..base + i]
      {
        data[i] := shmBuf[base + i];
        assert shmBuf[base..base + i + 1] == shmBuf[base..base + i] + [data[i]];
      }
    }

    /** `get_rb_data` once it holds the lock: takes the oldest block, or finds the ring empty and has to wait. */
    method Get(data: array<Half>) returns (done: bool)
      requires Valid() && data.Length == blkSize && data != shmBuf
      modifies this`startIdx, this`numFull, data
      ensures Valid()
      ensures done == (old(Queue()) != [])
      ensures done ==> data[..] == old(Queue())[0] && Queue() == old(Queue())[1..]
      ensures !done ==> data[..] == old(data[..]) && Queue() == old(Queue())
    {
      done := numFull != 0;
      if done {
        ghost var before := Queue();
        CopySlot(startIdx, data);
        assert data[..] == before[0];
        startIdx := Index(startIdx, 1, capacity);
        numFull := numFull - 1;
        assert forall i :: 0 <= i < numFull ==> Queue()[i] == before[i + 1];
      }
    }
  }
}
