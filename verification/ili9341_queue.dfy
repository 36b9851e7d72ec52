/*
 * The ring of queued paint requests of the ILI9341 driver
 * (ili9341/ili9341.c:26-51): 32 slots, each with a region and a pending
 * flag, a read index and a write head, both moved on by one and reset to 0
 * when they reach 32. Ring states when such a ring holds a FIFO of regions;
 * RingPush and RingPop show that the driver's enqueue and dequeue steps
 * are append and remove-first on that FIFO.
 */
module Ili9341Queue {
  import opened Ili9341Sweep

  /** ILI9341_PARTIAL_PAINT_LIMIT. */
  const QueueLimit := 32

  /** One entry of the partial_paint ring. */
  datatype Slot = Slot(region: Region, pending: bool)

  /** The slot after i: the index is incremented, then reset to 0 when it reaches the limit. */
  function Next(i: int): (j: int)
    requires 0 <= i < QueueLimit
    ensures 0 <= j < QueueLimit
    ensures j == (i + 1) % QueueLimit
  {
    if i + 1 == QueueLimit then 0 else i + 1
  }

  /** How far slot j lies after slot i going round the ring. */
  function Distance(i: int, j: int): (d: int)
    requires 0 <= i < QueueLimit && 0 <= j < QueueLimit
    ensures 0 <= d < QueueLimit
    ensures d == (j - i) % QueueLimit
  {
    if i <= j then j - i else j - i + QueueLimit
  }

  /**
   * The slots hold the FIFO `pending`: the |pending| slots from index on,
   * going round, are pending and carry its regions in order, every other
   * slot is free, and head is the slot after the last pending one (equal to
   * index when all 32 are taken).
   */
  ghost function Ring(slots: seq<Slot>, index: int, head: int, pending: seq<Region>): (holds: bool)
    ensures holds ==> forall j :: 0 <= j < |slots| && slots[j].pending ==> WellFormed(slots[j].region)
  {
    && |slots| == QueueLimit
    && 0 <= index < QueueLimit && 0 <= head < QueueLimit
    && |pending| <= QueueLimit
    && head == (index + |pending|) % QueueLimit
    && (forall j :: 0 <= j < QueueLimit ==> slots[j].pending == (Distance(index, j) < |pending|))
    && (forall j :: 0 <= j < QueueLimit && Distance(index, j) < |pending| ==>
          slots[j].region == pending[Distance(index, j)])
    && (forall k :: 0 <= k < |pending| ==> WellFormed(pending[k]))
  }

  /** A ring of free slots holds the empty FIFO. */
  lemma RingEmpty(slots: seq<Slot>)
    requires |slots| == QueueLimit && forall j :: 0 <= j < QueueLimit ==> !slots[j].pending
    ensures Ring(slots, 0, 0, [])
  {
  }

  /**
   * The slot at index is pending exactly when the FIFO is not empty, and
   * then it holds the FIFO's first region; the slot at head is pending
   * exactly when all 32 slots are taken.
   */
  lemma RingEnds(slots: seq<Slot>, index: int, head: int, pending: seq<Region>)
    requires Ring(slots, index, head, pending)
    ensures slots[index].pending <==> pending != []
    ensures pending != [] ==> slots[index].region == pending[0]
    ensures slots[head].pending <==> |pending| == QueueLimit
  {
    assert Distance(index, index) == 0;
    if |pending| < QueueLimit {
      assert Distance(index, head) == |pending|;
    } else {
      assert head == index;
    }
  }

  /** Filling the free slot at head and moving head on appends the region to the FIFO. */
  lemma RingPush(slots: seq<Slot>, index: int, head: int, pending: seq<Region>, r: Region)
    requires Ring(slots, index, head, pending) && !slots[head].pending && WellFormed(r)
    ensures Ring(slots[head := Slot(r, true)], index, Next(head), pending + [r])
  {
    RingEnds(slots, index, head, pending);
    assert Distance(index, head) == |pending|;
    var slots', pending' := slots[head := Slot(r, true)], pending + [r];
    forall j | 0 <= j < QueueLimit
      ensures slots'[j].pending == (Distance(index, j) < |pending'|)
      ensures Distance(index, j) < |pending'| ==> slots'[j].region == pending'[Distance(index, j)]
    {
      if j != head {
        assert Distance(index, j) != |pending|;
      }
    }
  }

  /** Freeing the pending slot at index and moving index on removes the FIFO's first region. */
  lemma RingPop(slots: seq<Slot>, index: int, head: int, pending: seq<Region>)
    requires Ring(slots, index, head, pending) && slots[index].pending
    ensures pending != [] && slots[index].region == pending[0]
    ensures Ring(slots[index := slots[index].(pending := false)], Next(index), head, pending[1..])
  {
    RingEnds(slots, index, head, pending);
    var slots', index', pending' := slots[index := slots[index].(pending := false)], Next(index), pending[1..];
    forall j | 0 <= j < QueueLimit
      ensures slots'[j].pending == (Distance(index', j) < |pending'|)
      ensures Distance(index', j) < |pending'| ==> slots'[j].region == pending'[Distance(index', j)]
    {
      if j == index {
        assert Distance(index', j) == QueueLimit - 1;
      } else {
        assert Distance(index', j) == Distance(index, j) - 1;
      }
    }
  }
}
