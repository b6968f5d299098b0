/** Creation of the ring queue and its single-producer, single-consumer operations,
    which update the queue in place. */
module RingQueue {
  import opened Bits

  const QUEUE_OK: int := 0
  const QUEUE_INVAL: int := -10
  const QUEUE_FULL: int := -9
  const QUEUE_EMPTY: int := -8
  const QUEUE_SIZE_MAX: nat := 8192

  ghost predicate IsPow2(n: nat) {
    exists k: nat :: n == Pow2(k)
  }

  /** The test the source uses to accept a unit count. */
  predicate PowerTest(unitNum: nat) {
    And(U32(unitNum - 1), unitNum) == 0
  }

  /** The test accepts the powers of two and, beside them, zero. */
  lemma PowerTestAccepts(x: nat)
    requires x < TWO32
    ensures PowerTest(x) <==> x == 0 || IsPow2(x)
  {
    if x > 0 { AndPredecessor(x); }
  }

  lemma {:induction false} AndPredecessor(x: nat)
    requires x > 0
    ensures And(x - 1, x) == 0 <==> IsPow2(x)
    decreases x
  {
    if x == 1 {
      assert x == Pow2(0);
    } else if x % 2 == 1 {
      AndSelf((x - 1) / 2);
      forall k: nat ensures x != Pow2(k) {
        if k > 0 { assert Pow2(k) % 2 == 0; }
      }
    } else {
      AndPredecessor(x / 2);
      assert (x - 1) / 2 == x / 2 - 1;
      if IsPow2(x / 2) {
        var k: nat :| x / 2 == Pow2(k);
        assert x == Pow2(k + 1);
      }
      if IsPow2(x) {
        var k: nat :| x == Pow2(k);
        assert k > 0 && x / 2 == Pow2(k - 1);
      }
    }
  }

  lemma {:induction false} AndSelf(x: nat)
    ensures And(x, x) == x
  {
    if x > 0 {
      AndSelf(x / 2);
      AndHalf(x, x);
    }
  }

  method IsPowerOf2(unitNum: nat) returns (accepted: bool)
    requires unitNum < TWO32
    ensures accepted <==> unitNum == 0 || IsPow2(unitNum)
  {
    PowerTestAccepts(unitNum);
    accepted := PowerTest(unitNum);
  }

  /** The node slot of a free-running counter. */
  function SlotAt(units: nat, position: nat): (j: nat)
    requires units > 0
    ensures j < units
  {
    position % units
  }

  lemma MaskedSlot(units: nat, position: nat)
    requires IsPow2(units) && units <= QUEUE_SIZE_MAX
    ensures units > 0 && And(U32(position), units - 1) == SlotAt(units, position)
  {
    var k: nat :| units == Pow2(k);
    if k > 32 { Pow2Monotone(32, k); Pow2Of32(); }
    MaskIsMod(U32(position), k);
    ModMod(position, k);
  }

  /** The values at positions c to p of the node array. */
  function Window(nodes: seq<nat>, c: nat, p: nat): (w: seq<nat>)
    requires |nodes| > 0 && c <= p
    ensures |w| == p - c
  {
    seq(p - c, i requires 0 <= i => nodes[SlotAt(|nodes|, c + i)])
  }

  lemma WindowGrows(nodes: seq<nat>, c: nat, p: nat, v: nat)
    requires |nodes| > 0 && c <= p < c + |nodes|
    ensures Window(nodes[SlotAt(|nodes|, p) := v], c, p + 1) == Window(nodes, c, p) + [v]
  {
    var nodes' := nodes[SlotAt(|nodes|, p) := v];
    forall i | 0 <= i < p - c ensures Window(nodes', c, p + 1)[i] == Window(nodes, c, p)[i] {
      CloseDiffer(c + i, p, |nodes|);
      assert SlotAt(|nodes|, c + i) != SlotAt(|nodes|, p);
      assert nodes'[SlotAt(|nodes|, c + i)] == nodes[SlotAt(|nodes|, c + i)];
    }
    assert SlotAt(|nodes|, c + (p - c)) == SlotAt(|nodes|, p);
  }

  lemma WindowShrinks(nodes: seq<nat>, c: nat, p: nat)
    requires |nodes| > 0 && c < p
    ensures [nodes[SlotAt(|nodes|, c)]] + Window(nodes, c + 1, p) == Window(nodes, c, p)
  {
  }

  class LockFreeQueue {
    var unitNum: nat
    var mask: nat
    var pHead: nat
    var pTail: nat
    var cHead: nat
    var cTail: nat
    const nodes: array<nat>
    ghost var produced: nat
    ghost var consumed: nat

    /** No operation is under way, and the words are the low 32 bits of how many values were
        ever enqueued and dequeued. */
    ghost predicate Valid()
      reads this
    {
      && IsPow2(unitNum) && 0 < unitNum <= QUEUE_SIZE_MAX && nodes.Length == unitNum && mask == unitNum - 1
      && consumed <= produced <= consumed + mask
      && pHead == pTail == U32(produced) && cHead == cTail == U32(consumed)
    }

    /** The queued values, oldest first. */
    ghost function Contents(): seq<nat>
      requires Valid()
      reads this, nodes
    {
      Window(nodes[..], consumed, produced)
    }

    constructor (units: nat)
      ensures fresh(nodes) && nodes.Length == units
    {
      nodes := new nat[units](_ => 0);
    }

    method Init(unitNum: nat) returns (code: int)
      requires unitNum < TWO32
      modifies this
      ensures code == if unitNum == 0 || IsPow2(unitNum) then QUEUE_OK else QUEUE_INVAL
      ensures code != QUEUE_OK ==> unchanged(this)
      ensures code == QUEUE_OK ==> this.unitNum == unitNum && mask == U32(unitNum - 1)
      ensures code == QUEUE_OK && 0 < unitNum <= QUEUE_SIZE_MAX && nodes.Length == unitNum ==>
          Valid() && Contents() == []
    {
      var accepted := IsPowerOf2(unitNum);
      if !accepted {
        return QUEUE_INVAL;
      }
      this.unitNum := unitNum;
      mask := U32(unitNum - 1);
      pHead, cHead, pTail, cTail := 0, 0, 0, 0;
      produced, consumed := 0, 0;
      return QUEUE_OK;
    }

    /** The masked head is the slot of its position. */
    method Slot(head: nat, ghost position: nat) returns (slot: nat)
      requires IsPow2(unitNum) && 0 < unitNum <= QUEUE_SIZE_MAX && mask == unitNum - 1 && head == U32(position)
      ensures slot == SlotAt(unitNum, position) < unitNum
    {
      MaskedSlot(unitNum, position);
      slot := And(head, mask);
    }

    method SingleProducerEnqueue(node: nat) returns (code: int)
      requires Valid()
      modifies this, nodes
      ensures Valid() && unitNum == old(unitNum)
      ensures code == if node == 0 then QUEUE_INVAL else if |old(Contents())| == mask then QUEUE_FULL else QUEUE_OK
      ensures Contents() == if code == QUEUE_OK then old(Contents()) + [node] else old(Contents())
    {
      if node == 0 {
        return QUEUE_INVAL;
      }
      var producerHead := pHead;
      var consumerTail := cTail;
      var availableCount := U32(mask + consumerTail - producerHead);
      WordDifference(mask, consumed, produced);
      if availableCount < 1 {
        return QUEUE_FULL;
      }
      var producerNext := U32(producerHead + 1);
      pHead := producerNext;
      var slot := Slot(producerHead, produced);
      WindowGrows(nodes[..], consumed, produced, node);
      WordStep(produced, 1);
      nodes[slot] := node;
      assert nodes[..] == old(nodes[..])[slot := node];
      pTail := producerNext;
      produced := produced + 1;
      return QUEUE_OK;
    }

    method SingleConsumerDequeue() returns (code: int, node: nat)
      requires Valid()
      modifies this
      ensures Valid() && unitNum == old(unitNum)
      ensures code == if old(Contents()) == [] then QUEUE_EMPTY else QUEUE_OK
      ensures code == QUEUE_OK ==> [node] + Contents() == old(Contents())
      ensures code != QUEUE_OK ==> unchanged(this)
    {
      node := 0;
      var consumerHead := cHead;
      var producerTail: int := pTail;
      var availableCount := U32(producerTail - consumerHead);
      WordDifference(0, produced, consumed);
      if availableCount < 1 {
        return QUEUE_EMPTY, node;
      }
      var consumerNext := U32(consumerHead + 1);
      cHead := consumerNext;
      var slot := Slot(consumerHead, consumed);
      WindowShrinks(nodes[..], consumed, produced);
      WordStep(consumed, 1);
      node := nodes[slot];
      cTail := consumerNext;
      consumed := consumed + 1;
      return QUEUE_OK, node;
    }

    /** The masked difference of the tails, as `QueueCountGet` and `QueueIsEmpty` compute it. */
    method Count() returns (count: nat)
      requires Valid()
      ensures count == |Contents()|
    {
      WordDifference(0, produced, consumed);
      count := And(U32(pTail - cTail), mask);
      ghost var k: nat :| unitNum == Pow2(k);
      MaskSmall(produced - consumed, k);
    }
  }

  /** `CreateQueue` refuses exactly the counts above 8192 and the non-powers of two other than zero.
      What it creates is an empty queue, except for the count zero, which gets no node to use. */
  method CreateQueue(unitNum: nat) returns (queue: LockFreeQueue?)
    requires unitNum < TWO32
    ensures queue != null <==> unitNum <= QUEUE_SIZE_MAX && (unitNum == 0 || IsPow2(unitNum))
    ensures queue != null ==> fresh(queue) && fresh(queue.nodes)
    ensures queue != null && unitNum > 0 ==> queue.Valid() && queue.unitNum == unitNum && queue.Contents() == []
    ensures unitNum == 0 ==> queue != null && queue.nodes.Length == 0 && queue.mask == TWO32 - 1 && !queue.Valid()
  {
    var accepted := IsPowerOf2(unitNum);
    if !accepted || unitNum > QUEUE_SIZE_MAX {
      return null;
    }
    queue := new LockFreeQueue(unitNum);
    var ret := queue.Init(unitNum);
    assert ret == QUEUE_OK; // what the test accepted, the initialisation accepts
  }
}
