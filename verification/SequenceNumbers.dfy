/** The numbers of authentication sessions: a wrapping counter below a per-process id, whose lowest
    bit tells which side drew the number. */
module SequenceNumbers {
  import opened Bits

  datatype Side = Client | Server

  const LAST: nat := 0xFFFFFE
  const LOW24: nat := 0xFFFFFF
  const TWO24: nat := 0x100_0000
  const PERIOD: nat := 8388607
  const MICROSECONDS: nat := 1000000

  function NextCounter(c: nat): nat {
    (if c == LAST then 0 else c) + 2
  }

  /** The number of a counter value: id in the upper bits, counter and side in the lower 24. */
  function SeqOf(uniqueId: nat, counter: nat, side: Side): nat {
    var temp := counter + if side == Server then 1 else 0;
    Or((uniqueId * TWO24) % TWO64, And(temp, LOW24))
  }

  /** The counter after i + 1 draws. */
  function CounterAt(i: nat): nat {
    if i == 0 then NextCounter(0) else NextCounter(CounterAt(i - 1))
  }

  /** The number drawn by call i, counting from 0. */
  function SeqAt(uniqueId: nat, i: nat, side: Side): nat {
    SeqOf(uniqueId, CounterAt(i), side)
  }

  lemma {:induction false} CounterClosed(i: nat)
    ensures CounterAt(i) == 2 * (i % PERIOD) + 2
  {
    if i > 0 {
      CounterClosed(i - 1);
      var r := (i - 1) % PERIOD;
      if r == PERIOD - 1 {
        ModUnique(i, PERIOD, (i - 1) / PERIOD + 1, 0);
      } else {
        ModUnique(i, PERIOD, (i - 1) / PERIOD, r + 1);
      }
    }
  }

  lemma OrDouble(x: nat, b: nat)
    ensures Or(2 * x, b) == 2 * Or(x, b / 2) + b % 2
  {
  }

  function Shifted(a: nat, k: nat): nat {
    if k == 0 then a else 2 * Shifted(a, k - 1)
  }

  lemma {:induction false} ShiftIsProduct(a: nat, k: nat)
    ensures Shifted(a, k) == a * Pow2(k)
  {
    if k > 0 {
      ShiftIsProduct(a, k - 1);
      assert a * (2 * Pow2(k - 1)) == 2 * (a * Pow2(k - 1));
    }
  }

  lemma {:induction false} OrIsSum(a: nat, b: nat, k: nat)
    requires b < Pow2(k)
    ensures Or(Shifted(a, k), b) == Shifted(a, k) + b
  {
    if k > 0 {
      OrIsSum(a, b / 2, k - 1);
      OrDouble(Shifted(a, k - 1), b);
    }
  }

  lemma Pow2Of24()
    ensures Pow2(24) == TWO24
  {
    assert Pow2(8) == 256;
    Pow2Add(8, 8);
    Pow2Add(16, 8);
  }

  /** The lower 24 bits: counter and side. */
  function Low(i: nat, side: Side): nat {
    2 * (i % PERIOD) + 2 + if side == Server then 1 else 0
  }

  lemma SeqIsSum(uniqueId: nat, i: nat, side: Side)
    requires uniqueId < MICROSECONDS
    ensures Low(i, side) < TWO24 && SeqAt(uniqueId, i, side) == uniqueId * TWO24 + Low(i, side)
  {
    CounterClosed(i);
    Pow2Of24();
    MaskSmall(Low(i, side), 24);
    ModUnique(uniqueId * TWO24, TWO64, 0, uniqueId * TWO24);
    ShiftIsProduct(uniqueId, 24);
    OrIsSum(uniqueId, Low(i, side), 24);
  }

  lemma LowOf(i: nat, side: Side, j: nat, side': Side)
    ensures Low(i, side) == Low(j, side') <==> i % PERIOD == j % PERIOD && side == side'
  {
  }

  /** The low bits survive both readings of the number, in full and in 32 bits. */
  lemma LowBits(uniqueId: nat, i: nat, side: Side)
    requires uniqueId < MICROSECONDS
    ensures SeqAt(uniqueId, i, side) % TWO24 == Low(i, side) && SeqAt(uniqueId, i, side) % TWO32 % TWO24 == Low(i, side)
  {
    SeqIsSum(uniqueId, i, side);
    var s := SeqAt(uniqueId, i, side);
    ModUnique(s, TWO24, uniqueId, Low(i, side));
    ModOfProduct(s, TWO24, 256);
    assert TWO24 * 256 == TWO32;
  }

  /** Numbers are nonnegative as signed 64-bit values, and two calls draw the same number, or numbers
      with the same lower 32 bits, exactly when they are a multiple of the period apart on one side. */
  lemma CollisionsExactly(uniqueId: nat, i: nat, side: Side, j: nat, side': Side)
    requires uniqueId < MICROSECONDS
    ensures SeqAt(uniqueId, i, side) < TWO64 / 2
    ensures SeqAt(uniqueId, i, side) == SeqAt(uniqueId, j, side') <==> i % PERIOD == j % PERIOD && side == side'
    ensures SeqAt(uniqueId, i, side) % TWO32 == SeqAt(uniqueId, j, side') % TWO32 <==>
        i % PERIOD == j % PERIOD && side == side'
  {
    SeqIsSum(uniqueId, i, side);
    SeqIsSum(uniqueId, j, side');
    LowBits(uniqueId, i, side);
    LowBits(uniqueId, j, side');
    LowOf(i, side, j, side');
  }

  /** So any 8388607 consecutive calls, with any mix of sides, draw distinct numbers. */
  lemma ConsecutiveCallsDiffer(uniqueId: nat, i: nat, side: Side, j: nat, side': Side)
    requires uniqueId < MICROSECONDS && i < j < i + PERIOD
    ensures SeqAt(uniqueId, i, side) != SeqAt(uniqueId, j, side')
    ensures SeqAt(uniqueId, i, side) % TWO32 != SeqAt(uniqueId, j, side') % TWO32
  {
    CloseDiffer(i, j, PERIOD);
    CollisionsExactly(uniqueId, i, side, j, side');
  }

  /** The bound is tight: the call after a full period repeats the number. */
  lemma NextPeriodRepeats(uniqueId: nat, i: nat, side: Side)
    requires uniqueId < MICROSECONDS
    ensures SeqAt(uniqueId, i + PERIOD, side) == SeqAt(uniqueId, i, side)
  {
    ModUnique(i + PERIOD, PERIOD, i / PERIOD + 1, i % PERIOD);
    CollisionsExactly(uniqueId, i + PERIOD, side, i, side);
  }

  function SideByRemoteSeq(seqNum: nat): Side {
    if seqNum % 2 == 0 then Server else Client
  }

  /** The remote end recovers the opposite role from the number alone. */
  lemma RemoteTakesOppositeRole(uniqueId: nat, i: nat, side: Side)
    requires uniqueId < MICROSECONDS
    ensures SideByRemoteSeq(SeqAt(uniqueId, i, side)) == if side == Client then Server else Client
    ensures SeqAt(uniqueId, i, side) % 2 == if side == Client then 0 else 1
  {
    SeqIsSum(uniqueId, i, side);
    Parity(uniqueId, Low(i, side), SeqAt(uniqueId, i, side));
  }

  lemma Parity(u: nat, low: nat, s: nat)
    requires s == u * TWO24 + low
    ensures s % 2 == low % 2
  {
  }

  lemma SeqNumbers(uniqueId: nat, i: nat, side: Side, s: nat)
    requires uniqueId < MICROSECONDS && s == SeqAt(uniqueId, i, side)
    ensures s == uniqueId * 0x100_0000 + 2 * (i % 8388607) + 2 + if side == Server then 1 else 0
    ensures s % 2 == 1 <==> side == Server
  {
    SeqIsSum(uniqueId, i, side);
    Parity(uniqueId, Low(i, side), s);
  }

  class SequenceSource {
    const uniqueId: nat
    var integer: nat
    ghost var calls: nat

    /** The counter is what the calls so far have left in it. */
    ghost predicate Valid()
      reads this
    {
      uniqueId < MICROSECONDS && integer == if calls == 0 then 0 else CounterAt(calls - 1)
    }

    constructor (microseconds: nat)
      requires microseconds < MICROSECONDS
      ensures Valid() && calls == 0 && uniqueId == microseconds
    {
      uniqueId, integer, calls := microseconds, 0, 0;
    }

    method GetSeq(side: Side) returns (seqNum: nat)
      requires Valid()
      modifies this
      ensures Valid() && calls == old(calls) + 1 && seqNum == SeqAt(uniqueId, old(calls), side)
      ensures seqNum == uniqueId * 0x100_0000 + 2 * (old(calls) % 8388607) + 2 + if side == Server then 1 else 0
      ensures seqNum % 2 == 1 <==> side == Server
    {
      SeqNumbers(uniqueId, calls, side, SeqAt(uniqueId, calls, side));
      if integer == LAST {
        integer := 0;
      }
      integer := integer + 2;
      var temp := integer;
      if side == Server {
        temp := temp + 1;
      }
      calls := calls + 1;
      seqNum := Or((uniqueId * TWO24) % TWO64, And(temp, LOW24));
    }
  }
}
