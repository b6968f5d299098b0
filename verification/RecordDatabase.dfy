/** The bitmap record allocator of the device finder: fixed-size records in one block, and one bit
    per record saying whether it is in use. */
module RecordDatabase {
  import opened Bits
  import opened Options

  const ROW: nat := 32

  // ------------------------------------------------------------------ rows

  /** `row & (1 << j)` tests bit j. */
  lemma TestBit(row: nat, j: nat)
    ensures And(row, Pow2(j)) != 0 <==> Bit(row, j)
  {
    var a := And(row, Pow2(j));
    BitAnd(row, Pow2(j), j);
    BitOfPow2(j, j);
    BitOfZero(j);
    if !Bit(row, j) {
      AndBound(row, Pow2(j));
      forall k | 0 <= k < j + 1 ensures Bit(a, k) == Bit(0, k) {
        BitAnd(row, Pow2(j), k);
        BitOfPow2(j, k);
        BitOfZero(k);
      }
      BitsDetermine(a, 0, j + 1);
    }
  }

  ghost predicate AllSet(row: nat, w: nat) {
    forall j :: 0 <= j < w ==> Bit(row, j)
  }

  lemma OnesAllSet(w: nat)
    ensures AllSet(Pow2(w) - 1, w)
  {
    var ones := Pow2(w) - 1;
    forall j | 0 <= j < w ensures Bit(ones, j) {
      BitOfOnes(w, j);
    }
  }

  lemma AllOnes(row: nat, w: nat)
    requires row < Pow2(w)
    ensures row == Pow2(w) - 1 <==> AllSet(row, w)
  {
    OnesAllSet(w);
    if AllSet(row, w) {
      var ones := Pow2(w) - 1;
      assert forall j :: 0 <= j < w ==> Bit(row, j) == Bit(ones, j);
      BitsDetermine(row, ones, w);
    }
  }

  /** A row is all ones exactly when every record of it is in use. */
  lemma RowFull(row: nat)
    requires row < TWO32
    ensures row == TWO32 - 1 <==> AllSet(row, ROW)
  {
    Pow2Of32();
    AllOnes(row, ROW);
  }

  lemma RowEmpty(j: nat)
    ensures !Bit(0, j)
  {
    BitOfZero(j);
  }

  lemma SetBit(row: nat, j: nat, row': nat)
    requires row < TWO32 && j < ROW && row' == Or(row, Pow2(j))
    ensures row' < TWO32
    ensures forall k :: 0 <= k < ROW ==> Bit(row', k) == (Bit(row, k) || k == j)
  {
    Pow2Of32();
    Pow2Monotone(j, ROW);
    OrBound(row, Pow2(j), ROW);
    forall k | 0 <= k < ROW ensures Bit(row', k) == (Bit(row, k) || k == j) {
      BitOr(row, Pow2(j), k);
      BitOfPow2(j, k);
    }
  }

  lemma BitInRow(j: nat)
    requires j < ROW
    ensures Pow2(j) < TWO32
  {
    Pow2Of32();
    Pow2Monotone(j, ROW);
  }

  lemma ClearBit(row: nat, j: nat, row': nat)
    requires row < TWO32 && j < ROW && Pow2(j) < TWO32 && row' == And(row, TWO32 - 1 - Pow2(j))
    ensures row' < TWO32
    ensures forall k :: 0 <= k < ROW ==> Bit(row', k) == (Bit(row, k) && k != j)
  {
    Pow2Of32();
    AndBound(row, TWO32 - 1 - Pow2(j));
    forall k | 0 <= k < ROW ensures Bit(row', k) == (Bit(row, k) && k != j) {
      BitAnd(row, TWO32 - 1 - Pow2(j), k);
      BitOfComplement(ROW, j, k);
    }
  }

  // ------------------------------------------------------------------ the map as a set of records

  ghost predicate Occupied(rows: seq<nat>, r: nat) {
    r / ROW < |rows| && Bit(rows[r / ROW], r % ROW)
  }

  ghost function UsedSet(rows: seq<nat>): set<nat> {
    set r | 0 <= r < ROW * |rows| && Occupied(rows, r)
  }

  lemma EmptyRow(rows: seq<nat>, i: nat)
    requires i < |rows| && rows[i] == 0
    ensures forall r: nat :: i * ROW <= r < i * ROW + ROW ==> r !in UsedSet(rows)
  {
    forall r: nat | i * ROW <= r < i * ROW + ROW ensures r !in UsedSet(rows) {
      RowEmpty(r % ROW);
    }
  }

  lemma Place(i: nat, j: nat)
    requires j < ROW
    ensures (i * ROW + j) / ROW == i && (i * ROW + j) % ROW == j
  {
  }

  ghost predicate AllUsedBelow(rows: seq<nat>, n: nat) {
    forall r: nat :: r < n ==> r in UsedSet(rows)
  }

  /** When all rows before i and the first j bits of row i are set, all records before them are used. */
  lemma RowPrefix(rows: seq<nat>, i: nat, j: nat)
    requires i < |rows| && j <= ROW
    requires AllUsedBelow(rows, i * ROW) && forall k :: 0 <= k < j ==> Bit(rows[i], k)
    ensures AllUsedBelow(rows, i * ROW + j)
    ensures j < ROW ==> (i * ROW + j in UsedSet(rows) <==> Bit(rows[i], j))
  {
    if j < ROW { Place(i, j); }
    forall r: nat | i * ROW <= r < i * ROW + j ensures r in UsedSet(rows) {
      Place(i, r - i * ROW);
      assert Bit(rows[i], r - i * ROW);
    }
  }

  lemma UsedMember(rows: seq<nat>, r: nat)
    ensures r in UsedSet(rows) <==> Occupied(rows, r)
  {
  }

  lemma SetRecord(rows: seq<nat>, i: nat, j: nat, row: nat)
    requires i < |rows| && j < ROW
    requires forall k :: 0 <= k < ROW ==> Bit(row, k) == (Bit(rows[i], k) || k == j)
    ensures UsedSet(rows[i := row]) == UsedSet(rows) + {i * ROW + j}
  {
    Place(i, j);
    var a, b := UsedSet(rows[i := row]), UsedSet(rows) + {i * ROW + j};
    forall r: nat ensures r in a <==> r in b {
      assert Bit(row, r % ROW) == (Bit(rows[i], r % ROW) || r % ROW == j);
    }
  }

  lemma ClearRecord(rows: seq<nat>, r: nat, row: nat)
    requires r / ROW < |rows|
    requires forall k :: 0 <= k < ROW ==> Bit(row, k) == (Bit(rows[r / ROW], k) && k != r % ROW)
    ensures UsedSet(rows[r / ROW := row]) == UsedSet(rows) - {r}
  {
    var a, b := UsedSet(rows[r / ROW := row]), UsedSet(rows) - {r};
    forall x: nat ensures x in a <==> x in b {
      assert Bit(row, x % ROW) == (Bit(rows[r / ROW], x % ROW) && x % ROW != r % ROW);
    }
  }

  // ------------------------------------------------------------------ counting

  ghost function Below(n: nat): (s: set<nat>)
    ensures forall r: nat :: r in s <==> r < n
    ensures |s| == n
  {
    if n == 0 then {} else Below(n - 1) + {n - 1}
  }

  lemma {:induction false} SubsetSize(a: set<nat>, b: set<nat>)
    requires a <= b
    ensures |a| <= |b|
  {
    if a != {} {
      var x :| x in a;
      SubsetSize(a - {x}, b - {x});
    }
  }

  /** The counting argument: while fewer than n records are used, the lowest free one is below n. */
  lemma LowestFreeIsBelow(used: set<nat>, n: nat, r: nat)
    requires |used| < n && forall k :: 0 <= k < r ==> k in used
    ensures r < n
  {
    if r >= n {
      SubsetSize(Below(n), used);
    }
  }

  // ------------------------------------------------------------------ the scan that skips nothing

  /** First occupied record in [k, n) whose content passes the test. */
  ghost function Scan(used: set<nat>, test: nat -> bool, k: nat, n: nat): Option<nat>
    decreases n - k
  {
    if k >= n then None else if k in used && test(k) then Some(k) else Scan(used, test, k + 1, n)
  }

  lemma {:induction false} ScanFinds(used: set<nat>, test: nat -> bool, k: nat, n: nat, r: nat)
    requires k <= r < n && r in used && test(r) && forall x :: k <= x < r && x in used ==> !test(x)
    ensures Scan(used, test, k, n) == Some(r)
    decreases r - k
  {
    if k < r { ScanFinds(used, test, k + 1, n, r); }
  }

  lemma {:induction false} ScanMisses(used: set<nat>, test: nat -> bool, k: nat, n: nat)
    requires forall x :: k <= x < n && x in used ==> !test(x)
    ensures Scan(used, test, k, n) == None
    decreases n - k
  {
    if k < n { ScanMisses(used, test, k + 1, n); }
  }

  lemma {:induction false} ScanMeaning(used: set<nat>, test: nat -> bool, k: nat, n: nat)
    ensures match Scan(used, test, k, n)
            case Some(r) => k <= r < n && r in used && test(r) && forall x :: k <= x < r && x in used ==> !test(x)
            case None => forall x :: k <= x < n && x in used ==> !test(x)
    decreases n - k
  {
    if k < n && !(k in used && test(k)) { ScanMeaning(used, test, k + 1, n); }
  }

  // ------------------------------------------------------------------ records and addresses

  /** The record number of a pointer at a byte distance from the block: the difference is signed,
      the division by the record size is unsigned, the result is signed again. */
  function RecordIndex(offset: int, recSize: nat): (r: int)
    requires FitsSigned(offset, TWO64)
  {
    if recSize == 0 then -1
    else
      ToSigned(ToUnsigned(offset, TWO64) / recSize, TWO64)
  }

  lemma Distribute(size: nat, a: nat, b: nat)
    ensures size * (a + b) == size * a + size * b
  {
  }

  lemma DivideInside(o: nat, size: nat, n: nat)
    requires size > 0
    ensures o / size < n <==> o < n * size
  {
    var q, r := o / size, o % size;
    assert o == size * q + r && size * n == n * size;
    if q < n {
      Distribute(size, q, n - q);
      AtLeastOnce(size, n - q);
    } else if q > n {
      Distribute(size, n, q - n);
      AtLeastOnce(size, q - n);
    }
  }

  /** The number computed for an unsigned distance, and whether it passes as a record. */
  lemma WordTest(u: nat, recSize: nat, n: nat)
    requires u < TWO64 && recSize > 0 && n * recSize <= TWO63
    ensures 0 <= u / recSize <= u && (u / recSize < n <==> u < n * recSize) && n <= TWO63
  {
    DivideInside(u, recSize, n);
    DivideInside(u, recSize, u + 1);
    AtLeastOnce(u + 1, recSize);
    AtLeastOnce(n, recSize);
  }

  /** The address test of the source accepts exactly the addresses inside the block, and then finds
      the record that holds the address. */
  lemma AddressTest(offset: int, recSize: nat, n: nat)
    requires FitsSigned(offset, TWO64) && recSize > 0 && n * recSize <= TWO63
    ensures 0 <= RecordIndex(offset, recSize) < n <==> 0 <= offset < n * recSize
    ensures 0 <= offset ==> RecordIndex(offset, recSize) == offset / recSize
  {
    var u: nat := if offset >= 0 then offset else offset + TWO64;
    assert offset % TWO64 == u;
    WordTest(u, recSize, n);
  }

  lemma RecordInside(r: nat, recSize: nat, n: nat)
    requires r < n && recSize > 0
    ensures 0 <= r * recSize < n * recSize
  {
    AtLeastOnce(recSize, n - r);
    assert n * recSize == r * recSize + recSize * (n - r);
    if r > 0 { AtLeastOnce(recSize, r); }
  }

  /** The address of a record leads back to the record. */
  lemma AddressOf(r: nat, recSize: nat, n: nat)
    requires r < n && recSize > 0 && n * recSize <= TWO63
    ensures 0 <= r * recSize < TWO63 && RecordIndex(r * recSize, recSize) == r
  {
    RecordInside(r, recSize, n);
    AddressTest(r * recSize, recSize, n);
    ModUnique(r * recSize, recSize, r, 0);
  }

  /** What the product of count and size comes to in the type of sizes. */
  function BlockBytes(recNumber: nat, recSize: nat): nat {
    (recNumber * recSize) % TWO64
  }

  /** The block holds all records exactly when the product fits the type of sizes. */
  lemma BlockRecords(recNumber: nat, recSize: nat)
    requires recSize > 0
    ensures 0 <= BlockBytes(recNumber, recSize) / recSize <= recNumber
    ensures BlockBytes(recNumber, recSize) / recSize == recNumber <==> recNumber * recSize < TWO64
    ensures recNumber * recSize < TWO64 ==> BlockBytes(recNumber, recSize) == recNumber * recSize
  {
    var p := recNumber * recSize;
    ReducedProduct(p);
    DivideInside(p % TWO64, recSize, recNumber);
    if p < TWO64 { ModUnique(p, recSize, recNumber, 0); }
  }

  lemma ReducedProduct(p: nat)
    ensures p < TWO64 ==> p % TWO64 == p
    ensures p >= TWO64 ==> p % TWO64 < p
  {
  }

  // ------------------------------------------------------------------ runs

  datatype Op = Alloc | Free(offset: int)

  /** The lowest record from k on that is not in use, or n. */
  ghost function FirstFree(used: set<nat>, k: nat, n: nat): nat
    decreases n - k
  {
    if k >= n || k !in used then k else FirstFree(used, k + 1, n)
  }

  lemma {:induction false} FirstFreeIs(used: set<nat>, k: nat, n: nat, r: nat)
    requires k <= r < n && r !in used && forall x :: k <= x < r ==> x in used
    ensures FirstFree(used, k, n) == r
    decreases r - k
  {
    if k < r { FirstFreeIs(used, k + 1, n, r); }
  }

  lemma {:induction false} FirstFreeMeaning(used: set<nat>, k: nat, n: nat)
    requires k <= n
    ensures var r := FirstFree(used, k, n);
            k <= r <= n && (r < n ==> r !in used) && forall x :: k <= x < r ==> x in used
    decreases n - k
  {
    if k < n && k in used { FirstFreeMeaning(used, k + 1, n); }
  }

  /** What an allocation returns. */
  ghost function AllocResult(used: set<nat>, n: nat): Option<nat> {
    if |used| >= n then None else Some(FirstFree(used, 0, n))
  }

  ghost predicate FreeAccepts(used: set<nat>, n: nat, recSize: nat, offset: int) {
    FitsSigned(offset, TWO64) && 0 <= RecordIndex(offset, recSize) < n && RecordIndex(offset, recSize) in used
  }

  ghost function Apply(used: set<nat>, n: nat, recSize: nat, op: Op): set<nat> {
    match op
    case Alloc => if AllocResult(used, n).Some? then used + {AllocResult(used, n).value} else used
    case Free(offset) => if FreeAccepts(used, n, recSize, offset) then used - {RecordIndex(offset, recSize)} else used
  }

  ghost function Run(used: set<nat>, n: nat, recSize: nat, ops: seq<Op>): set<nat> {
    if ops == [] then used else Apply(Run(used, n, recSize, ops[..|ops| - 1]), n, recSize, ops[|ops| - 1])
  }

  /** Below the limit an allocation returns the lowest free record, which lies below the limit. */
  lemma AllocInRange(used: set<nat>, n: nat)
    ensures match AllocResult(used, n)
            case Some(r) => r < n && r !in used && forall x :: 0 <= x < r ==> x in used
            case None => |used| >= n
  {
    if |used| < n {
      FirstFreeMeaning(used, 0, n);
      LowestFreeIsBelow(used, n, FirstFree(used, 0, n));
    }
  }

  lemma LowestFreeIsAllocated(used: set<nat>, n: nat, r: nat)
    requires |used| < n && forall x: nat :: x < r ==> x in used
    ensures r < n && (r !in used ==> AllocResult(used, n) == Some(r))
  {
    LowestFreeIsBelow(used, n, r);
    if r !in used { FirstFreeIs(used, 0, n, r); }
  }

  /** In every run the used records lie below the limit, and so there are at most that many. */
  lemma {:induction false} RunInRange(n: nat, recSize: nat, ops: seq<Op>)
    ensures var used := Run({}, n, recSize, ops);
            (forall r :: r in used ==> r < n) && |used| <= n
  {
    if ops != [] {
      RunInRange(n, recSize, ops[..|ops| - 1]);
      AllocInRange(Run({}, n, recSize, ops[..|ops| - 1]), n);
    }
    SubsetSize(Run({}, n, recSize, ops), Below(n));
  }

  ghost predicate Spares(op: Op, recSize: nat, r: nat) {
    op.Free? ==> !FitsSigned(op.offset, TWO64) || RecordIndex(op.offset, recSize) != r
  }

  /** A record in use stays in use, and is not handed out again, until an address inside it is freed. */
  lemma {:induction false} NotHandedOutTwice(used: set<nat>, n: nat, recSize: nat, ops: seq<Op>, r: nat)
    requires r in used && forall i :: 0 <= i < |ops| ==> Spares(ops[i], recSize, r)
    ensures r in Run(used, n, recSize, ops)
    ensures forall i :: 0 <= i <= |ops| ==> AllocResult(Run(used, n, recSize, ops[..i]), n) != Some(r)
  {
    forall i | 0 <= i <= |ops| ensures AllocResult(Run(used, n, recSize, ops[..i]), n) != Some(r) {
      StaysInUse(used, n, recSize, ops[..i], r);
      AllocInRange(Run(used, n, recSize, ops[..i]), n);
    }
    StaysInUse(used, n, recSize, ops, r);
  }

  lemma {:induction false} StaysInUse(used: set<nat>, n: nat, recSize: nat, ops: seq<Op>, r: nat)
    requires r in used && forall i :: 0 <= i < |ops| ==> Spares(ops[i], recSize, r)
    ensures r in Run(used, n, recSize, ops)
  {
    if ops != [] {
      StaysInUse(used, n, recSize, ops[..|ops| - 1], r);
      assert Spares(ops[|ops| - 1], recSize, r);
    }
  }

  // ------------------------------------------------------------------ enumeration

  /** What GetNextRecord leaves in the index and returns. */
  ghost function Next(used: set<nat>, n: nat, idx: int): (int, Option<nat>) {
    if idx >= TWO32 - 1 then (idx, None)
    else
      var start := if idx >= 0 then idx + 1 else 0;
      var r := Scan(used, x => true, start, n);
      (if r.Some? then r.value else start, r)
  }

  /** The records that repeated calls return until the first failure. */
  ghost function Enumerate(used: set<nat>, n: nat, idx: int): seq<nat>
    decreases n - idx
  {
    var (next, r) := Next(used, n, idx);
    if r.Some? && idx < next < n then [r.value] + Enumerate(used, n, next) else []
  }

  ghost predicate Ascending(s: seq<nat>) {
    forall i, j :: 0 <= i < j < |s| ==> s[i] < s[j]
  }

  lemma AscendingCons(a: nat, rest: seq<nat>)
    requires Ascending(rest) && forall x :: x in rest ==> x > a
    ensures Ascending([a] + rest)
  {
    assert forall j :: 0 <= j < |rest| ==> rest[j] in rest;
  }

  lemma {:induction false} EnumerateFrom(used: set<nat>, n: nat, idx: int)
    requires n < TWO32 && forall r :: r in used ==> r < n
    ensures Ascending(Enumerate(used, n, idx))
    ensures forall x :: x in Enumerate(used, n, idx) <==> x in used && x > idx
    decreases n - idx
  {
    var start: nat := if idx >= 0 then idx + 1 else 0;
    ScanMeaning(used, x => true, start, n);
    var (next, r) := Next(used, n, idx);
    if r.Some? && idx < next < n {
      EnumerateFrom(used, n, next);
      AscendingCons(next, Enumerate(used, n, next));
    }
  }

  /** Starting from -1 the calls return every record in use exactly once, in ascending order. */
  lemma EnumerationIsComplete(used: set<nat>, n: nat)
    requires n < TWO32 && forall r :: r in used ==> r < n
    ensures Ascending(Enumerate(used, n, -1)) && forall x :: x in Enumerate(used, n, -1) <==> x in used
  {
    EnumerateFrom(used, n, -1);
  }

  // ------------------------------------------------------------------ the database object

  /** A test on record contents, as a test on record numbers. */
  ghost function OnRecords(blk: seq<seq<nat>>, test: seq<nat> -> bool): nat -> bool {
    (r: nat) => r < |blk| && test(blk[r])
  }

  function Zeroed(n: nat): seq<nat> {
    seq(n, _ => 0)
  }

  class Database {
    const maxCount: nat
    const recSize: nat
    const usedMap: array<nat>
    const blk: array<seq<nat>>
    var useCount: nat

    /** The records in use; the block of records is reachable only below the limit. */
    ghost function Used(): set<nat>
      reads usedMap
    {
      UsedSet(usedMap[..])
    }

    ghost predicate Shape()
      reads usedMap
    {
      && 0 < maxCount < TWO32 && recSize > 0 && maxCount * recSize < TWO63
      && usedMap.Length == maxCount / ROW + 1 && blk.Length == maxCount
      && (forall i :: 0 <= i < usedMap.Length ==> usedMap[i] < TWO32)
    }

    /** The use count is the number of set bits, and every set bit lies below the limit. */
    ghost predicate Valid()
      reads this, usedMap
    {
      Shape() && useCount == |Used()| && forall r :: r in Used() ==> r < maxCount
    }

    constructor (recNumber: nat, recSize: nat)
      requires 0 < recNumber < TWO32 && 0 < recSize && BlockBytes(recNumber, recSize) < TWO63
      ensures fresh(usedMap) && fresh(blk) && maxCount == recNumber && this.recSize == recSize && useCount == 0 &&
          Used() == {}
      ensures blk.Length == BlockBytes(recNumber, recSize) / recSize
      ensures Valid() <==> recNumber * recSize < TWO64
    {
      maxCount, this.recSize, useCount := recNumber, recSize, 0;
      BlockRecords(recNumber, recSize);
      usedMap := new nat[recNumber / ROW + 1](i => 0);
      blk := new seq<nat>[BlockBytes(recNumber, recSize) / recSize](i => []);
      new;
      forall r | r in Used() ensures false {
        RowEmpty(r % ROW);
      }
      assert Used() == {};
    }

    /** The lowest clear bit of a row, or the row length. */
    method FindInRow(row: nat) returns (j: nat)
      ensures j <= ROW && (forall k :: 0 <= k < j ==> Bit(row, k)) && (j < ROW ==> !Bit(row, j))
    {
      j := 0;
      while j < ROW
        invariant j <= ROW && forall k :: 0 <= k < j ==> Bit(row, k)
      {
        TestBit(row, j);
        if And(row, Pow2(j)) == 0 {
          return;
        }
        j := j + 1;
      }
    }

    /** The nested loops of the allocation, which skip full rows and never look at the limit. */
    method FindFree() returns (i: nat, j: nat)
      requires Shape()
      ensures i <= usedMap.Length && j < ROW
      ensures i < usedMap.Length ==> i * ROW + j !in Used()
      ensures i == usedMap.Length ==> j == 0
      ensures AllUsedBelow(usedMap[..], i * ROW + j)
    {
      i, j := 0, 0;
      while i < usedMap.Length
        invariant i <= usedMap.Length && j == 0
        invariant AllUsedBelow(usedMap[..], i * ROW)
      {
        RowFull(usedMap[i]);
        if usedMap[i] != TWO32 - 1 {
          j := FindInRow(usedMap[i]);
          assert j < ROW;
          RowPrefix(usedMap[..], i, j);
          return;
        }
        RowPrefix(usedMap[..], i, ROW);
        i := i + 1;
      }
    }

    method SetUsed(i: nat, j: nat)
      requires Shape() && i < usedMap.Length && j < ROW
      modifies usedMap
      ensures Shape() && Used() == old(Used()) + {i * ROW + j}
    {
      var row := Or(usedMap[i], Pow2(j));
      SetBit(usedMap[i], j, row);
      SetRecord(usedMap[..], i, j, row);
      ghost var after := usedMap[..][i := row];
      usedMap[i] := row;
      assert usedMap[..] == after;
    }

    method SetUnused(r: nat)
      requires Shape() && r / ROW < usedMap.Length
      modifies usedMap
      ensures Shape() && Used() == old(Used()) - {r}
    {
      var i, off := r / ROW, r % ROW;
      BitInRow(off);
      var row := And(usedMap[i], TWO32 - 1 - Pow2(off));
      ClearBit(usedMap[i], off, row);
      ClearRecord(usedMap[..], r, row);
      ghost var after := usedMap[..][i := row];
      usedMap[i] := row;
      assert usedMap[..] == after;
    }

    /** A free record becomes used, and is counted. */
    method Occupy(i: nat, j: nat, ghost r: nat)
      requires Valid() && i < usedMap.Length && j < ROW && r == i * ROW + j && r !in Used() && r < maxCount &&
          useCount < maxCount
      modifies this, usedMap
      ensures Valid() && Used() == old(Used()) + {r}
    {
      SetUsed(i, j);
      SmallWord(useCount + 1);
      useCount := U32(useCount + 1);
    }

    /** Allocation returns the lowest free record, cleared, or nothing when the limit is reached. */
    method AllocRecord() returns (rec: Option<nat>)
      requires Valid()
      modifies this, usedMap, blk
      ensures Valid() && rec == AllocResult(old(Used()), maxCount) &&
          Used() == Apply(old(Used()), maxCount, recSize, Alloc)
      ensures rec.Some? ==> blk[..] == old(blk[..])[rec.value := Zeroed(recSize)]
      ensures rec.None? ==> blk[..] == old(blk[..])
      ensures match rec
              case None => |old(Used())| >= maxCount && Used() == old(Used())
              case Some(r) =>
                && r < maxCount && r !in old(Used()) && (forall x :: 0 <= x < r ==> x in old(Used()))
                && Used() == old(Used()) + {r} && |blk[r]| == recSize && forall k :: 0 <= k < recSize ==> blk[r][k] == 0
    {
      AllocInRange(Used(), maxCount);
      if useCount >= maxCount {
        return None;
      }
      var i, j := FindFree();
      var r := i * ROW + j;
      LowestFreeIsAllocated(Used(), maxCount, r);
      blk[r] := Zeroed(recSize);
      Occupy(i, j, r);
      rec := Some(r);
    }

    method IsRecordOccupied(r: nat) returns (occupied: bool)
      requires Shape() && r / ROW < usedMap.Length
      ensures occupied <==> r in Used()
    {
      TestBit(usedMap[r / ROW], r % ROW);
      UsedMember(usedMap[..], r);
      occupied := And(usedMap[r / ROW], Pow2(r % ROW)) != 0;
    }

    /** Freeing accepts exactly the addresses inside a record in use, and changes that record's bit only. */
    method FreeRecord(offset: int) returns (ok: bool)
      requires Valid() && FitsSigned(offset, TWO64)
      modifies this, usedMap
      ensures Valid() && ok == FreeAccepts(old(Used()), maxCount, recSize, offset)
      ensures Used() == Apply(old(Used()), maxCount, recSize, Free(offset))
      ensures ok <==> 0 <= offset < maxCount * recSize && offset / recSize in old(Used())
      ensures Used() == if ok then old(Used()) - {offset / recSize} else old(Used())
    {
      AddressTest(offset, recSize, maxCount);
      if useCount == 0 {
        return false;
      }
      var recNum := RecordIndex(offset, recSize);
      if recNum < 0 || recNum >= maxCount {
        return false;
      }
      var occupied := IsRecordOccupied(recNum);
      if !occupied {
        return false;
      }
      SubsetSize(Used(), Below(maxCount));
      SetUnused(recNum);
      SmallWord(useCount - 1);
      useCount := U32(useCount - 1);
      return true;
    }

    /** The row-skipping search finds what a plain scan over the records in use finds first. */
    method SearchRecord(cb: Option<seq<nat> -> bool>) returns (rec: Option<nat>)
      requires Valid()
      ensures rec == if cb.None? then None else Scan(Used(), OnRecords(blk[..], cb.value), 0, maxCount)
      ensures match rec
              case Some(r) =>
                && cb.Some? && r in Used() && r < maxCount && cb.value(blk[r])
                && forall x :: x in Used() && x < r ==> !cb.value(blk[x])
              case None => cb.Some? ==> forall x :: x in Used() ==> !cb.value(blk[x])
    {
      if cb.None? {
        return None;
      }
      ghost var test := OnRecords(blk[..], cb.value);
      var i := 0;
      while i < usedMap.Length
        invariant i <= usedMap.Length
        invariant forall r: nat :: r < i * ROW && r in Used() ==> !test(r)
      {
        if usedMap[i] != 0 {
          rec := SearchRow(i, cb.value, test);
          if rec.Some? {
            ScanFinds(Used(), test, 0, maxCount, rec.value);
            return;
          }
        } else {
          EmptyRow(usedMap[..], i);
        }
        i := i + 1;
      }
      ScanMisses(Used(), test, 0, maxCount);
      return None;
    }

    method SearchRow(i: nat, cb: seq<nat> -> bool, ghost test: nat -> bool) returns (rec: Option<nat>)
      requires Valid() && i < usedMap.Length && test == OnRecords(blk[..], cb)
      ensures match rec
              case Some(r) =>
                && i * ROW <= r < i * ROW + ROW && r in Used() && test(r)
                && forall x :: i * ROW <= x < r && x in Used() ==> !test(x)
              case None => forall x :: i * ROW <= x < i * ROW + ROW && x in Used() ==> !test(x)
    {
      var j := 0;
      while j < ROW
        invariant j <= ROW
        invariant forall x :: i * ROW <= x < i * ROW + j && x in Used() ==> !test(x)
      {
        TestBit(usedMap[i], j);
        Place(i, j);
        UsedMember(usedMap[..], i * ROW + j);
        if And(usedMap[i], Pow2(j)) != 0 {
          if cb(blk[i * ROW + j]) {
            return Some(i * ROW + j);
          }
        }
        j := j + 1;
      }
      return None;
    }

    method GetNextRecord(idx: int) returns (idx': int, rec: Option<nat>)
      requires Valid()
      ensures (idx', rec) == Next(Used(), maxCount, idx)
      ensures match rec
              case Some(r) => idx' == r && idx < r < maxCount && r in Used() && forall x :: idx < x < r ==> x !in Used()
              case None => idx' == (if idx >= TWO32 - 1 then idx else if idx >= 0 then idx + 1 else 0)
      ensures rec.None? ==> forall x :: x in Used() ==> x <= idx
    {
      if idx >= TWO32 - 1 {
        return idx, None;
      }
      idx' := if idx >= 0 then idx + 1 else 0;
      var i: nat := idx';
      while i < maxCount
        invariant idx' <= i && forall x :: idx' <= x < i ==> x !in Used()
      {
        var occupied := IsRecordOccupied(i);
        if occupied {
          ScanFinds(Used(), x => true, idx', maxCount, i);
          return i, Some(i);
        }
        i := i + 1;
      }
      ScanMisses(Used(), x => true, idx', maxCount);
      rec := None;
    }
  }

  /** Zero records, zero-sized records and blocks no allocation can provide are refused. The size of
      the block is computed modulo 2^64: the database is usable exactly when that loses nothing. */
  method DatabaseInit(recNumber: nat, recSize: nat) returns (db: Database?)
    requires recNumber < TWO32 && recSize < TWO64
    ensures db == null <==> recNumber == 0 || recSize == 0 || BlockBytes(recNumber, recSize) >= TWO63
    ensures db != null ==> fresh(db) && db.maxCount == recNumber && db.recSize == recSize && db.Used() == {}
    ensures db != null ==> db.blk.Length == BlockBytes(recNumber, recSize) / recSize
    ensures db != null ==> (db.Valid() <==> recNumber * recSize < TWO64)
  {
    if recNumber == 0 || recSize == 0 || BlockBytes(recNumber, recSize) >= TWO63 {
      return null;
    }
    db := new Database(recNumber, recSize);
  }

  /** Two records of 2^63 bytes: the product comes to nothing, so the block holds no record, while
      the database would hand out two. */
  method HugeRecordsGetNoBlock() returns (db: Database?)
    ensures db != null && db.maxCount == 2 && db.blk.Length == 0 && !db.Valid()
  {
    assert BlockBytes(2, TWO63) == 0;
    db := DatabaseInit(2, TWO63);
  }
}
