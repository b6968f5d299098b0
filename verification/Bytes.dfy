/** Bytes in memory: integers as byte strings, the in-place byte swap and the conversions between
    host order and little-endian order, and copying into a buffer. */
module Bytes {
  import opened Bits

  type byte = x: int | 0 <= x < 256

  /** The most bytes an allocation gives. */
  const MAX_MALLOC_SIZE: nat := 0x2000_0000

  // ------------------------------------------------------------------ integers as bytes

  function Pow256(n: nat): (r: nat)
    ensures r > 0
  {
    if n == 0 then 1 else 256 * Pow256(n - 1)
  }

  /** The n lowest bytes of v, lowest first. */
  function ToBytes(v: nat, n: nat): (s: seq<byte>)
    ensures |s| == n
  {
    if n == 0 then [] else [v % 256] + ToBytes(v / 256, n - 1)
  }

  function FromBytes(s: seq<byte>): (v: nat)
    ensures v < Pow256(|s|)
  {
    if s == [] then 0 else s[0] + 256 * FromBytes(s[1..])
  }

  lemma {:induction false} ValueSurvives(v: nat, n: nat)
    requires v < Pow256(n)
    ensures FromBytes(ToBytes(v, n)) == v
  {
    if n > 0 {
      ValueSurvives(v / 256, n - 1);
      assert ToBytes(v, n)[1..] == ToBytes(v / 256, n - 1);
    }
  }

  lemma {:induction false} BytesSurvive(s: seq<byte>)
    ensures ToBytes(FromBytes(s), |s|) == s
  {
    if s != [] {
      BytesSurvive(s[1..]);
      var v := FromBytes(s[1..]);
      assert (s[0] + 256 * v) % 256 == s[0] && (s[0] + 256 * v) / 256 == v;
      assert s == [s[0]] + s[1..];
    }
  }

  /** Four bytes as a number, the first one the lowest. */
  lemma LittleEndianWord(s: seq<byte>)
    requires |s| == 4
    ensures var a: int, b: int, c: int, d: int := s[0], s[1], s[2], s[3];
            FromBytes(s) == a + 0x100 * b + 0x1_0000 * c + 0x100_0000 * d
  {
    assert FromBytes(s[3..]) == s[3] by { assert s[3..][1..] == []; }
    assert s[1..][1..] == s[2..] && s[2..][1..] == s[3..];
    assert FromBytes(s[2..]) == s[2] + 256 * FromBytes(s[3..]);
    assert FromBytes(s[1..]) == s[1] + 256 * FromBytes(s[2..]);
  }

  lemma WordSizes()
    ensures Pow256(4) == TWO32 && Pow256(8) == TWO32 * TWO32
  {
    assert Pow256(2) == 65536;
    assert Pow256(4) == 256 * 256 * Pow256(2);
    assert Pow256(6) == 256 * 256 * Pow256(4);
    assert Pow256(8) == 256 * 256 * Pow256(6);
  }

  // ------------------------------------------------------------------ reversal in place

  function Reverse(s: seq<byte>): (r: seq<byte>)
    ensures |r| == |s| && forall i :: 0 <= i < |s| ==> r[i] == s[|s| - 1 - i]
  {
    if s == [] then [] else Reverse(s[1..]) + [s[0]]
  }

  lemma ReverseTwice(s: seq<byte>)
    ensures Reverse(Reverse(s)) == s
  {
  }

  /** Three exclusive ors exchange two different cells. */
  method XorSwap(a: array<byte>, left: nat, right: nat)
    requires left < right < a.Length
    modifies a
    ensures a[left] == old(a[right]) && a[right] == old(a[left])
    ensures forall k :: 0 <= k < a.Length && k != left && k != right ==> a[k] == old(a[k])
  {
    ghost var x, y := a[left], a[right];
    assert Pow2(8) == 256;
    XorBound(x, y, 8);
    XorCancels(x, y);
    a[left] := Xor(a[left], a[right]);
    assert Xor(y, Xor(x, y)) == x;
    a[right] := Xor(a[right], a[left]);
    assert Xor(Xor(x, y), x) == y by {
      XorSwapped(x, y);
    }
    a[left] := Xor(a[left], a[right]);
  }

  lemma {:induction false} XorSwapped(x: nat, y: nat)
    ensures Xor(x, y) == Xor(y, x) && Xor(Xor(x, y), x) == y
  {
    XorCommutes(x, y);
    XorCancels(y, x);
  }

  lemma {:induction false} XorCommutes(x: nat, y: nat)
    ensures Xor(x, y) == Xor(y, x)
    decreases x + y
  {
    if x != 0 && y != 0 { XorCommutes(x / 2, y / 2); }
  }

  lemma ReversedFront(before: seq<byte>, after: seq<byte>, n: nat)
    requires n <= |before| == |after|
    requires forall k :: 0 <= k < n ==> after[k] == before[n - 1 - k]
    requires forall k :: n <= k < |before| ==> after[k] == before[k]
    ensures after == Reverse(before[..n]) + before[n..]
  {
    assert after[..n] == Reverse(before[..n]);
    assert after == after[..n] + after[n..] && after[n..] == before[n..];
  }

  /** The first inSize bytes are reversed, the others stay. */
  method ShiftByte(a: array<byte>, inSize: nat)
    requires inSize <= a.Length && inSize <= 127
    modifies a
    ensures a[..] == Reverse(old(a[..inSize])) + old(a[inSize..])
  {
    ghost var before := a[..];
    var left: int, right: int := 0, inSize - 1;
    while left < right
      invariant 0 <= left <= inSize && right == inSize - 1 - left && left <= right + 2
      invariant forall k :: 0 <= k < left ==> a[k] == before[inSize - 1 - k] && a[inSize - 1 - k] == before[k]
      invariant forall k :: left <= k <= right ==> a[k] == before[k]
      invariant forall k :: inSize <= k < a.Length ==> a[k] == before[k]
    {
      XorSwap(a, left, right);
      left, right := left + 1, right - 1;
    }
    ReversedFront(before, a[..], inSize);
  }

  // ------------------------------------------------------------------ byte order

  /** The bytes of a stored n-byte integer, by increasing address. */
  function Stored(little: bool, v: nat, n: nat): (s: seq<byte>)
    ensures |s| == n
  {
    if little then ToBytes(v, n) else Reverse(ToBytes(v, n))
  }

  function Loaded(little: bool, s: seq<byte>): nat {
    FromBytes(if little then s else Reverse(s))
  }

  lemma LoadStore(little: bool, s: seq<byte>)
    ensures Stored(little, Loaded(little, s), |s|) == s
  {
    BytesSurvive(if little then s else Reverse(s));
    ReverseTwice(s);
  }

  /** Network order is big-endian. */
  function Ntohl(little: bool, v: nat): nat {
    FromBytes(Reverse(Stored(little, v, 4)))
  }

  lemma NetworkOrderOfOne(little: bool)
    ensures Ntohl(little, 1) == 1 <==> !little
  {
    var one: seq<byte> := ToBytes(1, 4);
    assert one[0] == 1 && one[3] == 0 by {
      assert ToBytes(1, 4) == [1] + ToBytes(0, 3) && ToBytes(0, 3) == [0] + ToBytes(0, 2) &&
          ToBytes(0, 2) == [0] + ToBytes(0, 1);
    }
    ReverseTwice(one);
    ValueSurvives(1, 4);
    LowestByte(Reverse(one));
  }

  /** The test value 1 reads the same in network order exactly on a big-endian host. */
  method IsLittleEndian(little: bool) returns (r: bool)
    ensures r == little
  {
    var data := 1;
    NetworkOrderOfOne(little);
    r := data != Ntohl(little, data);
  }

  lemma LowestByte(s: seq<byte>)
    requires s != []
    ensures FromBytes(s) % 256 == s[0]
  {
  }

  method ProcByteOrder(little: bool, a: array<byte>, size: nat)
    requires size <= a.Length && size <= 127
    modifies a
    ensures a[..] == if little then old(a[..]) else Reverse(old(a[..size])) + old(a[size..])
  {
    var isLittle := IsLittleEndian(little);
    if isLittle {
      return;
    }
    ShiftByte(a, size);
  }

  /** The conversion of the source, both from host to little-endian order and back: the value is
      laid out in memory, its bytes are put in order, and the memory is read as a value again. */
  function Convert(little: bool, v: nat, n: nat): nat {
    Loaded(little, ToBytes(v, n))
  }

  /** Whatever the host order, the memory of the converted value is the little-endian form. */
  lemma ConvertedIsLittleEndian(little: bool, v: nat, n: nat)
    ensures Stored(little, Convert(little, v, n), n) == ToBytes(v, n)
  {
    LoadStore(little, ToBytes(v, n));
  }

  /** A value read from little-endian memory is converted back to the value that was sent. */
  lemma ConvertBack(little: bool, v: nat, n: nat)
    requires v < Pow256(n)
    ensures Convert(little, Loaded(little, ToBytes(v, n)), n) == v
  {
    var w := Loaded(little, ToBytes(v, n));
    LoadStore(little, ToBytes(v, n));
    ReverseTwice(ToBytes(w, n));
    ValueSurvives(v, n);
  }

  /** Whatever the host order, memory that is read and converted is its little-endian value. */
  lemma ReadIsLittleEndian(little: bool, s: seq<byte>)
    ensures Convert(little, Loaded(little, s), |s|) == FromBytes(s)
  {
    BytesSurvive(if little then s else Reverse(s));
    ReverseTwice(s);
  }

  /** SoftBusHtoLs, SoftBusHtoLl, SoftBusHtoLll and their LtoH counterparts, for 2, 4 and 8 bytes. */
  method ConvertOrder(little: bool, value: nat, size: nat) returns (res: nat)
    requires size <= 127 && value < Pow256(size)
    ensures res == Convert(little, value, size)
  {
    var bytes := Stored(little, value, size);
    var mem := new byte[size](i requires 0 <= i < size => bytes[i]);
    assert mem[..size] == mem[..] == bytes && mem[size..] == [];
    ProcByteOrder(little, mem, size);
    InOrder(little, value, size);
    assert Reverse(bytes) + [] == Reverse(bytes);
    res := Loaded(little, mem[..]);
  }

  lemma InOrder(little: bool, v: nat, n: nat)
    ensures (if little then Stored(little, v, n) else Reverse(Stored(little, v, n))) == ToBytes(v, n)
  {
    ReverseTwice(ToBytes(v, n));
  }

  // ------------------------------------------------------------------ copying

  /** Copying a string into a buffer at a position. */
  method Copy(buf: array<byte>, at: nat, data: seq<byte>)
    requires at + |data| <= buf.Length
    modifies buf
    ensures buf[..] == old(buf[..at]) + data + old(buf[at + |data|..])
  {
    var i := 0;
    while i < |data|
      invariant i <= |data|
      invariant forall k :: 0 <= k < at || at + i <= k < buf.Length ==> buf[k] == old(buf[k])
      invariant buf[at..at + i] == data[..i]
    {
      buf[at + i] := data[i];
      i := i + 1;
    }
    assert buf[..at] == old(buf[..at]) && buf[at + |data|..] == old(buf[at + |data|..]);
    assert buf[..] == buf[..at] + buf[at..at + |data|] + buf[at + |data|..];
  }
}
