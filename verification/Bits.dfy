/** Unsigned machine words as natural numbers, and the C bit operators on them.

    The bit operators are defined by recursion on the binary digits, so that what
    the callers need (masking, testing, setting and clearing a bit, exclusive or)
    is proved once for words of any width. */
module Bits {

  const TWO31: nat := 0x8000_0000
  const TWO32: nat := 0x1_0000_0000
  const TWO63: nat := 0x8000_0000_0000_0000
  const TWO64: nat := 0x1_0000_0000_0000_0000

  /** The value a 32-bit unsigned register holds after computing `x`. */
  function U32(x: int): (r: nat)
    ensures r < TWO32
  {
    x % TWO32
  }

  function Pow2(k: nat): (r: nat)
    ensures r > 0
  {
    if k == 0 then 1 else 2 * Pow2(k - 1)
  }

  /** The binary digit of weight 2^k. */
  predicate Bit(x: nat, k: nat) {
    if k == 0 then x % 2 == 1 else Bit(x / 2, k - 1)
  }

  function And(x: nat, y: nat): nat {
    if x == 0 || y == 0 then 0 else 2 * And(x / 2, y / 2) + (x % 2) * (y % 2)
  }

  function Or(x: nat, y: nat): nat
    decreases x + y
  {
    if x == 0 then y else if y == 0 then x
    else 2 * Or(x / 2, y / 2) + (if x % 2 == 0 && y % 2 == 0 then 0 else 1)
  }

  function Xor(x: nat, y: nat): nat
    decreases x + y
  {
    if x == 0 then y else if y == 0 then x
    else 2 * Xor(x / 2, y / 2) + (if x % 2 == y % 2 then 0 else 1)
  }

  lemma {:induction false} BitOfZero(k: nat)
    ensures !Bit(0, k)
  {
    if k > 0 { BitOfZero(k - 1); }
  }

  lemma AndHalf(x: nat, y: nat)
    ensures And(x, y) / 2 == And(x / 2, y / 2) && And(x, y) % 2 == if x % 2 == 1 && y % 2 == 1 then 1 else 0
  {
    assert (x % 2) * (y % 2) == if x % 2 == 1 && y % 2 == 1 then 1 else 0;
  }

  lemma {:induction false} BitAnd(x: nat, y: nat, k: nat)
    ensures Bit(And(x, y), k) == (Bit(x, k) && Bit(y, k))
    decreases k
  {
    AndHalf(x, y);
    if k > 0 { BitAnd(x / 2, y / 2, k - 1); }
  }

  lemma OrHalf(x: nat, y: nat)
    ensures Or(x, y) / 2 == Or(x / 2, y / 2) && Or(x, y) % 2 == if x % 2 == 0 && y % 2 == 0 then 0 else 1
  {
  }

  lemma {:induction false} BitOr(x: nat, y: nat, k: nat)
    ensures Bit(Or(x, y), k) == (Bit(x, k) || Bit(y, k))
    decreases k
  {
    OrHalf(x, y);
    if k > 0 { BitOr(x / 2, y / 2, k - 1); }
  }

  lemma {:induction false} BitOfPow2(j: nat, k: nat)
    ensures Bit(Pow2(j), k) == (j == k)
    decreases k
  {
    if k > 0 {
      if j == 0 { BitOfZero(k - 1); } else { BitOfPow2(j - 1, k - 1); }
    }
  }

  /** Words of width w are equal when they agree on every digit below w. */
  lemma {:induction false} BitsDetermine(x: nat, y: nat, w: nat)
    requires x < Pow2(w) && y < Pow2(w)
    requires forall k :: 0 <= k < w ==> Bit(x, k) == Bit(y, k)
    ensures x == y
    decreases w
  {
    if w > 0 {
      forall k | 0 <= k < w - 1 ensures Bit(x / 2, k) == Bit(y / 2, k) {
        assert Bit(x, k + 1) == Bit(y, k + 1);
      }
      BitsDetermine(x / 2, y / 2, w - 1);
      assert Bit(x, 0) == Bit(y, 0);
    }
  }

  lemma {:induction false} BitOfOnes(w: nat, k: nat)
    ensures Bit(Pow2(w) - 1, k) == (k < w)
    decreases w
  {
    if w == 0 {
      BitOfZero(k);
    } else if k > 0 {
      assert (Pow2(w) - 1) / 2 == Pow2(w - 1) - 1;
      BitOfOnes(w - 1, k - 1);
    }
  }

  /** The digits of `~(1 << j)` in a word of width w. */
  lemma {:induction false} BitOfComplement(w: nat, j: nat, k: nat)
    requires j < w
    ensures Pow2(j) < Pow2(w) && Bit(Pow2(w) - 1 - Pow2(j), k) == (k < w && k != j)
    decreases w
  {
    Pow2Monotone(j, w);
    if j == 0 {
      if k > 0 {
        assert (Pow2(w) - 2) / 2 == Pow2(w - 1) - 1;
        BitOfOnes(w - 1, k - 1);
      }
    } else if k > 0 {
      assert (Pow2(w) - 1 - Pow2(j)) / 2 == Pow2(w - 1) - 1 - Pow2(j - 1);
      BitOfComplement(w - 1, j - 1, k - 1);
    }
  }

  lemma {:induction false} Pow2Monotone(j: nat, w: nat)
    requires j < w
    ensures 2 * Pow2(j) <= Pow2(w)
    decreases w
  {
    if j < w - 1 { Pow2Monotone(j, w - 1); }
  }

  lemma TwiceProduct(x: nat, y: nat)
    ensures (2 * x) * y == 2 * (x * y)
  {
  }

  lemma {:induction false} Pow2Add(a: nat, b: nat)
    ensures Pow2(a + b) == Pow2(a) * Pow2(b)
    decreases a
  {
    if a > 0 {
      Pow2Add(a - 1, b);
      TwiceProduct(Pow2(a - 1), Pow2(b));
    }
  }

  lemma Pow2Of32()
    ensures Pow2(32) == TWO32
  {
    assert Pow2(8) == 256;
    Pow2Add(8, 8);
    Pow2Add(16, 16);
  }

  lemma {:induction false} AndBound(x: nat, y: nat)
    ensures And(x, y) <= x && And(x, y) <= y
    decreases x
  {
    if x != 0 && y != 0 {
      AndBound(x / 2, y / 2);
      assert (x % 2) * (y % 2) <= x % 2 && (x % 2) * (y % 2) <= y % 2;
    }
  }

  lemma {:induction false} OrBound(x: nat, y: nat, w: nat)
    requires x < Pow2(w) && y < Pow2(w)
    ensures Or(x, y) < Pow2(w)
    decreases w
  {
    if x != 0 && y != 0 { OrBound(x / 2, y / 2, w - 1); }
  }

  lemma {:induction false} XorBound(x: nat, y: nat, w: nat)
    requires x < Pow2(w) && y < Pow2(w)
    ensures Xor(x, y) < Pow2(w)
    decreases w
  {
    if x != 0 && y != 0 { XorBound(x / 2, y / 2, w - 1); }
  }

  /** Exclusive or with the same word twice is the identity, on either side. */
  lemma {:induction false} XorCancels(x: nat, y: nat)
    ensures Xor(Xor(x, y), y) == x
    ensures Xor(y, Xor(x, y)) == x
    decreases x + y
  {
    XorSelf(y);
    if x != 0 && y != 0 {
      XorCancels(x / 2, y / 2);
      var z := Xor(x, y);
      assert z / 2 == Xor(x / 2, y / 2);
      if z == 0 { XorZero(x, y); }
    } else if x == 0 {
      XorSelf(y);
    }
  }

  lemma {:induction false} XorSelf(x: nat)
    ensures Xor(x, x) == 0
  {
    if x != 0 { XorSelf(x / 2); }
  }

  lemma {:induction false} XorZero(x: nat, y: nat)
    requires Xor(x, y) == 0
    ensures x == y
    decreases x + y
  {
    if x != 0 && y != 0 { XorZero(x / 2, y / 2); }
  }

  /** A mask of ones, halved and its lowest digit. */
  lemma MaskHalf(x: nat, m: nat)
    requires m > 0
    ensures And(x, 2 * m - 1) == 2 * And(x / 2, m - 1) + x % 2
  {
    var ones := 2 * m - 1;
    assert ones / 2 == m - 1 && ones % 2 == 1;
    AndHalf(x, ones);
  }

  /** Masking with 2^k - 1 takes the remainder modulo 2^k. */
  lemma {:induction false} MaskIsMod(x: nat, k: nat)
    ensures And(x, Pow2(k) - 1) == x % Pow2(k)
    decreases k
  {
    if k > 0 {
      MaskIsMod(x / 2, k - 1);
      MaskHalf(x, Pow2(k - 1));
      ModDouble(x, Pow2(k - 1));
    }
  }

  lemma MaskSmall(x: nat, k: nat)
    requires x < Pow2(k)
    ensures And(x, Pow2(k) - 1) == x
  {
    MaskIsMod(x, k);
    ModUnique(x, Pow2(k), 0, x);
  }

  lemma ModDouble(x: nat, m: nat)
    requires m > 0
    ensures x % (2 * m) == 2 * ((x / 2) % m) + x % 2
  {
    var q, r := (x / 2) / m, (x / 2) % m;
    assert x == 2 * (m * q + r) + x % 2 == (2 * m) * q + (2 * r + x % 2);
    ModUnique(x, 2 * m, q, 2 * r + x % 2);
  }

  /** A multiple of d other than zero is at least d away from zero. */
  lemma SmallMultiple(d: int, k: int)
    requires d > 0
    ensures k != 0 ==> d * k >= d || d * k <= -d
  {
    if k >= 1 {
      assert d * k == d + d * (k - 1);
      assert d * (k - 1) >= 0;
    } else if k <= -1 {
      assert d * k == d * (k + 1) - d;
      assert d * (k + 1) <= 0;
    }
  }

  lemma {:induction false} AtLeastOnce(d: nat, k: nat)
    requires k >= 1
    ensures d * k >= d
  {
    if k > 1 {
      AtLeastOnce(d, k - 1);
      assert d * k == d * (k - 1) + d;
    }
  }

  lemma ModUnique(x: int, d: nat, q: int, r: nat)
    requires d > 0 && r < d && x == d * q + r
    ensures x % d == r && x / d == q
  {
    var q', r' := x / d, x % d;
    assert x == d * q' + r' && 0 <= r' < d;
    assert d * (q - q') == d * q - d * q';
    SmallMultiple(d, q - q');
  }

  /** Reducing modulo 2^32 first does not change a slot number: unit counts divide 2^32. */
  lemma ModMod(g: nat, k: nat)
    requires k <= 32
    ensures U32(g) % Pow2(k) == g % Pow2(k)
  {
    Pow2Of32();
    Pow2Add(k, 32 - k);
    var n, c := Pow2(k), Pow2(32 - k);
    ModOfProduct(g, n, c);
  }

  lemma ModOfProduct(g: nat, n: nat, c: nat)
    requires n > 0 && c > 0 && n * c > 0
    ensures g % (n * c) % n == g % n
  {
    var q, r := g / (n * c), g % (n * c);
    assert g == (n * c) * q + r;
    assert (n * c) * q == n * (c * q);
    assert r == n * (r / n) + r % n;
    assert n * (c * q) + n * (r / n) == n * (c * q + r / n);
    ModUnique(g, n, c * q + r / n, r % n);
  }

  /** Distinct numbers that are less than d apart differ modulo d. */
  lemma CloseDiffer(a: int, b: int, d: nat)
    requires a < b < a + d
    ensures a % d != b % d
  {
    var q := b / d - a / d;
    assert a == d * (a / d) + a % d && b == d * (b / d) + b % d;
    assert d * q == d * (b / d) - d * (a / d);
    SmallMultiple(d, q);
  }

  // ------------------------------------------------------------------ 32-bit words

  lemma SmallWord(x: int)
    ensures 0 <= x < TWO32 ==> U32(x) == x
  {
  }

  /** Adding to a word is adding before the reduction. */
  lemma WordStep(n: int, d: int)
    ensures U32(U32(n) + d) == U32(n + d)
  {
  }

  /** A difference of words is the difference before the reduction. */
  lemma WordSub(a: int, b: nat, c: nat)
    ensures U32(a + U32(b) - U32(c)) == U32(a + b - c)
  {
    var q := b / TWO32 - c / TWO32;
    assert b - c == U32(b) - U32(c) + TWO32 * q;
    var y := a + U32(b) - U32(c);
    assert a + b - c == TWO32 * (q + y / TWO32) + y % TWO32;
    ModUnique(a + b - c, TWO32, q + y / TWO32, y % TWO32);
  }

  lemma WordDifference(a: int, b: nat, c: nat)
    requires 0 <= a + b - c < TWO32
    ensures U32(a + U32(b) - U32(c)) == a + b - c
  {
    WordSub(a, b, c);
  }

  // ------------------------------------------------------------------ signed numbers

  function ToUnsigned(x: int, range: nat): (u: nat)
    requires range > 0
    ensures u < range
  {
    x % range
  }

  function ToSigned(u: nat, range: nat): int {
    if 2 * u >= range then u - range else u
  }

  predicate FitsSigned(x: int, range: nat) {
    0 <= 2 * x + range < 2 * range
  }

  /** The two's complement reading: the value in the signed range that is congruent to u. */
  lemma SignedReading(u: nat, range: nat)
    requires u < range && range % 2 == 0
    ensures FitsSigned(ToSigned(u, range), range) && ToUnsigned(ToSigned(u, range), range) == u
  {
    if 2 * u >= range { ModUnique(u - range, range, -1, u); } else { ModUnique(u, range, 0, u); }
  }

  lemma SignedSurvives(x: int, range: nat)
    requires range > 0 && FitsSigned(x, range)
    ensures ToSigned(ToUnsigned(x, range), range) == x
  {
    if x >= 0 { ModUnique(x, range, 0, x); } else { ModUnique(x, range, -1, x + range); }
  }
}
