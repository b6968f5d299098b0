/** The send rate from negotiated WiFi rates: integer formulas over 32-bit words.

    `Theta`, `Combined` and `PacketsPerInterval` compute as the source does, every operation modulo
    2^32; `ExactTheta` and the other exact forms compute over the integers. */
module SendRate {
  import opened Bits

  const MIN_MTU: nat := 64
  const MAX_MTU: nat := 65536
  const MAX_RATE: nat := 2500
  const SAFE_MTU: nat := 22369
  const ACCURACY: nat := 1000
  const HEAD_BYTES: nat := 44
  const PROTOCOL_HEAD: nat := 42
  const NON_DATA_TIME: nat := 277
  const MB_SIZE: nat := 1048576
  const LEAST_RATE: nat := 3

  datatype Station = Station(txRate: nat, rxRate: nat)

  // ------------------------------------------------------------------ the formulas of the source

  function AssembleNum(speed: nat): nat {
    var times := speed / 100;
    if times > 1 then U32(times * 8) else 8
  }

  function AllSize(speedByte: nat, mtu: nat, assemble: nat): nat {
    U32(U32(NON_DATA_TIME * speedByte) + U32(U32(HEAD_BYTES + mtu) * assemble))
  }

  /** Share of the air time that carries data, per thousand. */
  function Theta(speedByte: nat, mtu: nat): nat
    requires AllSize(speedByte, mtu, AssembleNum(U32(speedByte * 8))) > 0
  {
    var assemble := AssembleNum(U32(speedByte * 8));
    Quotient(U32(ACCURACY * U32(mtu * assemble)), AllSize(speedByte, mtu, assemble))
  }

  // ------------------------------------------------------------------ the formulas over the integers

  function ExactAssemble(speedByte: nat): (r: nat)
    ensures r >= 8
  {
    if speedByte * 8 / 100 > 1 then speedByte * 8 / 100 * 8 else 8
  }

  function ExactAllSize(speedByte: nat, mtu: nat, assemble: nat): nat {
    NON_DATA_TIME * speedByte + (HEAD_BYTES + mtu) * assemble
  }

  lemma SizeOrder(s: nat, mtu: nat, a: nat)
    requires a > 0
    ensures mtu * a < ExactAllSize(s, mtu, a)
  {
    assert (HEAD_BYTES + mtu) * a == HEAD_BYTES * a + mtu * a;
  }

  function Quotient(p: nat, d: nat): nat
    requires d > 0
  {
    p / d
  }

  function ExactTheta(speedByte: nat, mtu: nat): nat {
    var a := ExactAssemble(speedByte);
    SizeOrder(speedByte, mtu, a);
    Quotient(ACCURACY * (mtu * a), ExactAllSize(speedByte, mtu, a))
  }

  lemma {:induction false} MulBound(x: nat, y: nat, a: nat, b: nat)
    requires x <= a && y <= b
    ensures x * y <= a * b
  {
    assert a * b - x * y == (a - x) * b + x * (b - y);
    assert (a - x) * b >= 0 && x * (b - y) >= 0;
  }

  /** With the rates a station can negotiate, at most 192 frames are assembled. */
  lemma AssembleBound(s: nat)
    requires s <= MAX_RATE / 8
    ensures 8 <= ExactAssemble(s) <= 192 && AssembleNum(U32(s * 8)) == ExactAssemble(s)
  {
  }

  lemma ProductsFit(mtu: nat, a: nat)
    requires mtu <= MAX_MTU && a <= 192
    ensures 0 <= (HEAD_BYTES + mtu) * a <= 12591360 && 0 <= mtu * a <= 12582912
  {
    MulBound(HEAD_BYTES + mtu, a, HEAD_BYTES + MAX_MTU, 192);
    MulBound(mtu, a, MAX_MTU, 192);
  }

  lemma AllSizeExact(s: nat, mtu: nat, a: nat)
    requires s <= MAX_RATE / 8 && mtu <= MAX_MTU && a <= 192
    ensures AllSize(s, mtu, a) == ExactAllSize(s, mtu, a) <= 12677784 && U32(mtu * a) == mtu * a
  {
    ProductsFit(mtu, a);
    var h := (HEAD_BYTES + mtu) * a;
    SmallWord(HEAD_BYTES + mtu);
    SmallWord(h);
    SmallWord(NON_DATA_TIME * s);
    SmallWord(NON_DATA_TIME * s + h);
    SmallWord(mtu * a);
  }

  /** The only product that can leave 32 bits is the scaled frame size, and the share of air time is
      computed exactly if and only if it does not. */
  lemma ThetaExactly(s: nat, mtu: nat)
    requires s <= MAX_RATE / 8 && mtu <= MAX_MTU
    ensures AllSize(s, mtu, AssembleNum(U32(s * 8))) > 0
    ensures Theta(s, mtu) == ExactTheta(s, mtu) <==> ACCURACY * (mtu * ExactAssemble(s)) < TWO32
  {
    var a := ExactAssemble(s);
    AssembleBound(s);
    AllSizeExact(s, mtu, a);
    SizeOrder(s, mtu, a);
    ScaledQuotient(ACCURACY * (mtu * a), ExactAllSize(s, mtu, a));
  }

  lemma ScaledQuotient(p: nat, d: nat)
    requires 0 < d <= TWO32
    ensures Quotient(U32(p), d) == Quotient(p, d) <==> p < TWO32
  {
    if p < TWO32 { SmallWord(p); } else { WrapLowersQuotient(p, d); }
  }

  lemma WrapLowersQuotient(p: nat, d: nat)
    requires p >= TWO32 && 0 < d <= TWO32
    ensures U32(p) / d < p / d
  {
    var r := U32(p);
    assert p == TWO32 * (p / TWO32) + r && p / TWO32 >= 1;
    assert r + d <= p;
    QuotientStep(r, p, d);
  }

  lemma QuotientStep(r: nat, p: nat, d: nat)
    requires d > 0 && r + d <= p
    ensures r / d < p / d
  {
    var q, q' := r / d, p / d;
    assert r == d * q + r % d && p == d * q' + p % d;
    assert d * (q' - q) == d * q' - d * q;
    SmallMultiple(d, q' - q);
  }

  // ------------------------------------------------------------------ the safe region

  /** The scaled frame size of a side stays below 2^32. */
  predicate ScaleFits(s: nat, mtu: nat) {
    ACCURACY * (mtu * ExactAssemble(s)) < TWO32
  }

  /** Up to this MTU no rate makes the scaled size leave 32 bits. */
  lemma SafeMtuFits(s: nat, mtu: nat)
    requires s <= MAX_RATE / 8 && mtu <= SAFE_MTU
    ensures ScaleFits(s, mtu)
  {
    AssembleBound(s);
    MulBound(mtu, ExactAssemble(s), SAFE_MTU, 192);
  }

  lemma Cancel(d: nat, x: int, y: int)
    requires d > 0
    ensures d * x < d * y + d ==> x <= y
  {
    if x > y {
      AtLeastOnce(d, x - y);
      assert d * (x - y) == d * x - d * y;
    }
  }

  lemma QuotientBelow(p: nat, d: nat, k: nat)
    requires d > 0 && p < d * k
    ensures Quotient(p, d) < k
  {
    var q := p / d;
    assert d * (q + 1) == d * q + d;
    Cancel(d, q + 1, k);
  }

  lemma QuotientPositive(p: nat, d: nat)
    requires 0 < d <= p
    ensures Quotient(p, d) >= 1
  {
    Cancel(d, 1, p / d);
  }

  lemma ThetaSizes(s: nat, mtu: nat, a: nat)
    requires s <= MAX_RATE / 8 && mtu > MIN_MTU && 8 <= a <= 192
    ensures ExactAllSize(s, mtu, a) <= ACCURACY * (mtu * a) < ExactAllSize(s, mtu, a) * ACCURACY
  {
    MulBound(65, 8, mtu, a);
    assert (HEAD_BYTES + mtu) * a == HEAD_BYTES * a + mtu * a;
  }

  /** While the scaled size fits, the share is exact, positive and below one thousand. */
  lemma ThetaInRange(s: nat, mtu: nat)
    requires s <= MAX_RATE / 8 && MIN_MTU < mtu <= MAX_MTU && ScaleFits(s, mtu)
    ensures AllSize(s, mtu, AssembleNum(U32(s * 8))) > 0
    ensures Theta(s, mtu) == ExactTheta(s, mtu) && 1 <= Theta(s, mtu) < ACCURACY
  {
    var a := ExactAssemble(s);
    AssembleBound(s);
    ThetaExactly(s, mtu);
    ThetaSizes(s, mtu, a);
    QuotientBelow(ACCURACY * (mtu * a), ExactAllSize(s, mtu, a), ACCURACY);
    QuotientPositive(ACCURACY * (mtu * a), ExactAllSize(s, mtu, a));
  }

  /** A side whose computed share of air time is not zero. */
  predicate Survives(s: nat, mtu: nat) {
    s > 0 && U32(ACCURACY * (mtu * ExactAssemble(s))) >= ExactAllSize(s, mtu, ExactAssemble(s))
  }

  lemma QuotientZero(p: nat, d: nat)
    requires d > 0
    ensures Quotient(p, d) > 0 <==> p >= d
  {
    if p >= d {
      QuotientPositive(p, d);
    } else {
      QuotientBelow(p, d, 1);
    }
  }

  /** For every MTU the check admits, wrapped or not, the share is below one thousand, and it is
      zero exactly when the reduced scaled size is smaller than the total size. */
  lemma ThetaBounds(s: nat, mtu: nat)
    requires s <= MAX_RATE / 8 && MIN_MTU < mtu <= MAX_MTU
    ensures AllSize(s, mtu, AssembleNum(U32(s * 8))) > 0 && Theta(s, mtu) < ACCURACY
    ensures s > 0 && Theta(s, mtu) > 0 <==> Survives(s, mtu)
  {
    var a := ExactAssemble(s);
    AssembleBound(s);
    AllSizeExact(s, mtu, a);
    SizeOrder(s, mtu, a);
    ThetaSizes(s, mtu, a);
    ReducedQuotient(ACCURACY * (mtu * a), ExactAllSize(s, mtu, a));
  }

  lemma ReducedQuotient(p: nat, d: nat)
    requires d > 0 && p < d * ACCURACY
    ensures Quotient(U32(p), d) < ACCURACY && (Quotient(U32(p), d) > 0 <==> U32(p) >= d)
  {
    assert U32(p) <= p;
    QuotientZero(U32(p), d);
    QuotientBelow(U32(p), d, ACCURACY);
  }

  /** One byte above it, at the top rate, the product wraps and the share comes out as nothing. */
  lemma FirstUnsafeMtu()
    ensures AllSize(312, SAFE_MTU + 1, AssembleNum(U32(312 * 8))) > 0
    ensures Theta(312, SAFE_MTU + 1) == 0 && ExactTheta(312, SAFE_MTU + 1) == 978
  {
    AssembleBound(312);
    AllSizeExact(312, 22370, 192);
    assert ExactAssemble(312) == 192 && ExactAllSize(312, 22370, 192) == 4389912;
    assert 22370 * 192 == 4295040 && U32(4295040000) == 72704;
    assert Quotient(72704, 4389912) == 0 && Quotient(4295040000, 4389912) == 978;
  }

  // ------------------------------------------------------------------ the combined rate

  function Divisor(sTx: nat, thTx: nat, sRx: nat, thRx: nat): nat {
    U32(U32(sTx * thTx) + U32(sRx * thRx))
  }

  function Combined(sTx: nat, thTx: nat, sRx: nat, thRx: nat): nat
    requires Divisor(sTx, thTx, sRx, thRx) > 0
  {
    Quotient(U32(U32(Quotient(U32(sTx * thTx), ACCURACY) * sRx) * thRx), Divisor(sTx, thTx, sRx, thRx))
  }

  function ExactCombined(a: nat, b: nat): nat
    requires a + b > 0
  {
    Quotient(Quotient(a, ACCURACY) * b, a + b)
  }

  lemma SideProduct(s: nat, th: nat)
    requires s <= 312 && th < ACCURACY
    ensures 0 <= s * th <= 311688 && U32(s * th) == s * th
  {
    MulBound(s, th, 312, 999);
    SmallWord(s * th);
  }

  lemma TripleProduct(e: nat, s: nat, th: nat)
    requires e <= 311 && s <= 312 && th < ACCURACY
    ensures U32(U32(e * s) * th) == e * (s * th)
  {
    MulBound(e, s, 311, 312);
    Assoc(e, s, th);
    var p := e * s;
    SmallWord(p);
    MulBound(p, th, 97032, 999);
    SmallWord(p * th);
  }

  lemma Assoc(x: nat, y: nat, z: nat)
    ensures (x * y) * z == x * (y * z)
  {
  }

  lemma DivisorExact(sTx: nat, thTx: nat, sRx: nat, thRx: nat, a: nat, b: nat)
    requires sTx <= 312 && sRx <= 312 && thTx < ACCURACY && thRx < ACCURACY && a == sTx * thTx && b == sRx * thRx
    ensures Divisor(sTx, thTx, sRx, thRx) == a + b
  {
    SideProduct(sTx, thTx);
    SideProduct(sRx, thRx);
    SmallWord(a + b);
  }

  lemma CombinedExact(sTx: nat, thTx: nat, sRx: nat, thRx: nat, a: nat, b: nat)
    requires sTx <= 312 && sRx <= 312 && thTx < ACCURACY && thRx < ACCURACY && a == sTx * thTx && b == sRx * thRx
    ensures Divisor(sTx, thTx, sRx, thRx) == a + b
    ensures a + b > 0 ==> Combined(sTx, thTx, sRx, thRx) == ExactCombined(a, b)
  {
    DivisorExact(sTx, thTx, sRx, thRx, a, b);
    SideProduct(sTx, thTx);
    TripleProduct(Quotient(a, ACCURACY), sRx, thRx);
  }

  /** The combined rate is at most what either side could do alone. */
  lemma CombinedBelowBoth(a: nat, b: nat)
    requires a + b > 0
    ensures ExactCombined(a, b) <= Quotient(a, ACCURACY) && ExactCombined(a, b) <= Quotient(b, ACCURACY)
  {
    var e := Quotient(a, ACCURACY);
    QuotientTimes(e * b, a + b);
    BelowFirst(a, b, e, ExactCombined(a, b));
    BelowSecond(a, b, e, ExactCombined(a, b));
  }

  lemma QuotientTimes(p: nat, d: nat)
    requires d > 0
    ensures d * Quotient(p, d) <= p
  {
  }

  lemma BelowFirst(a: nat, b: nat, e: nat, r: nat)
    requires a + b > 0 && (a + b) * r <= e * b
    ensures r <= e
  {
    MulBound(e, b, e, a + b);
    assert e * (a + b) == (a + b) * e;
    Cancel(a + b, r, e);
  }

  lemma BelowSecond(a: nat, b: nat, e: nat, r: nat)
    requires a + b > 0 && (a + b) * r <= e * b && ACCURACY * e <= a
    ensures r <= Quotient(b, ACCURACY)
  {
    MulBound(ACCURACY * e, b, a, b);
    MulBound(a, b, a + b, b);
    assert (ACCURACY * e) * b == ACCURACY * (e * b) && (a + b) * (ACCURACY * r) == ACCURACY * ((a + b) * r);
    Cancel(a + b, ACCURACY * r, b);
  }

  // ------------------------------------------------------------------ packets per interval

  /** Packets of a size to be sent per 5 ms for a rate in megabytes per second. */
  function Packets(rate: nat, size: nat): nat
    requires size > 0
  {
    U32(Quotient(U32(rate * MB_SIZE), size) * 5) / 1000
  }

  function ExactPackets(rate: nat, size: nat): nat
    requires size > 0
  {
    Quotient(rate * MB_SIZE, size) * 5 / 1000
  }

  function Clamped(packets: nat): nat {
    if packets < LEAST_RATE then LEAST_RATE else packets
  }

  lemma PerSecondBound(rate: nat, size: nat)
    requires rate <= 311 && size >= 65
    ensures Quotient(rate * MB_SIZE, size) < 5017034
  {
    MulBound(65, 5017034, size, 5017034);
    QuotientBelow(rate * MB_SIZE, size, 5017034);
  }

  lemma PacketsExact(rate: nat, size: nat)
    requires rate <= 311 && size >= 65
    ensures Packets(rate, size) == ExactPackets(rate, size) <= 25086
  {
    PerSecondBound(rate, size);
    SmallWord(rate * MB_SIZE);
    SmallWord(Quotient(rate * MB_SIZE, size) * 5);
  }

  // ------------------------------------------------------------------ the WLAN rate

  predicate RateValid(rate: nat) {
    0 < rate <= MAX_RATE
  }

  function SpeedRx(tx: Station, rx: Station): nat {
    if rx.rxRate == 0 then tx.txRate / 8 else rx.rxRate / 8
  }

  predicate ShareComputable(speed: nat, mtu: nat) {
    AllSize(speed, mtu, AssembleNum(U32(speed * 8))) > 0
  }

  /** The formula divides only where no divisor is zero. */
  predicate Computable(sTx: nat, sRx: nat, mtu: nat) {
    ShareComputable(sTx, mtu) && ShareComputable(sRx, mtu) && Divisor(sTx, Theta(sTx, mtu), sRx, Theta(sRx, mtu)) > 0
  }

  /** Speed times share, in thousandths. */
  function Scaled(speed: nat, mtu: nat): nat {
    speed * ExactTheta(speed, mtu)
  }

  /** The rate in megabytes per second that a side reaches alone. */
  function OwnRate(speed: nat, mtu: nat): nat {
    Quotient(Scaled(speed, mtu), ACCURACY)
  }

  /** The combined rate in megabytes per second, as computed and over the integers. */
  function Rate(sTx: nat, sRx: nat, mtu: nat): nat
    requires Computable(sTx, sRx, mtu)
  {
    Combined(sTx, Theta(sTx, mtu), sRx, Theta(sRx, mtu))
  }

  function ExactRate(sTx: nat, sRx: nat, mtu: nat): nat {
    var a, b := Scaled(sTx, mtu), Scaled(sRx, mtu);
    if a + b > 0 then ExactCombined(a, b) else 0
  }

  /** A refusal, a division by zero, or packets per interval. */
  datatype Result = Refused | DivisionByZero | PerInterval(packets: nat)

  method GetWlanSendRate(tx: Station, rx: Station, mtu: nat) returns (r: Result)
    ensures r.Refused? <==> !RateValid(rx.rxRate)
    ensures r.DivisionByZero? <==> RateValid(rx.rxRate) && !Computable(tx.txRate / 8, rx.rxRate / 8, mtu)
    ensures r.PerInterval? ==>
              r.packets == Clamped(Packets(Rate(tx.txRate / 8, rx.rxRate / 8, mtu), mtu + PROTOCOL_HEAD) % 65536)
  {
    if !RateValid(rx.rxRate) {
      return Refused;
    }
    var speedTx, speedRx := tx.txRate / 8, SpeedRx(tx, rx);
    if !ShareComputable(speedTx, mtu) || !ShareComputable(speedRx, mtu) {
      return DivisionByZero;
    }
    var thetaTx, thetaRx := Theta(speedTx, mtu), Theta(speedRx, mtu);
    if Divisor(speedTx, thetaTx, speedRx, thetaRx) == 0 {
      return DivisionByZero;
    }
    var sendRateOri := Combined(speedTx, thetaTx, speedRx, thetaRx);
    var sendRate := Packets(sendRateOri, mtu + PROTOCOL_HEAD) % 65536;
    if sendRate < LEAST_RATE {
      sendRate := LEAST_RATE;
    }
    return PerInterval(sendRate);
  }

  lemma SidePositive(s: nat, th: nat)
    ensures s * th > 0 <==> s > 0 && th > 0
  {
    if s > 0 && th > 0 { MulBound(1, 1, s, th); }
  }

  lemma DivisorPositive(sTx: nat, thTx: nat, sRx: nat, thRx: nat)
    requires sTx <= 312 && sRx <= 312 && thTx < ACCURACY && thRx < ACCURACY
    ensures Divisor(sTx, thTx, sRx, thRx) > 0 <==> (sTx > 0 && thTx > 0) || (sRx > 0 && thRx > 0)
  {
    SidePositive(sTx, thTx);
    SidePositive(sRx, thRx);
    DivisorExact(sTx, thTx, sRx, thRx, sTx * thTx, sRx * thRx);
  }

  /** The combination of any two shares in range. */
  lemma CombinedInRange(sTx: nat, thTx: nat, sRx: nat, thRx: nat, a: nat, b: nat)
    requires sTx <= 312 && sRx <= 312 && 1 <= thTx < ACCURACY && 1 <= thRx < ACCURACY && (sTx > 0 || sRx > 0)
    requires a == sTx * thTx && b == sRx * thRx
    ensures Divisor(sTx, thTx, sRx, thRx) > 0 && a + b > 0
    ensures Combined(sTx, thTx, sRx, thRx) == ExactCombined(a, b)
    ensures ExactCombined(a, b) <= Quotient(a, ACCURACY) <= 311 && ExactCombined(a, b) <= Quotient(b, ACCURACY)
  {
    SidePositive(sTx, thTx);
    SidePositive(sRx, thRx);
    DivisorPositive(sTx, thTx, sRx, thRx);
    CombinedExact(sTx, thTx, sRx, thRx, a, b);
    CombinedBelowBoth(a, b);
    SideProduct(sTx, thTx);
  }

  /** For every MTU the check admits, the formula divides by zero exactly when neither side has a
      share of air time left. */
  lemma ComputableExactly(sTx: nat, sRx: nat, mtu: nat)
    requires sTx <= 312 && sRx <= 312 && MIN_MTU < mtu <= MAX_MTU
    ensures Computable(sTx, sRx, mtu) <==> Survives(sTx, mtu) || Survives(sRx, mtu)
  {
    ThetaBounds(sTx, mtu);
    ThetaBounds(sRx, mtu);
    DivisorPositive(sTx, Theta(sTx, mtu), sRx, Theta(sRx, mtu));
  }

  /** While its scaled size fits, a side keeps its share exactly when it reaches 8 Mbps. */
  lemma FittingSideSurvives(s: nat, mtu: nat)
    requires s <= 312 && MIN_MTU < mtu <= MAX_MTU && ScaleFits(s, mtu)
    ensures Survives(s, mtu) <==> s > 0
  {
    ThetaInRange(s, mtu);
    ThetaBounds(s, mtu);
  }

  /** So two rates below 8 Mbps divide by zero, and so do two top rates at the first unsafe MTU. */
  lemma DividesByZero(mtu: nat)
    requires MIN_MTU < mtu <= MAX_MTU
    ensures !Computable(0, 0, mtu) && !Computable(312, 312, SAFE_MTU + 1)
  {
    ComputableExactly(0, 0, mtu);
    FirstUnsafeMtu();
    ThetaBounds(312, SAFE_MTU + 1);
    ComputableExactly(312, 312, SAFE_MTU + 1);
  }

  // ------------------------------------------------------------------ every intermediate value

  /** A value that a 32-bit word holds unreduced. */
  predicate Fits(x: int) {
    U32(x) == x
  }

  lemma FitsExactly(x: int)
    ensures Fits(x) <==> 0 <= x < TWO32
  {
  }

  /** No step in the share of one side loses anything, and the share is in range; `data` and `all`
      are the frame size and the size with heads, times the frame count. */
  ghost predicate ShareNoWrap(s: nat, mtu: nat, a: nat, data: nat, all: nat) {
    && a == AssembleNum(s * 8) && data == mtu * a && all == (HEAD_BYTES + mtu) * a
    && Fits(s * 8) && Fits(data) && Fits(ACCURACY * data)
    && Fits(NON_DATA_TIME * s) && Fits(HEAD_BYTES + mtu) && Fits(all) && Fits(NON_DATA_TIME * s + all)
    && ShareComputable(s, mtu) && Theta(s, mtu) == ExactTheta(s, mtu) && 1 <= Theta(s, mtu) <= 999
  }

  /** None in the combination of two sides with products a and b; f and g are the partial products
      of the dividend. */
  ghost predicate CombineNoWrap(sTx: nat, thTx: nat, sRx: nat, thRx: nat, a: nat, b: nat, f: nat, g: nat) {
    && a == sTx * thTx && b == sRx * thRx && f == Quotient(a, ACCURACY) * sRx && g == f * thRx
    && Fits(a) && Fits(b) && Fits(f) && Fits(g) && Fits(a + b)
  }

  /** None in the packet count, where q packets go in a second. */
  ghost predicate PacketsNoWrap(rate: nat, size: nat, q: nat) {
    && size > 0 && q == Quotient(rate * MB_SIZE, size)
    && Fits(size) && Fits(rate * MB_SIZE) && Fits(q * 5)
    && Packets(rate, size) == ExactPackets(rate, size) < 65536
    && LEAST_RATE <= Clamped(Packets(rate, size) % 65536) == Clamped(ExactPackets(rate, size)) < 65536
  }

  lemma ShareWords(s: nat, mtu: nat, data: nat, all: nat)
    requires s <= 312 && mtu <= MAX_MTU && data <= 12582912 && all <= 12591360
    ensures Fits(s * 8) && Fits(data) && Fits(NON_DATA_TIME * s) && Fits(HEAD_BYTES + mtu) && Fits(all) &&
        Fits(NON_DATA_TIME * s + all)
  {
    FitsExactly(s * 8);
    FitsExactly(data);
    FitsExactly(NON_DATA_TIME * s);
    FitsExactly(HEAD_BYTES + mtu);
    FitsExactly(all);
    FitsExactly(NON_DATA_TIME * s + all);
  }

  lemma ShareSteps(s: nat, mtu: nat, a: nat, data: nat, all: nat)
    requires s <= 312 && MIN_MTU < mtu <= MAX_MTU && a == ExactAssemble(s) && data == mtu * a &&
        all == (HEAD_BYTES + mtu) * a
    ensures ShareNoWrap(s, mtu, a, data, all) <==> ScaleFits(s, mtu)
  {
    AssembleBound(s);
    ProductsFit(mtu, a);
    ShareWords(s, mtu, data, all);
    FitsExactly(ACCURACY * data);
    if ScaleFits(s, mtu) { ThetaInRange(s, mtu); }
  }

  lemma CombineSteps(sTx: nat, thTx: nat, sRx: nat, thRx: nat, a: nat, b: nat, f: nat, g: nat)
    requires sTx <= 312 && sRx <= 312 && thTx < ACCURACY && thRx < ACCURACY
    requires a == sTx * thTx && b == sRx * thRx && f == Quotient(a, ACCURACY) * sRx && g == f * thRx
    ensures CombineNoWrap(sTx, thTx, sRx, thRx, a, b, f, g)
  {
    SideProduct(sTx, thTx);
    SideProduct(sRx, thRx);
    MulBound(Quotient(a, ACCURACY), sRx, 311, 312);
    MulBound(f, thRx, 97032, 999);
    FitsExactly(a + b);
    FitsExactly(f);
    FitsExactly(g);
  }

  lemma PacketsSteps(rate: nat, size: nat, q: nat)
    requires rate <= 311 && 65 <= size < TWO32 && q == Quotient(rate * MB_SIZE, size)
    ensures PacketsNoWrap(rate, size, q)
  {
    PacketsExact(rate, size);
    PerSecondBound(rate, size);
    FitsExactly(size);
    FitsExactly(rate * MB_SIZE);
    FitsExactly(q * 5);
  }

  /** Every 32-bit intermediate of the whole formula equals its integer value. */
  ghost predicate NoWrap(sTx: nat, sRx: nat, mtu: nat) {
    && ShareExact(sTx, mtu) && ShareExact(sRx, mtu) && Computable(sTx, sRx, mtu)
    && CombineExact(sTx, Theta(sTx, mtu), sRx, Theta(sRx, mtu))
    && PacketsNoWrap(Rate(sTx, sRx, mtu), mtu + PROTOCOL_HEAD,
        Quotient(Rate(sTx, sRx, mtu) * MB_SIZE, mtu + PROTOCOL_HEAD))
  }

  ghost predicate ShareExact(s: nat, mtu: nat) {
    var a := ExactAssemble(s);
    ShareNoWrap(s, mtu, a, mtu * a, (HEAD_BYTES + mtu) * a)
  }

  ghost predicate CombineExact(sTx: nat, thTx: nat, sRx: nat, thRx: nat) {
    var a, b := sTx * thTx, sRx * thRx;
    var f := Quotient(a, ACCURACY) * sRx;
    CombineNoWrap(sTx, thTx, sRx, thRx, a, b, f, f * thRx)
  }

  lemma ShareExactly(s: nat, mtu: nat)
    requires s <= 312 && MIN_MTU < mtu <= MAX_MTU
    ensures ShareExact(s, mtu) <==> ScaleFits(s, mtu)
  {
    var a := ExactAssemble(s);
    ShareSteps(s, mtu, a, mtu * a, (HEAD_BYTES + mtu) * a);
  }

  lemma CombineIsExact(sTx: nat, thTx: nat, sRx: nat, thRx: nat)
    requires sTx <= 312 && sRx <= 312 && thTx < ACCURACY && thRx < ACCURACY
    ensures CombineExact(sTx, thTx, sRx, thRx)
  {
    var a, b := sTx * thTx, sRx * thRx;
    var f := Quotient(a, ACCURACY) * sRx;
    CombineSteps(sTx, thTx, sRx, thRx, a, b, f, f * thRx);
  }

  lemma RateExact(sTx: nat, sRx: nat, mtu: nat)
    requires sTx <= 312 && sRx <= 312 && (sTx > 0 || sRx > 0) && MIN_MTU < mtu <= MAX_MTU && ScaleFits(sTx, mtu) &&
        ScaleFits(sRx, mtu)
    ensures Computable(sTx, sRx, mtu) && Rate(sTx, sRx, mtu) == ExactRate(sTx, sRx, mtu) <= 311
    ensures Rate(sTx, sRx, mtu) <= OwnRate(sTx, mtu) && Rate(sTx, sRx, mtu) <= OwnRate(sRx, mtu)
  {
    ThetaInRange(sTx, mtu);
    ThetaInRange(sRx, mtu);
    CombinedInRange(sTx, Theta(sTx, mtu), sRx, Theta(sRx, mtu), Scaled(sTx, mtu), Scaled(sRx, mtu));
  }

  lemma FittingStepsExact(sTx: nat, sRx: nat, mtu: nat)
    requires sTx <= 312 && sRx <= 312 && (sTx > 0 || sRx > 0) && MIN_MTU < mtu <= MAX_MTU && ScaleFits(sTx, mtu) &&
        ScaleFits(sRx, mtu)
    ensures NoWrap(sTx, sRx, mtu)
  {
    ShareExactly(sTx, mtu);
    ShareExactly(sRx, mtu);
    ThetaInRange(sTx, mtu);
    ThetaInRange(sRx, mtu);
    RateExact(sTx, sRx, mtu);
    CombineIsExact(sTx, Theta(sTx, mtu), sRx, Theta(sRx, mtu));
    PacketsSteps(Rate(sTx, sRx, mtu), mtu + PROTOCOL_HEAD,
      Quotient(Rate(sTx, sRx, mtu) * MB_SIZE, mtu + PROTOCOL_HEAD));
  }

  /** For every MTU the check admits and rates of which one reaches 8 Mbps, every intermediate is
      exact if and only if the scaled sizes of both sides fit. */
  lemma NoWrapExactly(sTx: nat, sRx: nat, mtu: nat)
    requires sTx <= 312 && sRx <= 312 && (sTx > 0 || sRx > 0) && MIN_MTU < mtu <= MAX_MTU
    ensures NoWrap(sTx, sRx, mtu) <==> ScaleFits(sTx, mtu) && ScaleFits(sRx, mtu)
  {
    ShareExactly(sTx, mtu);
    ShareExactly(sRx, mtu);
    if ScaleFits(sTx, mtu) && ScaleFits(sRx, mtu) { FittingStepsExact(sTx, sRx, mtu); }
  }

  /** In the safe region every 32-bit intermediate is exact, the shares of air time are between 1
      and 999 per thousand, the combined rate is at most either side's own, and the packet count
      fits 16 bits and is at least three after the clamp. */
  lemma WlanRateExact(txRate: nat, rxRate: nat, mtu: nat, sTx: nat, sRx: nat)
    requires txRate <= MAX_RATE && rxRate <= MAX_RATE && (txRate >= 8 || rxRate >= 8) && MIN_MTU < mtu <= SAFE_MTU
    requires sTx == txRate / 8 && sRx == rxRate / 8
    ensures NoWrap(sTx, sRx, mtu) && Rate(sTx, sRx, mtu) == ExactRate(sTx, sRx, mtu)
    ensures Rate(sTx, sRx, mtu) <= OwnRate(sTx, mtu) && Rate(sTx, sRx, mtu) <= OwnRate(sRx, mtu)
  {
    SafeMtuFits(sTx, mtu);
    SafeMtuFits(sRx, mtu);
    FittingStepsExact(sTx, sRx, mtu);
    RateExact(sTx, sRx, mtu);
  }

  // ------------------------------------------------------------------ the P2P rate

  /** A fifth more, capped at 16 bits. */
  function Enhanced(packets: nat): nat {
    if packets * 120 / 100 > 65535 then 65535 else packets * 120 / 100
  }

  /** The speed of the faster of the two transmitters. */
  function FasterSpeed(tx: Station, rx: Station): nat {
    (if tx.txRate < rx.txRate then rx.txRate else tx.txRate) / 8
  }

  function EffectiveRate(speed: nat, theta: nat): nat {
    Quotient(U32(speed * theta), ACCURACY)
  }

  function P2pPackets(speed: nat, mtu: nat): nat
    requires ShareComputable(speed, mtu) && mtu > 0
  {
    Packets(EffectiveRate(speed, Theta(speed, mtu)), mtu) % 65536
  }

  method GetP2pSendRate(tx: Station, rx: Station, mtu: nat) returns (r: Result)
    ensures r.DivisionByZero? <==> mtu == 0 || !ShareComputable(FasterSpeed(tx, rx), mtu)
    ensures !r.DivisionByZero? ==> r == PerInterval(Clamped(Enhanced(P2pPackets(FasterSpeed(tx, rx), mtu))))
  {
    var station := tx.txRate;
    if tx.txRate < rx.txRate {
      station := rx.txRate;
    }
    var speedTx := station / 8;
    if mtu == 0 || !ShareComputable(speedTx, mtu) {
      return DivisionByZero;
    }
    var thetaTx := Theta(speedTx, mtu);
    var sendRateOri := EffectiveRate(speedTx, thetaTx);
    var realSendRate := Packets(sendRateOri, mtu) % 65536;
    var sendRate := Enhanced(realSendRate);
    if sendRate < LEAST_RATE {
      sendRate := LEAST_RATE;
    }
    return PerInterval(sendRate);
  }

  lemma EnhancedFits(n: nat)
    requires n <= 25086
    ensures Enhanced(n) == n * 120 / 100 < 65535
  {
  }

  lemma EffectiveRateExact(s: nat, th: nat)
    requires s <= 312 && th < ACCURACY
    ensures EffectiveRate(s, th) == Quotient(s * th, ACCURACY) <= 311
  {
    SideProduct(s, th);
  }

  lemma SixteenBits(rate: nat, size: nat)
    requires rate <= 311 && size >= 65
    ensures Packets(rate, size) % 65536 == ExactPackets(rate, size) <= 25086
  {
    PacketsExact(rate, size);
  }

  lemma P2pCountExact(s: nat, mtu: nat)
    requires s <= 312 && MIN_MTU < mtu <= MAX_MTU && ScaleFits(s, mtu)
    ensures ShareComputable(s, mtu) && P2pPackets(s, mtu) == ExactPackets(OwnRate(s, mtu), mtu) <= 25086
  {
    ThetaInRange(s, mtu);
    EffectiveRateExact(s, Theta(s, mtu));
    SixteenBits(OwnRate(s, mtu), mtu);
  }

  /** In the safe region the P2P count is the exact one, and the cap at 16 bits is never reached. */
  lemma P2pRateExact(tx: Station, rx: Station, mtu: nat, s: nat)
    requires tx.txRate <= MAX_RATE && rx.txRate <= MAX_RATE && MIN_MTU < mtu <= SAFE_MTU && s == FasterSpeed(tx, rx)
    ensures ShareComputable(s, mtu) && P2pPackets(s, mtu) == ExactPackets(OwnRate(s, mtu), mtu)
    ensures Enhanced(P2pPackets(s, mtu)) == P2pPackets(s, mtu) * 120 / 100 < 65535
  {
    SafeMtuFits(s, mtu);
    P2pCountExact(s, mtu);
    EnhancedFits(P2pPackets(s, mtu));
  }

  /** The speed is the eighth part of the faster transmitter's rate, rounded down. */
  lemma FasterSpeedExactly(tx: Station, rx: Station)
    ensures var speed := FasterSpeed(tx, rx);
            && tx.txRate < 8 * speed + 8 && rx.txRate < 8 * speed + 8
            && (8 * speed <= tx.txRate || 8 * speed <= rx.txRate)
  {
  }

  // ------------------------------------------------------------------ the formulas in numbers

  /** Eight frames for every hundred megabits per second, at least eight. */
  predicate FramesAre(s: nat, a: nat) {
    && a % 8 == 0 && a >= 8
    && 8 * s < 100 * (a / 8 + 1) && (a > 8 ==> 100 * (a / 8) <= 8 * s)
  }

  /** th is p / d rounded down. */
  predicate RoundedDown(th: nat, p: nat, d: nat) {
    th * d <= p < th * d + d
  }

  /** The share of the air time: 1000 times the data of a frames over that data, 44 bytes a frame and
      what could be sent in 277 microseconds. */
  predicate ShareIs(s: nat, mtu: nat, a: nat, th: nat) {
    RoundedDown(th, 1000 * (mtu * a), 277 * s + (44 + mtu) * a)
  }

  /** The rate that two directions with weights a and b share: (a / 1000) b / (a + b). */
  ghost predicate SharedRateIs(a: nat, b: nat, r: nat) {
    exists e: nat :: RoundedDown(e, a, 1000) && RoundedDown(r, e * b, a + b)
  }

  /** Packets of a size in five milliseconds at a rate of 2^20 bytes per second. */
  ghost predicate PacketsAre(rate: nat, size: nat, n: nat) {
    exists q: nat :: RoundedDown(q, rate * 1048576, size) && RoundedDown(n, q * 5, 1000)
  }

  lemma FramesExact(s: nat)
    ensures FramesAre(s, ExactAssemble(s))
  {
  }

  lemma QuotientRoundsDown(p: nat, d: nat)
    requires d > 0
    ensures RoundedDown(Quotient(p, d), p, d)
  {
  }

  /** What is rounded down is determined. */
  lemma RoundedDownUnique(x: nat, y: nat, p: nat, d: nat)
    requires RoundedDown(x, p, d) && RoundedDown(y, p, d)
    ensures x == y
  {
    if x < y { MulBound(x + 1, d, y, d); }
    if y < x { MulBound(y + 1, d, x, d); }
  }

  lemma ShareExactNumbers(s: nat, mtu: nat)
    ensures ShareIs(s, mtu, ExactAssemble(s), ExactTheta(s, mtu))
  {
    SizeOrder(s, mtu, ExactAssemble(s));
    QuotientRoundsDown(1000 * (mtu * ExactAssemble(s)), ExactAllSize(s, mtu, ExactAssemble(s)));
  }

  lemma SharedRateNumbers(a: nat, b: nat)
    requires a + b > 0
    ensures SharedRateIs(a, b, ExactCombined(a, b))
  {
    QuotientRoundsDown(a, 1000);
    QuotientRoundsDown(Quotient(a, 1000) * b, a + b);
  }

  lemma PacketNumbers(rate: nat, size: nat)
    requires size > 0
    ensures PacketsAre(rate, size, ExactPackets(rate, size))
  {
    QuotientRoundsDown(rate * 1048576, size);
    QuotientRoundsDown(Quotient(rate * 1048576, size) * 5, 1000);
  }

  /** The integer formulas, by numbers. First the assembled frames and the share of the air time. */
  lemma ShareNumbers(s: nat, mtu: nat)
    ensures FramesAre(s, ExactAssemble(s)) && ShareIs(s, mtu, ExactAssemble(s), ExactTheta(s, mtu))
  {
    FramesExact(s);
    ShareExactNumbers(s, mtu);
  }

  /** The WLAN rate of two weights, and its packets with 42 bytes of protocol heads each. */
  lemma WlanNumbers(sTx: nat, sRx: nat, mtu: nat, a: nat, b: nat, rate: nat)
    requires a == sTx * ExactTheta(sTx, mtu) && b == sRx * ExactTheta(sRx, mtu) && rate == ExactRate(sTx, sRx, mtu)
    ensures a + b > 0 ==> SharedRateIs(a, b, rate)
    ensures PacketsAre(rate, mtu + 42, ExactPackets(rate, mtu + PROTOCOL_HEAD))
  {
    if a + b > 0 { SharedRateNumbers(a, b); }
    PacketNumbers(rate, mtu + 42);
  }

  /** The P2P rate of one weight, and its packets. */
  lemma P2pNumbers(s: nat, mtu: nat, a: nat, rate: nat)
    requires mtu > 0 && a == s * ExactTheta(s, mtu) && rate == OwnRate(s, mtu)
    ensures RoundedDown(rate, a, 1000) && PacketsAre(rate, mtu, ExactPackets(rate, mtu))
  {
    QuotientRoundsDown(a, 1000);
    PacketNumbers(rate, mtu);
  }

  /** At least three packets are sent, and a fifth is added up to 16 bits. */
  lemma ClampedNumbers(n: nat)
    ensures Clamped(n) >= 3 && (Clamped(n) == n <==> n >= 3) && (n < 3 ==> Clamped(n) == 3)
    ensures Enhanced(n) <= 65535
    ensures 5 * Enhanced(n) <= 6 * n < 5 * Enhanced(n) + 5 || (Enhanced(n) == 65535 && 6 * n >= 327680)
  {
  }

  // ------------------------------------------------------------------ the entry point

  datatype Connection = Wlan | P2p | OtherConnection

  predicate MtuValid(mtu: nat) {
    MIN_MTU < mtu <= MAX_MTU
  }

  /** The WLAN result in terms of the integer formula, for rates that can be negotiated. */
  ghost predicate WlanExact(r: Result, sTx: nat, sRx: nat, mtu: nat) {
    && (r.DivisionByZero? <==> !Survives(sTx, mtu) && !Survives(sRx, mtu))
    && (ScaleFits(sTx, mtu) && ScaleFits(sRx, mtu) && (sTx > 0 || sRx > 0) ==>
          r == PerInterval(Clamped(ExactPackets(ExactRate(sTx, sRx, mtu), mtu + PROTOCOL_HEAD))))
  }

  /** The P2P result likewise; it never divides by zero. */
  ghost predicate P2pExact(r: Result, speed: nat, mtu: nat)
    requires mtu > 0
  {
    && r.PerInterval?
    && (ScaleFits(speed, mtu) ==> r == PerInterval(Clamped(ExactPackets(OwnRate(speed, mtu), mtu) * 120 / 100)))
  }

  lemma WlanResultExact(r: Result, sTx: nat, sRx: nat, mtu: nat)
    requires sTx <= 312 && sRx <= 312 && MtuValid(mtu) && !r.Refused?
    requires r.DivisionByZero? <==> !Computable(sTx, sRx, mtu)
    requires r.PerInterval? ==> r.packets == Clamped(Packets(Rate(sTx, sRx, mtu), mtu + PROTOCOL_HEAD) % 65536)
    ensures WlanExact(r, sTx, sRx, mtu)
  {
    ComputableExactly(sTx, sRx, mtu);
    if ScaleFits(sTx, mtu) && ScaleFits(sRx, mtu) && (sTx > 0 || sRx > 0) {
      RateExact(sTx, sRx, mtu);
      SixteenBits(Rate(sTx, sRx, mtu), mtu + PROTOCOL_HEAD);
    }
  }

  lemma P2pResultExact(r: Result, speed: nat, mtu: nat)
    requires speed <= 312 && MtuValid(mtu)
    requires r.DivisionByZero? <==> !ShareComputable(speed, mtu)
    requires !r.DivisionByZero? ==> r == PerInterval(Clamped(Enhanced(P2pPackets(speed, mtu))))
    ensures P2pExact(r, speed, mtu)
  {
    ThetaBounds(speed, mtu);
    if ScaleFits(speed, mtu) {
      P2pCountExact(speed, mtu);
      EnhancedFits(P2pPackets(speed, mtu));
    }
  }

  /** An MTU outside 65 to 65536 and an unknown connection are refused; the rest goes to its formula.
      With rates a station can negotiate, the WLAN formula divides by zero exactly when neither side
      survives and the P2P formula never, and where the scaled sizes fit, which they do up to MTU
      22369, the result is the integer formula's. */
  method GetCongestSendRate(tx: Station, rx: Station, connection: Connection, mtu: nat) returns (r: Result)
    ensures r.Refused? <==>
              !MtuValid(mtu) || connection == OtherConnection || (connection == Wlan && !RateValid(rx.rxRate))
    ensures r.Refused? <==>
              || mtu <= 64 || mtu > 65536 || connection == OtherConnection
              || (connection == Wlan && (rx.rxRate == 0 || rx.rxRate > 2500))
    ensures connection == Wlan && !r.Refused? && tx.txRate <= MAX_RATE ==>
        WlanExact(r, tx.txRate / 8, rx.rxRate / 8, mtu)
    ensures connection == P2p && !r.Refused? && tx.txRate <= MAX_RATE && rx.txRate <= MAX_RATE ==>
              P2pExact(r, FasterSpeed(tx, rx), mtu)
    ensures r.PerInterval? ==> r.packets >= 3
  {
    if mtu <= MIN_MTU || mtu > MAX_MTU {
      return Refused;
    }
    match connection {
      case Wlan =>
        r := GetWlanSendRate(tx, rx, mtu);
        if !r.Refused? && tx.txRate <= MAX_RATE { WlanResultExact(r, tx.txRate / 8, rx.rxRate / 8, mtu); }
      case P2p =>
        r := GetP2pSendRate(tx, rx, mtu);
        if tx.txRate <= MAX_RATE && rx.txRate <= MAX_RATE { P2pResultExact(r, FasterSpeed(tx, rx), mtu); }
      case OtherConnection => return Refused;
    }
  }
}
