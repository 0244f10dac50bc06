/**
 * The portable reference kernels for multiplication in GF(256) and GF(256^2), step by
 * step as the source computes them, and the proof that they make commutative rings of
 * characteristic two: the first as a quotient of polynomials, the second as pairs.
 */
module FieldKernels {
  import opened Algebra
  import opened ByteStrings
  import opened BitPolynomials
  import opened ShiftAddRings
  import opened QuotientFields

  /** x when the selecting bit is set, zero otherwise: the kernels' constant-time selection. */
  function Gate(bit: bool, x: Byte): Byte {
    Byte(bit && x.b0, bit && x.b1, bit && x.b2, bit && x.b3, bit && x.b4, bit && x.b5, bit && x.b6, bit && x.b7)
  }

  /** Multiplication by the indeterminate: shift left, folding the top bit back in as 0x1B. */
  function Double(r: Byte): Byte {
    Byte(r.b7, r.b0 != r.b7, r.b1, r.b2 != r.b7, r.b3 != r.b7, r.b4, r.b5, r.b6)
  }

  /**
   * The accumulator after the given bits have been folded in from the top; the source
   * writes its eight identical steps out one by one.
   */
  function Accumulate(x: Byte, bits: seq<bool>): Byte {
    if |bits| == 0 then ZERO_BYTE else Gate(bits[0], x).Plus(Double(Accumulate(x, bits[1..])))
  }

  function Gf256Mul(x: Byte, y: Byte): Byte { Accumulate(x, y.Bits()) }

  // ---- GF(256) ----

  const ONE_BYTE := ZERO_BYTE.(b0 := true)

  function Gf256(): Ring<Byte> {
    Ring(ZERO_BYTE, ONE_BYTE, (a: Byte, b: Byte) => a.Plus(b), (a: Byte, b: Byte) => Gf256Mul(a, b))
  }

  /** X^8 = X^4 + X^3 + X + 1. */
  const MODULUS: Poly := [true, true, false, true, true, false, false, false]

  function FromPoly(w: Poly): Byte { if |w| == 8 then Byte.FromBits(w) else ZERO_BYTE }

  function ToPoly(b: Byte): Poly { b.Bits() }

  /** Bytes as polynomials modulo X^8 + X^4 + X^3 + X + 1. */
  function ByteQuotient(): Quotient<Byte> { Quotient(8, MODULUS, FromPoly, ToPoly) }

  lemma ByteQuotientLaws()
    ensures QuotientLaws(ByteQuotient())
  {
    forall b: Byte ensures ElementLaw(ByteQuotient(), b) {
    }
    forall w: Poly ensures CodeLaw(ByteQuotient(), w) {
      if |w| == 8 {
        BitsFromBits(w);
      }
    }
  }

  lemma SumIsPlus(a: Byte, b: Byte)
    ensures ByteQuotient().Sum(a, b) == a.Plus(b)
  {
    PlusFromBits(a.Bits(), b.Bits());
  }

  lemma PlusFromBits(s: Poly, t: Poly)
    requires |s| == |t| == 8
    ensures Byte.FromBits(Plus(s, t)) == Byte.FromBits(s).Plus(Byte.FromBits(t))
  {
  }

  lemma ConstantBytes()
    ensures ByteQuotient().Zero() == ZERO_BYTE && ByteQuotient().One() == ONE_BYTE
  {
    assert ZeroPoly(8) == ZERO_BYTE.Bits();
    assert Widen([true], 8) == ONE_BYTE.Bits();
  }

  lemma DoubleIsShift(a: Byte)
    ensures ByteQuotient().Shift(a) == Double(a)
  {
    DoubleFromBits(a.Bits());
  }

  lemma DoubleFromBits(s: Poly)
    requires |s| == 8
    ensures Byte.FromBits(TimesX(s, MODULUS)) == Double(Byte.FromBits(s))
  {
    var up, fold := [false] + s[..7], if s[7] then MODULUS else ZeroPoly(8);
    assert !up[0] && forall i | 1 <= i < 8 :: up[i] == s[i - 1];
    assert forall i | 0 <= i < 8 :: fold[i] == (s[7] && MODULUS[i]);
    assert TimesX(s, MODULUS) == Plus(up, fold);
  }

  lemma GateSelects(bit: bool, x: Byte)
    ensures Gate(bit, x) == if bit then x else ZERO_BYTE
  {
  }

  /** The kernel shifts and adds as multiplication modulo X^8 + X^4 + X^3 + X + 1 does. */
  lemma {:induction false} AccumulateIsHorner(x: Byte, bits: seq<bool>)
    ensures Accumulate(x, bits) == ShiftAdd(ByteQuotient().Group(), ByteQuotient().ShiftMap(), x, bits)
  {
    hide Double;
    hide Gate;
    hide Byte.Plus;
    var G := ByteQuotient().Group();
    ConstantBytes();
    hide ByteQuotient;
    if |bits| > 0 {
      AccumulateIsHorner(x, bits[1..]);
      assert Selected(G, x, bits)[1..] == Selected(G, x, bits[1..]);
      GateSelects(bits[0], x);
      DoubleIsShift(Accumulate(x, bits[1..]));
      SumIsPlus(Gate(bits[0], x), Double(Accumulate(x, bits[1..])));
    }
  }

  lemma SameRing<T(!new)>(R: Ring<T>, S: Ring<T>)
    requires Char2Ring(S) && R.zero == S.zero && R.one == S.one
    requires forall a: T, b: T :: R.Add(a, b) == S.Add(a, b)
    requires forall a: T, b: T :: R.Mul(a, b) == S.Mul(a, b)
    ensures Char2Ring(R)
  {
    forall a: T, b: T, c: T ensures GroupLaws(R, a, b, c) && ProductLaws(R, a, b, c) {
      assert GroupLaws(S, a, b, c) && ProductLaws(S, a, b, c);
    }
  }

  /** The reference kernel makes GF(256) a commutative ring of characteristic two. */
  lemma Gf256IsRing()
    ensures Char2Ring(Gf256())
  {
    hide Accumulate;
    var S := ByteQuotient().Field().ring;
    ByteQuotientLaws();
    QuotientIsField(ByteQuotient());
    FieldIsRing(ByteQuotient().Field());
    ConstantBytes();
    forall a: Byte, b: Byte ensures Gf256().Add(a, b) == S.Add(a, b) {
      SumIsPlus(a, b);
    }
    forall a: Byte, b: Byte ensures Gf256().Mul(a, b) == S.Mul(a, b) {
      AccumulateIsHorner(a, b.Bits());
    }
    SameRing(Gf256(), S);
  }

  // ---- GF(256^2) ----

  /** The low and the high coefficient of hi * X + lo over GF(256), reduced by X^2 + X + 32. */
  type Pair = (Byte, Byte)

  const THIRTY_TWO := ZERO_BYTE.(b5 := true)

  /** The kernel's three-multiplication product. */
  function Gf65536Mul(a: Pair, b: Pair): Pair {
    var a1b1 := Gf256Mul(a.1, b.1);
    var a0b0 := Gf256Mul(a.0, b.0);
    (a0b0.Plus(Gf256Mul(a1b1, THIRTY_TWO)), a0b0.Plus(Gf256Mul(a.0.Plus(a.1), b.0.Plus(b.1))))
  }

  function Gf65536(): Ring<Pair> {
    Ring((ZERO_BYTE, ZERO_BYTE), (ONE_BYTE, ZERO_BYTE),
         (a: Pair, b: Pair) => (a.0.Plus(b.0), a.1.Plus(b.1)), (a: Pair, b: Pair) => Gf65536Mul(a, b))
  }

  // Pairs over any ring R, with X^2 = X + k: the product is a sum of two scaled terms.

  function QAdd<T>(R: Ring<T>, a: (T, T), b: (T, T)): (T, T) { (R.Add(a.0, b.0), R.Add(a.1, b.1)) }

  function QScale<T>(R: Ring<T>, s: T, a: (T, T)): (T, T) { (R.Mul(s, a.0), R.Mul(s, a.1)) }

  function QShift<T>(R: Ring<T>, k: T, a: (T, T)): (T, T) { (R.Mul(k, a.1), R.Add(a.0, a.1)) }

  function QMul<T>(R: Ring<T>, k: T, a: (T, T), b: (T, T)): (T, T) {
    QAdd(R, QScale(R, b.0, a), QScale(R, b.1, QShift(R, k, a)))
  }

  lemma QScaleAdd<T(!new)>(R: Ring<T>, s: T, a: (T, T), b: (T, T))
    requires Char2Ring(R)
    ensures QScale(R, s, QAdd(R, a, b)) == QAdd(R, QScale(R, s, a), QScale(R, s, b))
  {
    Distribute(R, s, a.0, b.0);
    Distribute(R, s, a.1, b.1);
  }

  lemma QScaleScale<T(!new)>(R: Ring<T>, s: T, t: T, a: (T, T))
    requires Char2Ring(R)
    ensures QScale(R, s, QScale(R, t, a)) == QScale(R, t, QScale(R, s, a))
  {
    MulAssoc(R, s, t, a.0);
    MulAssoc(R, t, s, a.0);
    MulAssoc(R, s, t, a.1);
    MulAssoc(R, t, s, a.1);
    MulComm(R, s, t);
  }

  lemma QShiftAdd<T(!new)>(R: Ring<T>, k: T, a: (T, T), b: (T, T))
    requires Char2Ring(R)
    ensures QShift(R, k, QAdd(R, a, b)) == QAdd(R, QShift(R, k, a), QShift(R, k, b))
  {
    Distribute(R, k, a.1, b.1);
    AddSwap(R, a.0, b.0, a.1, b.1);
  }

  lemma QShiftScale<T(!new)>(R: Ring<T>, k: T, s: T, a: (T, T))
    requires Char2Ring(R)
    ensures QShift(R, k, QScale(R, s, a)) == QScale(R, s, QShift(R, k, a))
  {
    MulAssoc(R, k, s, a.1);
    MulAssoc(R, s, k, a.1);
    MulComm(R, s, k);
    Distribute(R, s, a.0, a.1);
  }

  lemma QAddSwap<T(!new)>(R: Ring<T>, a: (T, T), b: (T, T), c: (T, T), d: (T, T))
    requires Char2Group(R)
    ensures QAdd(R, QAdd(R, a, b), QAdd(R, c, d)) == QAdd(R, QAdd(R, a, c), QAdd(R, b, d))
  {
    AddSwap(R, a.0, b.0, c.0, d.0);
    AddSwap(R, a.1, b.1, c.1, d.1);
  }

  /** (a * b) * d is the sum of a, shifted zero, one and two times, scaled by products of coefficients. */
  lemma QMulTwice<T(!new)>(R: Ring<T>, k: T, a: (T, T), b: (T, T), d: (T, T))
    requires Char2Ring(R)
    ensures QMul(R, k, QMul(R, k, a, b), d) == QMul(R, k, QMul(R, k, a, d), b)
  {
    QMulExpand(R, k, a, b, d);
    QMulExpand(R, k, a, d, b);
    var x := QShift(R, k, a);
    var xx := QShift(R, k, x);
    QScaleScale(R, b.0, d.0, a);
    QScaleScale(R, b.1, d.0, x);
    QScaleScale(R, b.0, d.1, x);
    QScaleScale(R, b.1, d.1, xx);
    QAddSwap(R, QScale(R, d.0, QScale(R, b.0, a)), QScale(R, d.0, QScale(R, b.1, x)),
             QScale(R, d.1, QScale(R, b.0, x)), QScale(R, d.1, QScale(R, b.1, xx)));
  }

  lemma QMulExpand<T(!new)>(R: Ring<T>, k: T, a: (T, T), b: (T, T), d: (T, T))
    requires Char2Ring(R)
    ensures var x := QShift(R, k, a);
            QMul(R, k, QMul(R, k, a, b), d) ==
            QAdd(R, QAdd(R, QScale(R, d.0, QScale(R, b.0, a)), QScale(R, d.0, QScale(R, b.1, x))),
                    QAdd(R, QScale(R, d.1, QScale(R, b.0, x)), QScale(R, d.1, QScale(R, b.1, QShift(R, k, x)))))
  {
    var x := QShift(R, k, a);
    QScaleAdd(R, d.0, QScale(R, b.0, a), QScale(R, b.1, x));
    QShiftAdd(R, k, QScale(R, b.0, a), QScale(R, b.1, x));
    QShiftScale(R, k, b.0, a);
    QShiftScale(R, k, b.1, x);
    QScaleAdd(R, d.1, QScale(R, b.0, x), QScale(R, b.1, QShift(R, k, x)));
  }

  lemma QMulComm<T(!new)>(R: Ring<T>, k: T, a: (T, T), b: (T, T))
    requires Char2Ring(R)
    ensures QMul(R, k, a, b) == QMul(R, k, b, a)
  {
    MulComm(R, b.0, a.0);
    MulComm(R, b.1, R.Mul(k, a.1));
    MulAssoc(R, k, a.1, b.1);
    MulComm(R, a.1, b.1);
    MulAssoc(R, k, b.1, a.1);
    MulComm(R, a.1, R.Mul(k, b.1));
    Distribute(R, b.1, a.0, a.1);
    Distribute(R, a.1, b.0, b.1);
    MulComm(R, b.0, a.1);
    MulComm(R, b.1, a.0);
    AddAssoc(R, R.Mul(b.0, a.1), R.Mul(b.1, a.0), R.Mul(b.1, a.1));
    AddAssoc(R, R.Mul(a.0, b.1), R.Mul(a.1, b.0), R.Mul(a.1, b.1));
    AddComm(R, R.Mul(b.0, a.1), R.Mul(b.1, a.0));
  }

  lemma QMulAdd<T(!new)>(R: Ring<T>, k: T, a: (T, T), b: (T, T), c: (T, T))
    requires Char2Ring(R)
    ensures QMul(R, k, QAdd(R, a, b), c) == QAdd(R, QMul(R, k, a, c), QMul(R, k, b, c))
  {
    QScaleAdd(R, c.0, a, b);
    QShiftAdd(R, k, a, b);
    QScaleAdd(R, c.1, QShift(R, k, a), QShift(R, k, b));
    QAddSwap(R, QScale(R, c.0, a), QScale(R, c.0, b), QScale(R, c.1, QShift(R, k, a)), QScale(R, c.1, QShift(R, k, b)));
  }

  function QRing<T>(R: Ring<T>, k: T): Ring<(T, T)> {
    Ring((R.zero, R.zero), (R.one, R.zero), (a: (T, T), b: (T, T)) => QAdd(R, a, b), (a: (T, T), b: (T, T)) => QMul(R, k, a, b))
  }

  /** Pairs over a commutative ring of characteristic two are one again, whatever k is. */
  lemma QIsRing<T(!new)>(R: Ring<T>, k: T)
    requires Char2Ring(R)
    ensures Char2Ring(QRing(R, k))
  {
    forall a: (T, T), b: (T, T), c: (T, T) ensures GroupLaws(QRing(R, k), a, b, c) {
      assert GroupLaws(R, a.0, b.0, c.0) && GroupLaws(R, a.1, b.1, c.1);
    }
    forall a: (T, T), b: (T, T), c: (T, T) ensures ProductLaws(QRing(R, k), a, b, c) {
      QProductLaws(R, k, a, b, c);
    }
  }

  lemma QProductLaws<T(!new)>(R: Ring<T>, k: T, a: (T, T), b: (T, T), c: (T, T))
    requires Char2Ring(R)
    ensures ProductLaws(QRing(R, k), a, b, c)
  {
    hide Char2Ring;
    hide QMul;
    hide QAdd;
    QMulComm(R, k, a, b);
    QMulTwice(R, k, b, a, c);
    QMulComm(R, k, a, QMul(R, k, b, c));
    QMulOne(R, k, a);
    QMulAdd(R, k, b, c, a);
    QMulComm(R, k, a, QAdd(R, b, c));
    QMulComm(R, k, a, c);
  }

  /** The three-multiplication kernel computes the schoolbook product. */
  lemma KernelPairProduct<T(!new)>(R: Ring<T>, k: T, a0: T, a1: T, b0: T, b1: T)
    requires Char2Ring(R)
    ensures var a0b0 := R.Mul(a0, b0);
            (R.Add(a0b0, R.Mul(R.Mul(a1, b1), k)), R.Add(a0b0, R.Mul(R.Add(a0, a1), R.Add(b0, b1))))
            == QMul(R, k, (a0, a1), (b0, b1))
  {
    MulComm(R, a0, b0);
    MulComm(R, a1, b1);
    MulAssoc(R, b1, a1, k);
    MulComm(R, a1, k);
    // (a0 + a1)(b0 + b1) = (b0 a0 + b0 a1) + b1 (a0 + a1)
    Distribute(R, R.Add(a0, a1), b0, b1);
    MulComm(R, R.Add(a0, a1), b0);
    MulComm(R, R.Add(a0, a1), b1);
    Distribute(R, b0, a0, a1);
    AddAssoc(R, R.Mul(b0, a0), R.Mul(b0, a1), R.Mul(b1, R.Add(a0, a1)));
    AddCancel(R, R.Add(R.Mul(b0, a1), R.Mul(b1, R.Add(a0, a1))), R.Mul(b0, a0));
  }

  /** The reference kernel makes GF(256^2) a commutative ring of characteristic two. */
  lemma Gf65536IsRing()
    ensures Char2Ring(Gf65536())
  {
    hide Gf256Mul;
    var S := QRing(Gf256(), THIRTY_TWO);
    Gf256IsRing();
    QIsRing(Gf256(), THIRTY_TWO);
    forall a: Pair, b: Pair ensures Gf65536().Mul(a, b) == S.Mul(a, b) {
      KernelPairProduct(Gf256(), THIRTY_TWO, a.0, a.1, b.0, b.1);
    }
    SameRing(Gf65536(), S);
  }

  lemma QMulOne<T(!new)>(R: Ring<T>, k: T, a: (T, T))
    requires Char2Ring(R)
    ensures QMul(R, k, a, (R.one, R.zero)) == a
  {
    var x := QShift(R, k, a);
    MulOne(R, a.0);
    MulOne(R, a.1);
    MulZero(R, x.0);
    MulZero(R, x.1);
    AddZero(R, a.0);
    AddZero(R, a.1);
  }
}
