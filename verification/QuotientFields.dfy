/**
 * GF(2)[X] modulo X^n + m: the arithmetic that the fields of FAEST stand for, and the proof
 * that GF(2^64) and GF(2^128), with the moduli used there, are polynomial fields.
 */
module QuotientFields {
  import opened Algebra
  import opened BitPolynomials
  import opened ShiftAddRings

  /** X * a modulo X^n + m. */
  function TimesX(a: Poly, m: Poly): (c: Poly)
    requires |a| == |m| >= 1
    ensures |c| == |a|
  {
    Plus([false] + a[..|a| - 1], if a[|a| - 1] then m else ZeroPoly(|a|))
  }

  /** Elements of type E stand for the polynomials of n coefficients. */
  datatype Quotient<!E> = Quotient(n: nat, m: Poly, of: Poly -> E, bits: E -> Poly)
  {
    function Of(w: Poly): E { of(w) }

    function Bits(a: E): Poly { bits(a) }

    function Sum(a: E, b: E): E {
      if |Bits(a)| == |Bits(b)| then Of(Plus(Bits(a), Bits(b))) else a
    }

    function Shift(a: E): E {
      if |Bits(a)| == |m| >= 1 then Of(TimesX(Bits(a), m)) else a
    }

    function ShiftMap(): E -> E { (a: E) => Shift(a) }

    function Zero(): E { Of(ZeroPoly(n)) }

    function One(): E { Of(Widen([true], if n > 0 then n else 1)) }

    /** The elements with their addition; the product is that of `Field`. */
    function Group(): Ring<E> { Ring(Zero(), One(), (a: E, b: E) => Sum(a, b), (a: E, b: E) => a) }

    function Product(a: E, b: E): E { ShiftAdd(Group(), ShiftMap(), a, Bits(b)) }

    function Field(): PolyField<E> {
      PolyField(Ring(Zero(), One(), (a: E, b: E) => Sum(a, b), (a: E, b: E) => Product(a, b)), n, Shift(One()), bits)
    }
  }

  ghost predicate ElementLaw<E>(Q: Quotient<E>, a: E) {
    |Q.Bits(a)| == Q.n && Q.Of(Q.Bits(a)) == a
  }

  ghost predicate CodeLaw<E>(Q: Quotient<E>, w: Poly) {
    |w| == Q.n ==> Q.Bits(Q.Of(w)) == w
  }

  ghost predicate QuotientLaws<E(!new)>(Q: Quotient<E>) {
    && |Q.m| == Q.n >= 1
    && (forall a: E :: ElementLaw(Q, a))
    && (forall w: Poly :: CodeLaw(Q, w))
  }

  // ---- what the operations do to the coefficients ----

  lemma SumBits<E(!new)>(Q: Quotient<E>, a: E, b: E)
    requires QuotientLaws(Q)
    ensures |Q.Bits(a)| == |Q.Bits(b)| == Q.n
    ensures Q.Bits(Q.Sum(a, b)) == Plus(Q.Bits(a), Q.Bits(b))
  {
    assert ElementLaw(Q, a) && ElementLaw(Q, b);
    assert CodeLaw(Q, Plus(Q.Bits(a), Q.Bits(b)));
  }

  lemma ShiftBits<E(!new)>(Q: Quotient<E>, a: E)
    requires QuotientLaws(Q)
    ensures |Q.Bits(a)| == Q.n
    ensures Q.Bits(Q.Shift(a)) == TimesX(Q.Bits(a), Q.m)
  {
    assert ElementLaw(Q, a);
    assert CodeLaw(Q, TimesX(Q.Bits(a), Q.m));
  }

  lemma ConstantBits<E(!new)>(Q: Quotient<E>)
    requires QuotientLaws(Q)
    ensures Q.Bits(Q.Zero()) == ZeroPoly(Q.n) && Q.Bits(Q.One()) == Widen([true], Q.n)
  {
    assert CodeLaw(Q, ZeroPoly(Q.n)) && CodeLaw(Q, Widen([true], Q.n));
  }

  lemma SameBits<E(!new)>(Q: Quotient<E>, a: E, b: E)
    requires QuotientLaws(Q) && Q.Bits(a) == Q.Bits(b)
    ensures a == b
  {
    assert ElementLaw(Q, a) && ElementLaw(Q, b);
  }

  lemma SumLaws<E(!new)>(Q: Quotient<E>, a: E, b: E, c: E)
    requires QuotientLaws(Q)
    ensures GroupLaws(Q.Field().ring, a, b, c)
  {
    SumBits(Q, a, b);
    SumBits(Q, b, a);
    SumBits(Q, Q.Sum(a, b), c);
    SumBits(Q, b, c);
    SumBits(Q, a, Q.Sum(b, c));
    SumBits(Q, a, Q.Zero());
    SumBits(Q, a, a);
    ConstantBits(Q);
    var x, y, z := Q.Bits(a), Q.Bits(b), Q.Bits(c);
    assert Plus(x, y) == Plus(y, x);
    assert Plus(Plus(x, y), z) == Plus(x, Plus(y, z));
    assert Plus(x, ZeroPoly(Q.n)) == x;
    assert Plus(x, x) == ZeroPoly(Q.n);
    SameBits(Q, Q.Sum(a, b), Q.Sum(b, a));
    SameBits(Q, Q.Sum(Q.Sum(a, b), c), Q.Sum(a, Q.Sum(b, c)));
    SameBits(Q, Q.Sum(a, Q.Zero()), a);
    SameBits(Q, Q.Sum(a, a), Q.Zero());
  }

  lemma TimesXPlus(a: Poly, b: Poly, m: Poly)
    requires |a| == |b| == |m| >= 1
    ensures TimesX(Plus(a, b), m) == Plus(TimesX(a, m), TimesX(b, m))
  {
  }

  lemma ShiftSum<E(!new)>(Q: Quotient<E>, a: E, b: E)
    requires QuotientLaws(Q)
    ensures Q.Shift(Q.Sum(a, b)) == Q.Sum(Q.Shift(a), Q.Shift(b))
  {
    SumBits(Q, a, b);
    ShiftBits(Q, a);
    ShiftBits(Q, b);
    ShiftBits(Q, Q.Sum(a, b));
    SumBits(Q, Q.Shift(a), Q.Shift(b));
    TimesXPlus(Q.Bits(a), Q.Bits(b), Q.m);
    SameBits(Q, Q.Shift(Q.Sum(a, b)), Q.Sum(Q.Shift(a), Q.Shift(b)));
  }

  lemma GroupHolds<E(!new)>(Q: Quotient<E>)
    requires QuotientLaws(Q)
    ensures Char2Group(Q.Field().ring) && Additive(Q.Field().ring, Q.Field().ring, Q.ShiftMap())
  {
    forall a: E, b: E, c: E ensures GroupLaws(Q.Field().ring, a, b, c) {
      SumLaws(Q, a, b, c);
    }
    forall a: E, b: E ensures AdditiveAt(Q.Field().ring, Q.Field().ring, Q.ShiftMap(), a, b) {
      ShiftSum(Q, a, b);
    }
  }

  // ---- the product ----

  /** Nothing overflows while the bits of a short polynomial are collected. */
  lemma ShortStep(bit: bool, w: Poly, m: Poly)
    requires |w| < |m|
    ensures Plus(if bit then Widen([true], |m|) else ZeroPoly(|m|), TimesX(Widen(w, |m|), m)) == Widen([bit] + w, |m|)
  {
    var t := Widen(w, |m|);
    assert !t[|m| - 1];
  }

  lemma {:induction false} CollectBits<E(!new)>(Q: Quotient<E>, w: Poly)
    requires QuotientLaws(Q) && |w| <= Q.n
    ensures Q.Bits(ShiftAdd(Q.Field().ring, Q.ShiftMap(), Q.One(), w)) == Widen(w, Q.n)
  {
    var R := Q.Field().ring;
    ConstantBits(Q);
    if |w| == 0 {
      assert Widen(w, Q.n) == ZeroPoly(Q.n);
    } else {
      CollectBits(Q, w[1..]);
      assert Selected(R, Q.One(), w)[1..] == Selected(R, Q.One(), w[1..]);
      var h := ShiftAdd(R, Q.ShiftMap(), Q.One(), w[1..]);
      ShiftBits(Q, h);
      SumBits(Q, if w[0] then Q.One() else Q.Zero(), Q.Shift(h));
      ShortStep(w[0], w[1..], Q.m);
      assert [w[0]] + w[1..] == w;
    }
  }

  lemma {:induction false} HornerSame<T>(R: Ring<T>, G: Ring<T>, f: T -> T, t: seq<T>)
    requires R.zero == G.zero && R.add == G.add
    ensures Horner(R, f, t) == Horner(G, f, t)
  {
    if |t| > 0 {
      HornerSame(R, G, f, t[1..]);
    }
  }

  lemma QuotientShiftAdd<E(!new)>(Q: Quotient<E>)
    requires QuotientLaws(Q)
    ensures ShiftAddLaws(Q.Field().ring, Q.ShiftMap(), Q.bits)
  {
    var R := Q.Field().ring;
    GroupHolds(Q);
    forall x: E, y: E ensures ProductLaw(R, Q.ShiftMap(), Q.bits, x, y) {
      var t := Selected(R, x, Q.Bits(y));
      assert t == Selected(Q.Group(), x, Q.Bits(y));
      assert R.add == Q.Group().add;
      HornerSame(R, Q.Group(), Q.ShiftMap(), t);
    }
    forall y: E ensures OneLaw(R, Q.ShiftMap(), Q.bits, y) {
      assert ElementLaw(Q, y);
      CollectBits(Q, Q.Bits(y));
      assert Widen(Q.Bits(y), Q.n) == Q.Bits(y);
      SameBits(Q, ShiftAdd(R, Q.ShiftMap(), Q.One(), Q.Bits(y)), y);
    }
  }

  // ---- reduction ----

  /** Multiplying by the class of the indeterminate shifts. */
  lemma TimesIndeterminate<E(!new)>(Q: Quotient<E>, y: E)
    requires QuotientLaws(Q)
    ensures Q.Field().Mul(Q.Field().x, y) == Q.Shift(y)
  {
    var R, f := Q.Field().ring, Q.ShiftMap();
    QuotientShiftAdd(Q);
    assert ProductLaw(R, f, Q.bits, Q.Shift(Q.One()), y) && OneLaw(R, f, Q.bits, y);
    ShiftAddShift(R, f, Q.One(), Q.Bits(y));
  }

  lemma {:induction false} ReduceCollects<E(!new)>(Q: Quotient<E>, w: Poly)
    requires QuotientLaws(Q)
    ensures Q.Field().Reduce(w) == ShiftAdd(Q.Field().ring, Q.ShiftMap(), Q.One(), w)
  {
    if |w| > 0 {
      ReduceCollects(Q, w[1..]);
      assert Selected(Q.Field().ring, Q.One(), w)[1..] == Selected(Q.Field().ring, Q.One(), w[1..]);
      TimesIndeterminate(Q, Q.Field().Reduce(w[1..]));
    }
  }

  /** A polynomial of n coefficients or fewer stands for itself. */
  lemma ReduceShort<E(!new)>(Q: Quotient<E>, w: Poly)
    requires QuotientLaws(Q) && |w| <= Q.n
    ensures Q.Bits(Q.Field().Reduce(w)) == Widen(w, Q.n)
  {
    ReduceCollects(Q, w);
    CollectBits(Q, w);
  }

  /** The quotient by any X^n + m meets the assumptions on polynomial fields. */
  lemma QuotientIsField<E(!new)>(Q: Quotient<E>)
    requires QuotientLaws(Q)
    ensures PolyFieldLaws(Q.Field())
  {
    var F := Q.Field();
    QuotientShiftAdd(Q);
    ShiftAddIsRing(F.ring, Q.ShiftMap(), Q.bits);
    forall a: E ensures BitsLaw(F, a) {
      assert ElementLaw(Q, a) && OneLaw(F.ring, Q.ShiftMap(), Q.bits, a);
      ReduceCollects(Q, Q.Bits(a));
    }
    forall w: Poly ensures ReduceLaw(F, w) {
      if |w| == Q.n {
        ReduceShort(Q, w);
        assert Widen(w, Q.n) == w;
      }
    }
  }

  /** In it X^n is m. */
  lemma TopPower<E(!new)>(Q: Quotient<E>)
    requires QuotientLaws(Q)
    ensures Power(Q.Field().ring, Q.Field().x, Q.n) == Q.Field().Reduce(Q.m)
  {
    var F := Q.Field();
    QuotientIsField(Q);
    FieldIsRing(F);
    hide PolyFieldLaws;
    var top, p := ZeroPoly(Q.n - 1) + [true], Power(F.ring, F.x, Q.n - 1);
    ReduceConcat(F, ZeroPoly(Q.n - 1), [true]);
    ReduceZero(F, Q.n - 1);
    MulZero(F.ring, F.x);
    AddZero(F.ring, F.ring.one);
    MulOne(F.ring, p);
    AddZero(F.ring, p);
    assert F.Reduce([true]) == F.ring.one;
    assert F.Reduce(top) == p;
    TimesIndeterminate(Q, p);
    ReduceShort(Q, top);
    ShiftBits(Q, p);
    assert Widen(top, Q.n) == top;
    assert TimesX(top, Q.m) == Q.m;
    ReduceShort(Q, Q.m);
    assert Widen(Q.m, Q.n) == Q.m;
    SameBits(Q, Q.Shift(p), F.Reduce(Q.m));
  }

  // ---- the fields in use ----

  type Poly64 = w: Poly | |w| == 64 witness ZeroPoly(64)

  type Poly128 = w: Poly | |w| == 128 witness ZeroPoly(128)

  /** X^64 = X^4 + X^3 + X + 1. */
  function Modulus64(): Poly { Widen([true, true, false, true, true], 64) }

  /** X^128 = X^7 + X^2 + X + 1. */
  function Modulus128(): Poly { Widen([true, true, true, false, false, false, false, true], 128) }

  function Element64(w: Poly): Poly64 { if |w| == 64 then w else ZeroPoly(64) }

  function Coefficients64(a: Poly64): Poly { a }

  function Quotient64(): Quotient<Poly64> {
    Quotient(64, Modulus64(), Element64, Coefficients64)
  }

  function Element128(w: Poly): Poly128 { if |w| == 128 then w else ZeroPoly(128) }

  function Coefficients128(a: Poly128): Poly { a }

  function Quotient128(): Quotient<Poly128> {
    Quotient(128, Modulus128(), Element128, Coefficients128)
  }

  lemma FaestFields()
    ensures QuotientLaws(Quotient64()) && QuotientLaws(Quotient128())
    ensures PolyFieldLaws(Quotient64().Field()) && PolyFieldLaws(Quotient128().Field())
  {
    forall a: Poly64 ensures ElementLaw(Quotient64(), a) {
    }
    forall a: Poly128 ensures ElementLaw(Quotient128(), a) {
    }
    QuotientIsField(Quotient64());
    QuotientIsField(Quotient128());
  }
}
