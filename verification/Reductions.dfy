/**
 * Reduction of wide products as the source computes it: the part above X^n is multiplied by
 * m = X^n carry-less and folded back, until nothing is left above.
 */
module Reductions {
  import opened Algebra
  import opened BitPolynomials
  import opened QuotientFields

  /** m, held in a register that may be wider or narrower than an element, is X^n. */
  ghost predicate Folds<E(!new)>(F: PolyField<E>, m: Poly) {
    PolyFieldLaws(F) && Power(F.ring, F.x, F.n) == F.Reduce(m)
  }

  lemma FoldOnce<E(!new)>(F: PolyField<E>, m: Poly, lo: Poly, hi: Poly)
    requires Folds(F, m) && |lo| == F.n
    ensures F.Reduce(lo + hi) == F.Add(F.Reduce(lo), F.Reduce(Clmul(m, hi)))
  {
    ReduceConcat(F, lo, hi);
    ReduceClmul(F, m, hi);
  }

  lemma OwnBits<E(!new)>(F: PolyField<E>, w: Poly, a: E)
    requires PolyFieldLaws(F) && |w| == F.n && F.Reduce(w) == a
    ensures F.Bits(a) == w
  {
    assert ReduceLaw(F, w);
  }

  /** A product has no coefficients from the sum of the bounds of its factors on. */
  lemma {:induction false} ClmulZeroFrom(a: Poly, i: nat, b: Poly, j: nat)
    requires i <= |a| && ZeroFrom(a, i) && ZeroFrom(b, j)
    ensures ZeroFrom(Clmul(a, b), if j == 0 then 0 else i + j)
  {
    if |b| > 0 {
      ClmulZeroFrom(a, i, b[1..], if j == 0 then 0 else j - 1);
    }
  }

  // ---- 2n coefficients to n, with a small m ----

  /** After two folds nothing is left above. */
  lemma FoldTwice<E(!new)>(F: PolyField<E>, m: Poly, k: nat, w: Poly, high: Poly, highHigh: Poly)
    requires Folds(F, m) && |m| == F.n && |w| == 2 * F.n && ZeroFrom(m, k) && 2 * k <= F.n
    requires high == Clmul(m, w[F.n..]) && highHigh == Clmul(m, high[F.n..])
    ensures F.Reduce(Plus(Plus(w, high), highHigh)[..F.n]) == F.Reduce(w)
  {
    var n, R := F.n, F.ring;
    FieldIsRing(F);
    ClmulZeroFrom(m, k, w[n..], n);
    ClmulZeroFrom(m, k, high[n..], k);
    assert w == w[..n] + w[n..] && high == high[..n] + high[n..];
    FoldOnce(F, m, w[..n], w[n..]);
    FoldOnce(F, m, high[..n], high[n..]);
    hide Clmul;
    hide PolyFieldLaws;
    assert highHigh == Widen(highHigh[..n], 2 * n);
    ReduceWiden(F, highHigh[..n], 2 * n);
    ReducePlus(F, w[..n], high[..n]);
    ReducePlus(F, Plus(w[..n], high[..n]), highHigh[..n]);
    assert Plus(Plus(w, high), highHigh)[..n] == Plus(Plus(w[..n], high[..n]), highHigh[..n]);
    AddAssoc(R, F.Reduce(w[..n]), F.Reduce(high[..n]), F.Reduce(highHigh));
  }

  method ReduceHalf<E(!new)>(F: PolyField<E>, m: Poly, ghost k: nat, w: Poly) returns (out: Poly)
    requires Folds(F, m) && |m| == F.n && |w| == 2 * F.n && ZeroFrom(m, k) && 2 * k <= F.n
    ensures out == F.Bits(F.Reduce(w))
  {
    var high := Clmul(m, w[F.n..]);
    var highHigh := Clmul(m, high[F.n..]);
    // only the low half is right, and only that is kept
    out := Plus(Plus(w, high), highHigh)[..F.n];
    FoldTwice(F, m, k, w, high, highHigh);
    OwnBits(F, out, F.Reduce(w));
  }

  /** X^n times an element. */
  method TimesTopReduced<E(!new)>(F: PolyField<E>, m: Poly, ghost k: nat, a: Poly) returns (out: Poly)
    requires Folds(F, m) && |m| == F.n && |a| == F.n && ZeroFrom(m, k) && 2 * k <= F.n
    ensures out == F.Bits(F.Mul(Power(F.ring, F.x, F.n), F.Reduce(a)))
  {
    var high := Clmul(m, a);
    var highHigh := Clmul(m, high[F.n..]);
    out := Plus(high, highHigh)[..F.n];
    ghost var w := ZeroPoly(F.n) + a;
    FoldTwice(F, m, k, w, high, highHigh);
    assert out == Plus(Plus(w, high), highHigh)[..F.n];
    ReduceConcat(F, ZeroPoly(F.n), a);
    ReduceZero(F, F.n);
    AddZero(F.ring, F.Mul(Power(F.ring, F.x, F.n), F.Reduce(a)));
    OwnBits(F, out, F.Reduce(w));
  }

  // ---- elements of two registers, m in one ----

  /** One register above an element. */
  method ReduceThreeHalves<E(!new)>(F: PolyField<E>, m: Poly, w: Poly) returns (out: Poly)
    requires Folds(F, m) && 2 * |m| == F.n && |w| == 3 * |m|
    ensures out == F.Bits(F.Reduce(w))
  {
    out := Plus(w[..F.n], Clmul(m, w[F.n..]));
    assert w == w[..F.n] + w[F.n..];
    FoldOnce(F, m, w[..F.n], w[F.n..]);
    ReducePlus(F, w[..F.n], Clmul(m, w[F.n..]));
    OwnBits(F, out, F.Reduce(w));
  }

  /** Two registers above an element: the upper one is folded into the middle first. */
  method ReduceDouble<E(!new)>(F: PolyField<E>, m: Poly, w: Poly) returns (out: Poly)
    requires Folds(F, m) && 2 * |m| == F.n && |w| == 2 * F.n
    ensures out == F.Bits(F.Reduce(w))
  {
    var h := |m|;
    var reduced := Clmul(m, w[3 * h..]);
    var low := Plus(w[..F.n], ZeroPoly(h) + reduced[..h]);
    var up := Plus(w[F.n..3 * h], reduced[h..]);
    out := Plus(low, Clmul(m, up));
    FoldUpper(F, m, w[..F.n], w[F.n..3 * h], w[3 * h..], reduced);
    assert w == w[..F.n] + (w[F.n..3 * h] + w[3 * h..]);
    FoldOnce(F, m, low, up);
    ReducePlus(F, low, Clmul(m, up));
    OwnBits(F, out, F.Reduce(w));
  }

  /** Folding the top register, shifted by one register, changes the two registers below it. */
  lemma FoldUpper<E(!new)>(F: PolyField<E>, m: Poly, x: Poly, a: Poly, b: Poly, reduced: Poly)
    requires Folds(F, m) && 2 * |m| == F.n == |x| && |a| == |b| == |m| && reduced == Clmul(m, b)
    ensures F.Reduce(x + (a + b)) == F.Reduce(Plus(x, ZeroPoly(|m|) + reduced[..|m|]) + Plus(a, reduced[|m|..]))
  {
    var h, R := |m|, F.ring;
    FieldIsRing(F);
    var s, t := Power(R, F.x, h), Power(R, F.x, F.n);
    ReduceClmul(F, m, b);
    hide Clmul;
    hide PolyFieldLaws;
    var rx, ra, rb, lo, up := F.Reduce(x), F.Reduce(a), F.Reduce(b), F.Reduce(reduced[..h]), F.Reduce(reduced[h..]);
    assert reduced == reduced[..h] + reduced[h..];
    ReduceConcat(F, reduced[..h], reduced[h..]);
    ReduceConcat(F, x, a + b);
    ReduceConcat(F, a, b);
    ReduceConcat(F, ZeroPoly(h), reduced[..h]);
    ReduceZero(F, h);
    AddZero(R, R.Mul(s, lo));
    ReducePlus(F, x, ZeroPoly(h) + reduced[..h]);
    ReducePlus(F, a, reduced[h..]);
    ReduceConcat(F, Plus(x, ZeroPoly(h) + reduced[..h]), Plus(a, reduced[h..]));
    PowerAdd(R, F.x, h, h);
    FoldAlgebra(R, s, t, rx, ra, rb, lo, up);
  }

  /** With t = s^2 and t b = lo + s up: x + t (a + s b) = (x + s lo) + t (a + up). */
  lemma FoldAlgebra<T(!new)>(R: Ring<T>, s: T, t: T, x: T, a: T, b: T, lo: T, up: T)
    requires Char2Ring(R) && t == R.Mul(s, s) && R.Mul(t, b) == R.Add(lo, R.Mul(s, up))
    ensures R.Add(x, R.Mul(t, R.Add(a, R.Mul(s, b)))) == R.Add(R.Add(x, R.Mul(s, lo)), R.Mul(t, R.Add(a, up)))
  {
    Distribute(R, t, a, R.Mul(s, b));
    MulAssoc(R, t, s, b);
    MulComm(R, t, s);
    MulAssoc(R, s, t, b);
    Distribute(R, s, lo, R.Mul(s, up));
    MulAssoc(R, s, s, up);
    Distribute(R, t, a, up);
    var ta, sl, tu := R.Mul(t, a), R.Mul(s, lo), R.Mul(t, up);
    AddAssoc(R, x, sl, R.Add(ta, tu));
    AddAssoc(R, sl, ta, tu);
    AddComm(R, sl, ta);
    AddAssoc(R, ta, sl, tu);
  }

  // ---- the moduli in use ----

  /** Cutting zeros off the modulus does not change what it stands for. */
  lemma QuotientFolds<E(!new)>(Q: Quotient<E>, k: nat)
    requires QuotientLaws(Q) && k <= |Q.m| && ZeroFrom(Q.m, k)
    ensures Folds(Q.Field(), Q.m) && Folds(Q.Field(), Q.m[..k])
  {
    QuotientIsField(Q);
    FieldIsRing(Q.Field());
    TopPower(Q);
    assert Q.m == Widen(Q.m[..k], Q.n);
    ReduceWiden(Q.Field(), Q.m[..k], Q.n);
  }

  /** The registers hold X^64 and X^128, and the smaller field's is small enough for two folds. */
  lemma FaestModuli()
    ensures Folds(Quotient64().Field(), Modulus64()) && ZeroFrom(Modulus64(), 5)
    ensures Folds(Quotient128().Field(), Modulus128()[..64])
  {
    FaestFields();
    hide QuotientLaws;
    hide Folds;
    QuotientFolds(Quotient64(), 64);
    QuotientFolds(Quotient128(), 64);
  }
}
