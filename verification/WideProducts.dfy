/**
 * Carry-less products of elements wider than the multiplier: Karatsuba's three products, and
 * the combination of overlapping registers into one polynomial.
 */
module WideProducts {
  import opened Algebra
  import opened BitPolynomials
  import opened QuotientFields

  // ---- overlapping registers ----

  ghost predicate Registers(s: seq<Poly>, h: nat) {
    forall i | 0 <= i < |s| :: |s[i]| == 2 * h
  }

  function Joined(s: seq<Poly>): Poly {
    if |s| == 0 then [] else s[0] + Joined(s[1..])
  }

  /** The sum of registers that start h coefficients apart. */
  function Overlap<E>(F: PolyField<E>, s: seq<Poly>, h: nat): E {
    if |s| == 0 then F.ring.zero
    else F.Add(F.Reduce(s[0]), F.Mul(Power(F.ring, F.x, h), Overlap(F, s[1..], h)))
  }

  /** The registers side by side, when `carry` is left over from the register before. */
  function Combined(carry: Poly, s: seq<Poly>, h: nat): (r: seq<Poly>)
    requires |carry| == h && Registers(s, h)
    ensures Registers(r, h) && |r| == |s| / 2 + 1
    decreases |s|
  {
    if |s| == 0 then [carry + ZeroPoly(h)]
    else if |s| == 1 then [Plus(s[0], carry + ZeroPoly(h))]
    else [Plus(s[0], carry + s[1][..h])] + Combined(s[1][h..], s[2..], h)
  }

  lemma {:induction false} CombinedValue<E(!new)>(F: PolyField<E>, carry: Poly, s: seq<Poly>, h: nat)
    requires Char2Ring(F.ring) && |carry| == h && Registers(s, h)
    ensures F.Reduce(Joined(Combined(carry, s, h))) == F.Add(F.Reduce(carry), Overlap(F, s, h))
    decreases |s|
  {
    var R, t, c := F.ring, Power(F.ring, F.x, h), F.Reduce(carry);
    ReduceWiden(F, carry, 2 * h);
    assert carry + ZeroPoly(h) == Widen(carry, 2 * h);
    if |s| == 0 {
      assert Joined(Combined(carry, s, h)) == carry + ZeroPoly(h);
      AddZero(R, c);
    } else if |s| == 1 {
      assert Joined(Combined(carry, s, h)) == Plus(s[0], carry + ZeroPoly(h));
      ReducePlus(F, s[0], carry + ZeroPoly(h));
      MulZero(R, t);
      AddZero(R, F.Reduce(s[0]));
      AddComm(R, F.Reduce(s[0]), c);
    } else {
      var first, rest := Plus(s[0], carry + s[1][..h]), Combined(s[1][h..], s[2..], h);
      CombinedValue(F, s[1][h..], s[2..], h);
      assert s[1..][1..] == s[2..] && s[1] == s[1][..h] + s[1][h..];
      assert Joined([first] + rest) == first + Joined(rest);
      ReduceConcat(F, first, Joined(rest));
      ReducePlus(F, s[0], carry + s[1][..h]);
      ReduceConcat(F, carry, s[1][..h]);
      ReduceConcat(F, s[1][..h], s[1][h..]);
      PowerAdd(R, F.x, h, h);
      CarryAlgebra(R, t, F.Reduce(s[0]), c, F.Reduce(s[1][..h]), F.Reduce(s[1][h..]), Overlap(F, s[2..], h));
    }
  }

  /** (a + (c + t lo)) + t^2 (hi + r) = c + (a + t ((lo + t hi) + t r)). */
  lemma CarryAlgebra<T(!new)>(R: Ring<T>, t: T, a: T, c: T, lo: T, hi: T, r: T)
    requires Char2Ring(R)
    ensures R.Add(R.Add(a, R.Add(c, R.Mul(t, lo))), R.Mul(R.Mul(t, t), R.Add(hi, r)))
         == R.Add(c, R.Add(a, R.Mul(t, R.Add(R.Add(lo, R.Mul(t, hi)), R.Mul(t, r)))))
  {
    var v := R.Mul(t, R.Add(hi, r));
    Distribute(R, t, hi, r);
    AddAssoc(R, lo, R.Mul(t, hi), R.Mul(t, r));
    Distribute(R, t, lo, v);
    MulAssoc(R, t, t, R.Add(hi, r));
    var tl, tv := R.Mul(t, lo), R.Mul(t, v);
    AddAssoc(R, a, c, tl);
    AddComm(R, a, c);
    AddAssoc(R, c, a, tl);
    AddAssoc(R, c, R.Add(a, tl), tv);
    AddAssoc(R, a, tl, tv);
  }

  lemma OverlapOne<E(!new)>(F: PolyField<E>, a: Poly, h: nat)
    requires Char2Ring(F.ring)
    ensures Overlap(F, [a], h) == F.Reduce(a)
  {
    MulZero(F.ring, Power(F.ring, F.x, h));
    AddZero(F.ring, F.Reduce(a));
    assert [a][1..] == [];
  }

  lemma OverlapStep<E>(F: PolyField<E>, a: Poly, s: seq<Poly>, h: nat)
    ensures Overlap(F, [a] + s, h) == F.Add(F.Reduce(a), F.Mul(Power(F.ring, F.x, h), Overlap(F, s, h)))
  {
    assert ([a] + s)[1..] == s;
  }

  /** Register by register: the upper half of the one before, the lower half of the one after. */
  method CombineRegisters(s: seq<Poly>, h: nat) returns (out: seq<Poly>)
    requires |s| >= 2 && Registers(s, h)
    ensures out == Combined(ZeroPoly(h), s, h)
  {
    out := [Plus(s[0], ZeroPoly(h) + s[1][..h])];
    for i := 1 to |s| / 2
      invariant |out| == i
      invariant Combined(ZeroPoly(h), s, h) == out + Combined(s[2 * i - 1][h..], s[2 * i..], h)
    {
      out := out + [Plus(s[2 * i], s[2 * i - 1][h..] + s[2 * i + 1][..h])];
      assert s[2 * i..][2..] == s[2 * (i + 1)..];
    }
    if |s| % 2 == 1 {
      out := out + [Plus(s[|s| - 1], s[|s| - 2][h..] + ZeroPoly(h))];
    } else {
      out := out + [s[|s| - 1][h..] + ZeroPoly(h)];
    }
  }

  // ---- Karatsuba ----

  /** (x0 + t x1)(y0 + t y1) from three products. */
  lemma KaratsubaAlgebra<T(!new)>(R: Ring<T>, t: T, x0: T, x1: T, y0: T, y1: T)
    requires Char2Ring(R)
    ensures var low, high, mixed := R.Mul(x0, y0), R.Mul(x1, y1), R.Mul(R.Add(x0, x1), R.Add(y0, y1));
            R.Mul(R.Add(x0, R.Mul(t, x1)), R.Add(y0, R.Mul(t, y1)))
            == R.Add(low, R.Mul(t, R.Add(R.Add(R.Add(low, high), mixed), R.Mul(t, high))))
  {
    var low, high, cross := R.Mul(x0, y0), R.Mul(x1, y1), R.Add(R.Mul(x1, y0), R.Mul(x0, y1));
    FourTerms(R, x0, x1, y0, y1);
    AddCancel(R, cross, R.Add(low, high));
    FourTerms(R, x0, R.Mul(t, x1), y0, R.Mul(t, y1));
    MulAssoc(R, t, x1, y0);
    MulAssoc(R, x0, t, y1);
    MulComm(R, x0, t);
    MulAssoc(R, t, x0, y1);
    Distribute(R, t, R.Mul(x1, y0), R.Mul(x0, y1));
    MulAssoc(R, t, x1, R.Mul(t, y1));
    MulAssoc(R, x1, t, y1);
    MulComm(R, x1, t);
    MulAssoc(R, t, x1, y1);
    Distribute(R, t, cross, R.Mul(t, high));
    var tc, tth := R.Mul(t, cross), R.Mul(t, R.Mul(t, high));
    AddAssoc(R, low, tth, tc);
    AddComm(R, tth, tc);
  }

  /** (x0 + x1)(y0 + y1) = (x0 y0 + x1 y1) + (x1 y0 + x0 y1). */
  lemma FourTerms<T(!new)>(R: Ring<T>, x0: T, x1: T, y0: T, y1: T)
    requires Char2Ring(R)
    ensures R.Mul(R.Add(x0, x1), R.Add(y0, y1))
         == R.Add(R.Add(R.Mul(x0, y0), R.Mul(x1, y1)), R.Add(R.Mul(x1, y0), R.Mul(x0, y1)))
  {
    Distribute(R, R.Add(x0, x1), y0, y1);
    Distribute(R, y0, x0, x1);
    Distribute(R, y1, x0, x1);
    AddComm(R, R.Mul(x0, y1), R.Mul(x1, y1));
    AddSwap(R, R.Mul(x0, y0), R.Mul(x1, y0), R.Mul(x1, y1), R.Mul(x0, y1));
  }

  /** The three registers of a product of two-register elements. */
  function Karatsuba(x: Poly, y: Poly, h: nat): (s: seq<Poly>)
    requires |x| == |y| == 2 * h
    ensures |s| == 3 && Registers(s, h)
  {
    var low, high := Clmul(x[..h], y[..h]), Clmul(x[h..], y[h..]);
    var mixed := Clmul(Plus(x[..h], x[h..]), Plus(y[..h], y[h..]));
    [low, Plus(Plus(low, high), mixed), high]
  }

  lemma KaratsubaValue<E(!new)>(F: PolyField<E>, x: Poly, y: Poly, h: nat)
    requires Char2Ring(F.ring) && |x| == |y| == 2 * h
    ensures Overlap(F, Karatsuba(x, y, h), h) == F.Reduce(Clmul(x, y))
  {
    var R, t := F.ring, Power(F.ring, F.x, h);
    var x0, x1, y0, y1 := x[..h], x[h..], y[..h], y[h..];
    var low, high, mixed := Clmul(x0, y0), Clmul(x1, y1), Clmul(Plus(x0, x1), Plus(y0, y1));
    var mid := Plus(Plus(low, high), mixed);
    assert Karatsuba(x, y, h) == [low] + ([mid] + [high]);
    ReduceClmul(F, x, y);
    ReduceClmul(F, x0, y0);
    ReduceClmul(F, x1, y1);
    ReduceClmul(F, Plus(x0, x1), Plus(y0, y1));
    ReducePlus(F, Plus(low, high), mixed);
    ReducePlus(F, low, high);
    hide Clmul;
    assert x == x0 + x1 && y == y0 + y1;
    ReduceConcat(F, x0, x1);
    ReduceConcat(F, y0, y1);
    ReducePlus(F, x0, x1);
    ReducePlus(F, y0, y1);
    hide Plus;
    hide PolyField.Reduce;
    OverlapOne(F, high, h);
    OverlapStep(F, mid, [high], h);
    OverlapStep(F, low, [mid] + [high], h);
    KaratsubaAlgebra(R, t, F.Reduce(x0), F.Reduce(x1), F.Reduce(y0), F.Reduce(y1));
  }

  // ---- the products in use ----

  type Poly256 = w: Poly | |w| == 256 witness ZeroPoly(256)

  function Element256(w: Poly): Poly256 { if |w| == 256 then w else ZeroPoly(256) }

  function Coefficients256(a: Poly256): Poly { a }

  /** Polynomials of 256 coefficients, among which products of 128 each are not reduced. */
  function Quotient256(): Quotient<Poly256> { Quotient(256, ZeroPoly(256), Element256, Coefficients256) }

  /** Polynomials of 256 coefficients are equal if they have the same class. */
  lemma SamePolynomial(v: Poly, w: Poly)
    requires |v| == 256 && |w| <= 256
    requires Quotient256().Field().Reduce(v) == Quotient256().Field().Reduce(w)
    ensures v == Widen(w, 256)
  {
    var Q := Quotient256();
    forall a: Poly256 ensures ElementLaw(Q, a) {
    }
    ReduceShort(Q, v);
    ReduceShort(Q, w);
    assert Widen(v, 256) == v;
  }

  lemma WideRing()
    ensures Char2Ring(Quotient256().Field().ring)
  {
    var Q := Quotient256();
    forall a: Poly256 ensures ElementLaw(Q, a) {
    }
    QuotientIsField(Q);
    FieldIsRing(Q.Field());
  }

  lemma JoinPair(s: seq<Poly>)
    requires |s| == 2
    ensures Joined(s) == s[0] + s[1]
  {
    assert Joined(s[1..]) == s[1];
  }

  /** Two elements of 128 coefficients, by Karatsuba. */
  method Times128(x: Poly, y: Poly) returns (out: Poly)
    requires |x| == |y| == 128
    ensures out == Clmul(x, y)
  {
    hide Clmul;
    hide Combined;
    var s := Karatsuba(x, y, 64);
    var r := CombineRegisters(s, 64);
    out := r[0] + r[1];
    ghost var F := Quotient256().Field();
    WideRing();
    JoinPair(r);
    CombinedValue(F, ZeroPoly(64), s, 64);
    ReduceZero(F, 64);
    AddZero(F.ring, Overlap(F, s, 64));
    KaratsubaValue(F, x, y, 64);
    SamePolynomial(out, Clmul(x, y));
    assert Widen(Clmul(x, y), 256) == Clmul(x, y);
  }

  /** An element of 64 coefficients times one of 128: two overlapping products. */
  method Times64By128(x: Poly, y: Poly) returns (out: Poly)
    requires |x| == 64 && |y| == 128
    ensures out == Clmul(x, y)
  {
    hide Combined;
    var s := [Clmul(x, y[..64]), Clmul(x, y[64..])];
    var r := CombineRegisters(s, 64);
    out := (r[0] + r[1])[..192];
    ghost var F := Quotient256().Field();
    WideRing();
    JoinPair(r);
    CombinedValue(F, ZeroPoly(64), s, 64);
    ReduceZero(F, 64);
    AddZero(F.ring, Overlap(F, s, 64));
    PairValue(F, x, y);
    SamePolynomial(r[0] + r[1], Clmul(x, y));
    assert Widen(Clmul(x, y), 256)[..192] == Clmul(x, y);
  }

  lemma PairValue<E(!new)>(F: PolyField<E>, x: Poly, y: Poly)
    requires Char2Ring(F.ring) && |x| == 64 && |y| == 128
    ensures Overlap(F, [Clmul(x, y[..64]), Clmul(x, y[64..])], 64) == F.Reduce(Clmul(x, y))
  {
    var R, t, low, high := F.ring, Power(F.ring, F.x, 64), Clmul(x, y[..64]), Clmul(x, y[64..]);
    ReduceClmul(F, x, y);
    ReduceClmul(F, x, y[..64]);
    ReduceClmul(F, x, y[64..]);
    hide Clmul;
    assert y == y[..64] + y[64..];
    ReduceConcat(F, y[..64], y[64..]);
    hide PolyField.Reduce;
    var rx, lo, hi := F.Reduce(x), F.Reduce(y[..64]), F.Reduce(y[64..]);
    Distribute(R, rx, lo, R.Mul(t, hi));
    MulAssoc(R, rx, t, hi);
    MulComm(R, rx, t);
    MulAssoc(R, t, rx, hi);
    OverlapOne(F, high, 64);
    OverlapStep(F, low, [high], 64);
    assert [low, high] == [low] + [high];
  }
}
