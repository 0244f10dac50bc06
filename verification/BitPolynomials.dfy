/**
 * Polynomials over GF(2) as lists of coefficients, lowest first, and the fields they
 * represent: reducing a polynomial is evaluating it at the class of the indeterminate.
 */
module BitPolynomials {
  import opened Algebra

  type Poly = seq<bool>

  function ZeroPoly(n: nat): (z: Poly)
    ensures |z| == n && forall i | 0 <= i < n :: !z[i]
  {
    seq(n, i => false)
  }

  function Plus(a: Poly, b: Poly): (c: Poly)
    requires |a| == |b|
    ensures |c| == |a|
  {
    seq(|a|, i requires 0 <= i < |a| => a[i] != b[i])
  }

  /** Zero-extension to a longer type. */
  function Widen(a: Poly, n: nat): (w: Poly)
    requires |a| <= n
    ensures |w| == n
  {
    a + ZeroPoly(n - |a|)
  }

  /** Shift within a fixed width: the top k coefficients fall off. */
  function ShiftUp(a: Poly, k: nat): (w: Poly)
    requires k <= |a|
    ensures |w| == |a|
  {
    ZeroPoly(k) + a[..|a| - k]
  }

  /** Carry-less product, as wide as both factors together. */
  function Clmul(a: Poly, b: Poly): (w: Poly)
    ensures |w| == |a| + |b|
  {
    if |b| == 0 then ZeroPoly(|a|)
    else Plus(if b[0] then Widen(a, |a| + |b|) else ZeroPoly(|a| + |b|), [false] + Clmul(a, b[1..]))
  }

  // ---- fields of polynomials ----

  /** A field whose elements are the polynomials of degree below n, with the class x of the indeterminate. */
  datatype PolyField<!E> = PolyField(ring: Ring<E>, n: nat, x: E, bits: E -> Poly)
  {
    function Add(a: E, b: E): E { ring.Add(a, b) }

    function Mul(a: E, b: E): E { ring.Mul(a, b) }

    function Bits(a: E): Poly { bits(a) }

    function FromBit(b: bool): E { if b then ring.one else ring.zero }

    /** The class of a polynomial of any width: reduction modulo the field polynomial. */
    function Reduce(w: Poly): E {
      if |w| == 0 then ring.zero else Add(FromBit(w[0]), Mul(x, Reduce(w[1..])))
    }
  }

  ghost predicate BitsLaw<E>(F: PolyField<E>, a: E) {
    |F.Bits(a)| == F.n && F.Reduce(F.Bits(a)) == a
  }

  ghost predicate ReduceLaw<E>(F: PolyField<E>, w: Poly) {
    |w| == F.n ==> F.Bits(F.Reduce(w)) == w
  }

  /** The elements are exactly the polynomials of n coefficients. */
  ghost predicate PolyFieldLaws<E(!new)>(F: PolyField<E>) {
    && Char2Ring(F.ring)
    && F.n > 0
    && (forall a: E :: BitsLaw(F, a))
    && (forall w: Poly :: ReduceLaw(F, w))
  }

  lemma FieldIsRing<E(!new)>(F: PolyField<E>)
    requires PolyFieldLaws(F)
    ensures Char2Ring(F.ring)
  {
  }

  lemma FromBitAdd<E(!new)>(F: PolyField<E>, a: bool, b: bool)
    requires Char2Ring(F.ring)
    ensures F.FromBit(a != b) == F.Add(F.FromBit(a), F.FromBit(b))
  {
    AddZero(F.ring, F.ring.one);
    AddSelf(F.ring, F.ring.one);
    AddSelf(F.ring, F.ring.zero);
  }

  lemma {:induction false} ReducePlus<E(!new)>(F: PolyField<E>, a: Poly, b: Poly)
    requires Char2Ring(F.ring) && |a| == |b|
    ensures F.Reduce(Plus(a, b)) == F.Add(F.Reduce(a), F.Reduce(b))
  {
    if |a| == 0 {
      AddSelf(F.ring, F.ring.zero);
    } else {
      ReducePlus(F, a[1..], b[1..]);
      assert Plus(a, b)[1..] == Plus(a[1..], b[1..]);
      FromBitAdd(F, a[0], b[0]);
      Distribute(F.ring, F.x, F.Reduce(a[1..]), F.Reduce(b[1..]));
      AddSwap(F.ring, F.FromBit(a[0]), F.FromBit(b[0]), F.Mul(F.x, F.Reduce(a[1..])), F.Mul(F.x, F.Reduce(b[1..])));
    }
  }

  lemma {:induction false} ReduceZero<E(!new)>(F: PolyField<E>, n: nat)
    requires Char2Ring(F.ring)
    ensures F.Reduce(ZeroPoly(n)) == F.ring.zero
  {
    if n > 0 {
      ReduceZero(F, n - 1);
      assert ZeroPoly(n)[1..] == ZeroPoly(n - 1);
      MulZero(F.ring, F.x);
      AddSelf(F.ring, F.ring.zero);
    }
  }

  /** The upper part of a polynomial counts with the power of x where it starts. */
  lemma {:induction false} ReduceConcat<E(!new)>(F: PolyField<E>, lo: Poly, hi: Poly)
    requires Char2Ring(F.ring)
    ensures F.Reduce(lo + hi) == F.Add(F.Reduce(lo), F.Mul(Power(F.ring, F.x, |lo|), F.Reduce(hi)))
  {
    if |lo| == 0 {
      assert lo + hi == hi;
      MulOne(F.ring, F.Reduce(hi));
      AddZero(F.ring, F.Reduce(hi));
    } else {
      ReduceConcat(F, lo[1..], hi);
      assert (lo + hi)[1..] == lo[1..] + hi;
      var p, h := Power(F.ring, F.x, |lo| - 1), F.Reduce(hi);
      Distribute(F.ring, F.x, F.Reduce(lo[1..]), F.Mul(p, h));
      MulAssoc(F.ring, F.x, p, h);
      AddAssoc(F.ring, F.FromBit(lo[0]), F.Mul(F.x, F.Reduce(lo[1..])), F.Mul(F.x, F.Mul(p, h)));
    }
  }

  lemma ReduceWiden<E(!new)>(F: PolyField<E>, a: Poly, n: nat)
    requires Char2Ring(F.ring) && |a| <= n
    ensures F.Reduce(Widen(a, n)) == F.Reduce(a)
  {
    ReduceConcat(F, a, ZeroPoly(n - |a|));
    ReduceZero(F, n - |a|);
    MulZero(F.ring, Power(F.ring, F.x, |a|));
    AddZero(F.ring, F.Reduce(a));
  }

  /** Reducing the carry-less product of representatives multiplies their classes. */
  lemma {:induction false} ReduceClmul<E(!new)>(F: PolyField<E>, a: Poly, b: Poly)
    requires Char2Ring(F.ring)
    ensures F.Reduce(Clmul(a, b)) == F.Mul(F.Reduce(a), F.Reduce(b))
  {
    var R, ra := F.ring, F.Reduce(a);
    if |b| == 0 {
      ReduceZero(F, |a|);
      MulZero(R, ra);
    } else {
      var first := if b[0] then Widen(a, |a| + |b|) else ZeroPoly(|a| + |b|);
      var rest := [false] + Clmul(a, b[1..]);
      ReduceClmul(F, a, b[1..]);
      ReducePlus(F, first, rest);
      ReduceWiden(F, a, |a| + |b|);
      ReduceZero(F, |a| + |b|);
      MulOne(R, ra);
      MulZero(R, ra);
      assert F.Reduce(first) == F.Mul(ra, F.FromBit(b[0]));
      assert rest[1..] == Clmul(a, b[1..]);
      var rb := F.Reduce(b[1..]);
      AddZero(R, F.Mul(F.x, F.Mul(ra, rb)));
      MulAssoc(R, F.x, ra, rb);
      MulComm(R, F.x, ra);
      MulAssoc(R, ra, F.x, rb);
      Distribute(R, ra, F.FromBit(b[0]), F.Mul(F.x, rb));
    }
  }

  /** The product of two elements, computed wide and then reduced. */
  lemma ReduceProduct<E(!new)>(F: PolyField<E>, a: E, b: E)
    requires PolyFieldLaws(F)
    ensures |Clmul(F.Bits(a), F.Bits(b))| == 2 * F.n
    ensures F.Reduce(Clmul(F.Bits(a), F.Bits(b))) == F.Mul(a, b)
  {
    assert BitsLaw(F, a) && BitsLaw(F, b);
    ReduceClmul(F, F.Bits(a), F.Bits(b));
  }

  lemma ReduceElement<E(!new)>(F: PolyField<E>, a: E)
    requires PolyFieldLaws(F)
    ensures |F.Bits(a)| == F.n && F.Reduce(F.Bits(a)) == a
    ensures F.Reduce(Widen(F.Bits(a), 2 * F.n)) == a
  {
    assert BitsLaw(F, a);
    ReduceWiden(F, F.Bits(a), 2 * F.n);
  }

  /** Addition of elements is exclusive-or of their coefficients. */
  lemma BitsAdd<E(!new)>(F: PolyField<E>, a: E, b: E)
    requires PolyFieldLaws(F)
    ensures |F.Bits(a)| == |F.Bits(b)| == F.n
    ensures F.Bits(F.Add(a, b)) == Plus(F.Bits(a), F.Bits(b))
  {
    assert BitsLaw(F, a) && BitsLaw(F, b);
    ReducePlus(F, F.Bits(a), F.Bits(b));
    assert ReduceLaw(F, Plus(F.Bits(a), F.Bits(b)));
  }

  // ---- shifts that lose nothing ----

  ghost predicate ZeroFrom(w: Poly, k: nat) {
    forall i | k <= i < |w| :: !w[i]
  }

  /** A shift multiplies by a power of x as long as only zeros fall off. */
  lemma ReduceShiftUp<E(!new)>(F: PolyField<E>, w: Poly, k: nat)
    requires Char2Ring(F.ring) && k <= |w| && ZeroFrom(w, |w| - k)
    ensures F.Reduce(ShiftUp(w, k)) == F.Mul(Power(F.ring, F.x, k), F.Reduce(w))
  {
    var kept := w[..|w| - k];
    assert w == Widen(kept, |w|);
    ReduceWiden(F, kept, |w|);
    ReduceConcat(F, ZeroPoly(k), kept);
    ReduceZero(F, k);
    AddZero(F.ring, F.Mul(Power(F.ring, F.x, k), F.Reduce(kept)));
  }
}
