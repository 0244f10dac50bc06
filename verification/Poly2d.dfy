/** Polynomials whose coefficients are field elements, and their values at a point. */
module Poly2d {
  import opened Algebra
  import opened BitPolynomials

  /** c[0] + c[1] d + c[2] d^2 + ... */
  function EvalAt<T>(R: Ring<T>, c: seq<T>, d: T): T {
    if |c| == 0 then R.zero else R.Add(c[0], R.Mul(d, EvalAt(R, c[1..], d)))
  }

  function ShiftLeft<T>(R: Ring<T>, c: seq<T>, shift: nat): (r: seq<T>)
    ensures |r| == |c| + shift
  {
    VecZero(R, shift) + c
  }

  /** The same polynomial with room for more coefficients. */
  function Extend<T>(R: Ring<T>, c: seq<T>, size: nat): (r: seq<T>)
    requires |c| <= size
    ensures |r| == size
  {
    c + VecZero(R, size - |c|)
  }

  // ---- values ----

  lemma {:induction false} EvalConcat<T(!new)>(R: Ring<T>, lo: seq<T>, hi: seq<T>, d: T)
    requires Char2Ring(R)
    ensures EvalAt(R, lo + hi, d) == R.Add(EvalAt(R, lo, d), R.Mul(Power(R, d, |lo|), EvalAt(R, hi, d)))
  {
    var h := EvalAt(R, hi, d);
    if |lo| == 0 {
      assert lo + hi == hi;
      MulOne(R, h);
      AddZero(R, h);
    } else {
      EvalConcat(R, lo[1..], hi, d);
      assert (lo + hi)[1..] == lo[1..] + hi;
      var p := Power(R, d, |lo| - 1);
      Distribute(R, d, EvalAt(R, lo[1..], d), R.Mul(p, h));
      MulAssoc(R, d, p, h);
      AddAssoc(R, lo[0], R.Mul(d, EvalAt(R, lo[1..], d)), R.Mul(d, R.Mul(p, h)));
    }
  }

  lemma {:induction false} EvalZero<T(!new)>(R: Ring<T>, n: nat, d: T)
    requires Char2Ring(R)
    ensures EvalAt(R, VecZero(R, n), d) == R.zero
  {
    if n > 0 {
      EvalZero(R, n - 1, d);
      assert VecZero(R, n)[1..] == VecZero(R, n - 1);
      MulZero(R, d);
      AddZero(R, R.zero);
    }
  }

  lemma {:induction false} EvalAdd<T(!new)>(R: Ring<T>, a: seq<T>, b: seq<T>, d: T)
    requires Char2Ring(R) && |a| == |b|
    ensures EvalAt(R, VecAdd(R, a, b), d) == R.Add(EvalAt(R, a, d), EvalAt(R, b, d))
  {
    if |a| == 0 {
      AddZero(R, R.zero);
    } else {
      EvalAdd(R, a[1..], b[1..], d);
      assert VecAdd(R, a, b)[1..] == VecAdd(R, a[1..], b[1..]);
      Distribute(R, d, EvalAt(R, a[1..], d), EvalAt(R, b[1..], d));
      AddSwap(R, a[0], b[0], R.Mul(d, EvalAt(R, a[1..], d)), R.Mul(d, EvalAt(R, b[1..], d)));
    }
  }

  lemma {:induction false} EvalScale<T(!new)>(R: Ring<T>, k: T, a: seq<T>, d: T)
    requires Char2Ring(R)
    ensures EvalAt(R, Scale(R, k, a), d) == R.Mul(k, EvalAt(R, a, d))
  {
    if |a| == 0 {
      MulZero(R, k);
    } else {
      EvalScale(R, k, a[1..], d);
      assert Scale(R, k, a)[1..] == Scale(R, k, a[1..]);
      var e := EvalAt(R, a[1..], d);
      MulAssoc(R, d, k, e);
      MulComm(R, d, k);
      MulAssoc(R, k, d, e);
      Distribute(R, k, a[0], R.Mul(d, e));
    }
  }

  lemma EvalShift<T(!new)>(R: Ring<T>, c: seq<T>, shift: nat, d: T)
    requires Char2Ring(R)
    ensures EvalAt(R, ShiftLeft(R, c, shift), d) == R.Mul(Power(R, d, shift), EvalAt(R, c, d))
  {
    EvalConcat(R, VecZero(R, shift), c, d);
    EvalZero(R, shift, d);
    AddZero(R, R.Mul(Power(R, d, shift), EvalAt(R, c, d)));
  }

  lemma EvalExtend<T(!new)>(R: Ring<T>, c: seq<T>, size: nat, d: T)
    requires Char2Ring(R) && |c| <= size
    ensures EvalAt(R, Extend(R, c, size), d) == EvalAt(R, c, d)
  {
    EvalConcat(R, c, VecZero(R, size - |c|), d);
    EvalZero(R, size - |c|, d);
    MulZero(R, Power(R, d, |c|));
    AddZero(R, EvalAt(R, c, d));
  }

  lemma EvalSingle<T(!new)>(R: Ring<T>, a: T, d: T)
    requires Char2Ring(R)
    ensures EvalAt(R, [a], d) == a
  {
    assert [a][1..] == [];
    MulZero(R, d);
    AddZero(R, a);
  }

  lemma EvalSnoc<T(!new)>(R: Ring<T>, c: seq<T>, top: T, d: T)
    requires Char2Ring(R)
    ensures EvalAt(R, c + [top], d) == R.Add(EvalAt(R, c, d), R.Mul(Power(R, d, |c|), top))
  {
    EvalConcat(R, c, [top], d);
    EvalSingle(R, top, d);
  }

  // ---- products ----

  function ProductSize(a: nat, b: nat): nat {
    if a + b == 0 then 0 else a + b - 1
  }

  /** a[i] b, shifted to where it belongs in the product. */
  function Row<T>(R: Ring<T>, a: seq<T>, b: seq<T>, i: nat): (r: seq<T>)
    requires i < |a|
    ensures |r| == ProductSize(|a|, |b|)
  {
    Extend(R, ShiftLeft(R, Scale(R, a[i], b), i), ProductSize(|a|, |b|))
  }

  /** The sum of the first i rows. */
  function Rows<T>(R: Ring<T>, a: seq<T>, b: seq<T>, i: nat): (r: seq<T>)
    requires i <= |a|
    ensures |r| == ProductSize(|a|, |b|)
  {
    if i == 0 then VecZero(R, ProductSize(|a|, |b|)) else VecAdd(R, Rows(R, a, b, i - 1), Row(R, a, b, i - 1))
  }

  function Product<T>(R: Ring<T>, a: seq<T>, b: seq<T>): (r: seq<T>)
    ensures |r| == ProductSize(|a|, |b|)
  {
    Rows(R, a, b, |a|)
  }

  lemma {:induction false} EvalRows<T(!new)>(R: Ring<T>, a: seq<T>, b: seq<T>, i: nat, d: T)
    requires Char2Ring(R) && i <= |a|
    ensures EvalAt(R, Rows(R, a, b, i), d) == R.Mul(EvalAt(R, a[..i], d), EvalAt(R, b, d))
  {
    var eb := EvalAt(R, b, d);
    if i == 0 {
      EvalZero(R, ProductSize(|a|, |b|), d);
      MulZero(R, eb);
    } else {
      var k := i - 1;
      EvalRows(R, a, b, k, d);
      assert Rows(R, a, b, i) == VecAdd(R, Rows(R, a, b, k), Row(R, a, b, k));
      hide Rows;
      EvalAdd(R, Rows(R, a, b, k), Row(R, a, b, k), d);
      EvalExtend(R, ShiftLeft(R, Scale(R, a[k], b), k), ProductSize(|a|, |b|), d);
      EvalShift(R, Scale(R, a[k], b), k, d);
      EvalScale(R, a[k], b, d);
      assert a[..i] == a[..k] + [a[k]];
      EvalSnoc(R, a[..k], a[k], d);
      MulAssoc(R, Power(R, d, k), a[k], eb);
      Distribute(R, eb, EvalAt(R, a[..k], d), R.Mul(Power(R, d, k), a[k]));
    }
  }

  /** Evaluation turns the schoolbook product into the product of the values. */
  lemma EvalProduct<T(!new)>(R: Ring<T>, a: seq<T>, b: seq<T>, d: T)
    requires Char2Ring(R)
    ensures EvalAt(R, Product(R, a, b), d) == R.Mul(EvalAt(R, a, d), EvalAt(R, b, d))
  {
    EvalRows(R, a, b, |a|, d);
    assert a[..|a|] == a;
  }

  // ---- the loops ----

  method ComputeShiftLeft<T>(R: Ring<T>, coeffs: seq<T>, shift: nat) returns (out: seq<T>)
    ensures out == ShiftLeft(R, coeffs, shift)
  {
    var a := new T[|coeffs| + shift](_ => R.zero);
    for i := 0 to |coeffs|
      invariant forall k | 0 <= k < shift :: a[k] == R.zero
      invariant forall k | 0 <= k < i :: a[k + shift] == coeffs[k]
    {
      a[i + shift] := coeffs[i];
    }
    assert forall k | shift <= k < a.Length :: a[k] == coeffs[k - shift] by {
      forall k | shift <= k < a.Length ensures a[k] == coeffs[k - shift] {
        assert a[(k - shift) + shift] == coeffs[k - shift];
      }
    }
    out := a[..];
  }

  method ComputeAdd<T>(R: Ring<T>, a: seq<T>, b: seq<T>) returns (out: seq<T>)
    requires |a| == |b|
    ensures out == VecAdd(R, a, b)
  {
    var c := new T[|a|](_ => R.zero);
    for i := 0 to |a|
      invariant forall k | 0 <= k < i :: c[k] == R.Add(a[k], b[k])
    {
      c[i] := R.Add(a[i], b[i]);
    }
    out := c[..];
  }

  /** Rows up to i are in, and the first j terms of row i. */
  ghost predicate Accumulated<E(!new)>(F: PolyField<E>, a: seq<E>, b: seq<E>, i: nat, j: nat, wide: seq<Poly>)
    requires i < |a|
  {
    && |wide| == ProductSize(|a|, |b|)
    && forall k | 0 <= k < |wide| ::
         && |wide[k]| == 2 * F.n
         && F.Reduce(wide[k]) == if i <= k < i + j && k - i < |b| then F.Add(Rows(F.ring, a, b, i)[k], F.Mul(a[i], b[k - i]))
                                 else Rows(F.ring, a, b, i)[k]
  }

  ghost predicate WholeRows<E(!new)>(F: PolyField<E>, a: seq<E>, b: seq<E>, i: nat, wide: seq<Poly>)
    requires i <= |a|
  {
    && |wide| == ProductSize(|a|, |b|)
    && forall k | 0 <= k < |wide| :: |wide[k]| == 2 * F.n && F.Reduce(wide[k]) == Rows(F.ring, a, b, i)[k]
  }

  lemma RowEntry<T(!new)>(R: Ring<T>, a: seq<T>, b: seq<T>, i: nat, k: nat)
    requires Char2Ring(R) && i < |a| && k < ProductSize(|a|, |b|)
    ensures Rows(R, a, b, i + 1)[k] == if i <= k < i + |b| then R.Add(Rows(R, a, b, i)[k], R.Mul(a[i], b[k - i]))
                                       else Rows(R, a, b, i)[k]
  {
    AddZero(R, Rows(R, a, b, i)[k]);
  }

  lemma TermAccumulated<E(!new)>(F: PolyField<E>, a: seq<E>, b: seq<E>, i: nat, j: nat, wide: seq<Poly>)
    requires PolyFieldLaws(F) && i < |a| && j < |b| && Accumulated(F, a, b, i, j, wide)
    ensures i + j < |wide| && |wide[i + j]| == 2 * F.n
    ensures |F.Bits(a[i])| == |F.Bits(b[j])| == F.n
    ensures Accumulated(F, a, b, i, j + 1, wide[i + j := Plus(wide[i + j], Clmul(F.Bits(a[i]), F.Bits(b[j])))])
  {
    hide PolyFieldLaws;
    hide Rows;
    hide Clmul;
    FieldIsRing(F);
    ReduceElement(F, a[i]);
    ReduceElement(F, b[j]);
    ReduceProduct(F, a[i], b[j]);
    ReducePlus(F, wide[i + j], Clmul(F.Bits(a[i]), F.Bits(b[j])));
  }

  lemma RowAccumulated<E(!new)>(F: PolyField<E>, a: seq<E>, b: seq<E>, i: nat, wide: seq<Poly>)
    requires PolyFieldLaws(F) && i < |a| && Accumulated(F, a, b, i, |b|, wide)
    ensures WholeRows(F, a, b, i + 1, wide)
  {
    hide PolyFieldLaws;
    hide Rows;
    FieldIsRing(F);
    forall k | 0 <= k < |wide| ensures F.Reduce(wide[k]) == Rows(F.ring, a, b, i + 1)[k] {
      RowEntry(F.ring, a, b, i, k);
    }
  }

  /** The schoolbook product: carry-less products are added up unreduced, and reduced at the end. */
  method ComputeProduct<E(!new)>(F: PolyField<E>, a: seq<E>, b: seq<E>) returns (out: seq<E>)
    requires PolyFieldLaws(F)
    ensures out == Product(F.ring, a, b)
  {
    hide PolyFieldLaws;
    hide Clmul;
    FieldIsRing(F);
    ReduceZero(F, 2 * F.n);
    var wide := new Poly[ProductSize(|a|, |b|)](_ => ZeroPoly(2 * F.n));
    for i := 0 to |a|
      invariant WholeRows(F, a, b, i, wide[..])
    {
      hide Rows;
      for j := 0 to |b|
        invariant Accumulated(F, a, b, i, j, wide[..])
      {
        TermAccumulated(F, a, b, i, j, wide[..]);
        hide Accumulated;
        wide[i + j] := Plus(wide[i + j], Clmul(F.Bits(a[i]), F.Bits(b[j])));
      }
      RowAccumulated(F, a, b, i, wide[..]);
    }
    out := seq(wide.Length, k requires 0 <= k < wide.Length reads wide => F.Reduce(wide[k]));
    assert forall k | 0 <= k < wide.Length :: out[k] == F.Reduce(wide[..][k]);
  }
}
