/** Combining the MACs of consecutive mask bits into the MAC of one field element. */
module MacMasks {
  import opened Algebra
  import opened BitPolynomials
  import opened Poly2d

  // ---- every eighth MAC ----

  /** s[8(m - t) + j] + x^8 s[8(m - t) + 8 + j] + ..., over the last t blocks of eight. */
  function Stride<E>(F: PolyField<E>, s: seq<E>, m: nat, j: nat, t: nat): E
    requires |s| == 8 * m && t <= m && j < 8
  {
    if t == 0 then F.ring.zero
    else F.Add(s[8 * (m - t) + j], F.Mul(Power(F.ring, F.x, 8), Stride(F, s, m, j, t - 1)))
  }

  /** The strides j to 7 put together by single shifts. */
  function Interleaved<E>(F: PolyField<E>, s: seq<E>, m: nat, j: nat, t: nat): E
    requires |s| == 8 * m && t <= m && j <= 8
    decreases 8 - j
  {
    if j == 8 then F.ring.zero else F.Add(Stride(F, s, m, j, t), F.Mul(F.x, Interleaved(F, s, m, j + 1, t)))
  }

  /** One more block adds its own elements and moves the others up by eight. */
  lemma {:induction false} InterleavedStep<E(!new)>(F: PolyField<E>, s: seq<E>, m: nat, j: nat, t: nat, base: nat)
    requires Char2Ring(F.ring) && |s| == 8 * m && 1 <= t <= m && j <= 8 && base == 8 * (m - t)
    ensures Interleaved(F, s, m, j, t)
         == F.Add(EvalAt(F.ring, s[base + j..base + 8], F.x), F.Mul(Power(F.ring, F.x, 8), Interleaved(F, s, m, j, t - 1)))
    decreases 8 - j
  {
    hide Power;
    var R, y := F.ring, Power(F.ring, F.x, 8);
    if j == 8 {
      MulZero(R, y);
      AddZero(R, R.zero);
    } else {
      InterleavedStep(F, s, m, j + 1, t, base);
      var block := s[base + j..base + 8];
      assert block[1..] == s[base + j + 1..base + 8];
      var st, rest, next := Stride(F, s, m, j, t - 1), EvalAt(R, s[base + j + 1..base + 8], F.x), Interleaved(F, s, m, j + 1, t - 1);
      StepAlgebra(R, block[0], y, st, F.x, rest, next);
    }
  }

  /** (b + y s) + x (r + y n) = (b + x r) + y (s + x n). */
  lemma StepAlgebra<T(!new)>(R: Ring<T>, b: T, y: T, s: T, x: T, r: T, n: T)
    requires Char2Ring(R)
    ensures R.Add(R.Add(b, R.Mul(y, s)), R.Mul(x, R.Add(r, R.Mul(y, n))))
         == R.Add(R.Add(b, R.Mul(x, r)), R.Mul(y, R.Add(s, R.Mul(x, n))))
  {
    Distribute(R, x, r, R.Mul(y, n));
    Distribute(R, y, s, R.Mul(x, n));
    MulAssoc(R, x, y, n);
    MulComm(R, x, y);
    MulAssoc(R, y, x, n);
    AddSwap(R, b, R.Mul(y, s), R.Mul(x, r), R.Mul(y, R.Mul(x, n)));
  }

  /** Interleaving the eight strides gives back the plain sum over all elements. */
  lemma {:induction false} InterleavedIsSum<E(!new)>(F: PolyField<E>, s: seq<E>, m: nat, t: nat, base: nat)
    requires Char2Ring(F.ring) && |s| == 8 * m && t <= m && base == 8 * (m - t)
    ensures Interleaved(F, s, m, 0, t) == EvalAt(F.ring, s[base..], F.x)
  {
    hide Power;
    if t == 0 {
      InterleavedNothing(F, s, m, 0);
    } else {
      InterleavedIsSum(F, s, m, t - 1, base + 8);
      InterleavedStep(F, s, m, 0, t, base);
      assert s[base..] == s[base + 0..base + 8] + s[base + 8..];
      EvalConcat(F.ring, s[base + 0..base + 8], s[base + 8..], F.x);
    }
  }

  lemma {:induction false} InterleavedNothing<E(!new)>(F: PolyField<E>, s: seq<E>, m: nat, j: nat)
    requires Char2Ring(F.ring) && |s| == 8 * m && j <= 8
    ensures Interleaved(F, s, m, j, 0) == F.ring.zero
    decreases 8 - j
  {
    if j < 8 {
      InterleavedNothing(F, s, m, j + 1);
      MulZero(F.ring, F.x);
      AddZero(F.ring, F.ring.zero);
    }
  }

  // ---- the accumulators ----

  /** A wide polynomial of a given class whose coefficients from `bound` on are zero. */
  ghost predicate Holds<E>(F: PolyField<E>, w: Poly, v: E, bound: nat) {
    |w| == 2 * F.n && F.Reduce(w) == v && ZeroFrom(w, bound)
  }

  lemma LoadHolds<E(!new)>(F: PolyField<E>, a: E)
    requires PolyFieldLaws(F)
    ensures |F.Bits(a)| == F.n && Holds(F, Widen(F.Bits(a), 2 * F.n), a, F.n)
  {
    ReduceElement(F, a);
  }

  /** Nothing is lost when a shift stays within the width. */
  lemma ShiftAddHolds<E(!new)>(F: PolyField<E>, w: Poly, v: E, bound: nat, k: nat, u: Poly, a: E, b: nat)
    requires PolyFieldLaws(F) && Holds(F, w, v, bound) && Holds(F, u, a, b)
    requires bound + k <= 2 * F.n && b <= bound + k
    ensures |ShiftUp(w, k)| == |u|
    ensures Holds(F, Plus(ShiftUp(w, k), u), F.Add(F.Mul(Power(F.ring, F.x, k), v), a), bound + k)
  {
    hide PolyFieldLaws;
    hide Power;
    hide PolyField.Reduce;
    FieldIsRing(F);
    ReduceShiftUp(F, w, k);
    ReducePlus(F, ShiftUp(w, k), u);
  }

  /** The accumulators after the last t blocks. */
  ghost predicate Strides<E>(F: PolyField<E>, s: seq<E>, m: nat, t: nat, acc: seq<Poly>) {
    && |acc| == 8 && |s| == 8 * m == F.n && 1 <= t <= m
    && forall j | 0 <= j < 8 :: Holds(F, acc[j], Stride(F, s, m, j, t), F.n + 8 * (t - 1))
  }

  lemma FirstStride<E(!new)>(F: PolyField<E>, s: seq<E>, m: nat, j: nat)
    requires PolyFieldLaws(F) && |s| == 8 * m && m >= 1 && j < 8
    ensures Stride(F, s, m, j, 1) == s[8 * (m - 1) + j]
  {
    MulZero(F.ring, Power(F.ring, F.x, 8));
    AddZero(F.ring, s[8 * (m - 1) + j]);
  }

  method LoadTop<E(!new)>(F: PolyField<E>, s: seq<E>, ghost m: nat, acc: array<Poly>)
    requires PolyFieldLaws(F) && |s| == 8 * m == F.n && m >= 1 && acc.Length == 8
    modifies acc
    ensures Strides(F, s, m, 1, acc[..])
  {
    hide PolyFieldLaws;
    hide Holds;
    hide Stride;
    for j := 0 to 8
      invariant forall k | 0 <= k < j :: Holds(F, acc[k], Stride(F, s, m, k, 1), F.n)
    {
      LoadHolds(F, s[F.n - 8 + j]);
      FirstStride(F, s, m, j);
      acc[j] := Widen(F.Bits(s[F.n - 8 + j]), 2 * F.n);
    }
  }

  method AddBlock<E(!new)>(F: PolyField<E>, s: seq<E>, ghost m: nat, ghost t: nat, i: nat, acc: array<Poly>)
    requires PolyFieldLaws(F) && t < m && i == 8 * (m - (t + 1)) && Strides(F, s, m, t, acc[..])
    modifies acc
    ensures Strides(F, s, m, t + 1, acc[..])
  {
    hide PolyFieldLaws;
    hide Holds;
    hide Power;
    ghost var bound := F.n + 8 * (t - 1);
    for j := 0 to 8
      invariant forall k | 0 <= k < j :: Holds(F, acc[k], Stride(F, s, m, k, t + 1), bound + 8)
      invariant forall k | j <= k < 8 :: Holds(F, acc[k], Stride(F, s, m, k, t), bound)
    {
      var w := acc[j];
      LoadHolds(F, s[i + j]);
      HoldsWidth(F, w, Stride(F, s, m, j, t), bound);
      ShiftAddHolds(F, w, Stride(F, s, m, j, t), bound, 8, Widen(F.Bits(s[i + j]), 2 * F.n), s[i + j], F.n);
      StrideStep(F, s, m, j, t, i);
      acc[j] := Plus(ShiftUp(w, 8), Widen(F.Bits(s[i + j]), 2 * F.n));
    }
  }

  lemma HoldsWidth<E>(F: PolyField<E>, w: Poly, v: E, bound: nat)
    requires Holds(F, w, v, bound)
    ensures |w| == 2 * F.n
  {
  }

  lemma StrideStep<E(!new)>(F: PolyField<E>, s: seq<E>, m: nat, j: nat, t: nat, i: nat)
    requires PolyFieldLaws(F) && |s| == 8 * m && t < m && j < 8 && i == 8 * (m - (t + 1))
    ensures Stride(F, s, m, j, t + 1) == F.Add(F.Mul(Power(F.ring, F.x, 8), Stride(F, s, m, j, t)), s[i + j])
  {
    AddComm(F.ring, s[i + j], F.Mul(Power(F.ring, F.x, 8), Stride(F, s, m, j, t)));
  }

  method JoinStrides<E(!new)>(F: PolyField<E>, ghost s: seq<E>, ghost m: nat, acc: seq<Poly>) returns (total: Poly)
    requires PolyFieldLaws(F) && m >= 1 && Strides(F, s, m, m, acc)
    ensures Holds(F, total, Interleaved(F, s, m, 0, m), 2 * F.n - 1)
  {
    hide PolyFieldLaws;
    hide Holds;
    hide Stride;
    hide Power;
    total := ZeroPoly(2 * F.n);
    ZeroHolds(F);
    var j := 8;
    while j > 0
      invariant 0 <= j <= 8
      invariant Holds(F, total, Interleaved(F, s, m, j, m), 2 * F.n - 1 - j)
    {
      j := j - 1;
      ghost var v := Interleaved(F, s, m, j + 1, m);
      HoldsWidth(F, total, v, 2 * F.n - 2 - j);
      HoldsWidth(F, acc[j], Stride(F, s, m, j, m), 2 * F.n - 8);
      ShiftAddHolds(F, total, v, 2 * F.n - 2 - j, 1, acc[j], Stride(F, s, m, j, m), 2 * F.n - 8);
      FirstPower(F, v, Stride(F, s, m, j, m));
      total := Plus(ShiftUp(total, 1), acc[j]);
    }
  }

  lemma ZeroHolds<E(!new)>(F: PolyField<E>)
    requires PolyFieldLaws(F) && F.n >= 8
    ensures Holds(F, ZeroPoly(2 * F.n), F.ring.zero, 2 * F.n - 9)
  {
    ReduceZero(F, 2 * F.n);
  }

  lemma FirstPower<E(!new)>(F: PolyField<E>, v: E, a: E)
    requires PolyFieldLaws(F)
    ensures F.Add(F.Mul(Power(F.ring, F.x, 1), v), a) == F.Add(a, F.Mul(F.x, v))
  {
    MulOne(F.ring, F.x);
    AddComm(F.ring, F.Mul(F.x, v), a);
  }

  /** The class of the combined masks: sum of macs[offset + i] x^i. */
  function MaskMac<E>(F: PolyField<E>, macs: seq<E>, offset: nat): E
    requires offset + F.n <= |macs|
  {
    EvalAt(F.ring, macs[offset..offset + F.n], F.x)
  }

  /** The two-level combination: no coefficient is lost, and it is the plain sum. */
  method CombineMacMasks<E(!new)>(F: PolyField<E>, macs: seq<E>, offset: nat) returns (total: Poly)
    requires PolyFieldLaws(F) && F.n % 8 == 0 && offset + F.n <= |macs|
    ensures |total| == 2 * F.n && ZeroFrom(total, 2 * F.n - 1)
    ensures F.Reduce(total) == MaskMac(F, macs, offset)
  {
    hide PolyFieldLaws;
    hide Strides;
    FieldNonEmpty(F);
    ghost var m := F.n / 8;
    var s := macs[offset..offset + F.n];
    var acc := new Poly[8](_ => []);
    LoadTop(F, s, m, acc);
    var i := F.n - 16;
    ghost var t := 1;
    while i >= 0
      invariant 1 <= t <= m && i == 8 * (m - t) - 8
      invariant Strides(F, s, m, t, acc[..])
    {
      AddBlock(F, s, m, t, i, acc);
      i, t := i - 8, t + 1;
    }
    total := JoinStrides(F, s, m, acc[..]);
    CombinedValue(F, macs, offset, m, total);
  }

  lemma CombinedValue<E(!new)>(F: PolyField<E>, macs: seq<E>, offset: nat, m: nat, total: Poly)
    requires PolyFieldLaws(F) && 8 * m == F.n && offset + F.n <= |macs|
    requires Holds(F, total, Interleaved(F, macs[offset..offset + F.n], m, 0, m), 2 * F.n - 1)
    ensures |total| == 2 * F.n && ZeroFrom(total, 2 * F.n - 1)
    ensures F.Reduce(total) == MaskMac(F, macs, offset)
  {
    hide PolyFieldLaws;
    hide Interleaved;
    FieldIsRing(F);
    var s := macs[offset..offset + F.n];
    InterleavedIsSum(F, s, m, m, 0);
    assert s[0..] == s;
  }

  lemma FieldNonEmpty<E(!new)>(F: PolyField<E>)
    requires PolyFieldLaws(F)
    ensures F.n > 0
  {
  }

  // ---- correlated masks ----

  /** If every MAC is shifted by its bit times delta, the combination is shifted by the value times delta. */
  lemma {:induction false} CorrelatedSum<E(!new)>(F: PolyField<E>, bits: seq<bool>, macs: seq<E>, q: seq<E>, delta: E)
    requires Char2Ring(F.ring) && |bits| == |macs| == |q|
    requires forall i | 0 <= i < |bits| :: q[i] == F.Add(macs[i], F.Mul(F.FromBit(bits[i]), delta))
    ensures EvalAt(F.ring, q, F.x) == F.Add(EvalAt(F.ring, macs, F.x), F.Mul(F.Reduce(bits), delta))
  {
    var R := F.ring;
    if |bits| == 0 {
      MulZero(R, delta);
      AddZero(R, R.zero);
    } else {
      CorrelatedSum(F, bits[1..], macs[1..], q[1..], delta);
      var em, rb := EvalAt(R, macs[1..], F.x), F.Reduce(bits[1..]);
      Distribute(R, F.x, em, F.Mul(rb, delta));
      MulAssoc(R, F.x, rb, delta);
      AddSwap(R, macs[0], F.Mul(F.FromBit(bits[0]), delta), F.Mul(F.x, em), F.Mul(F.Mul(F.x, rb), delta));
      Distribute(R, delta, F.FromBit(bits[0]), F.Mul(F.x, rb));
    }
  }
}
