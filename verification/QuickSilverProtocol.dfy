/**
 * The QuickSilver proof: constraints are hashed coefficient by coefficient by the prover and
 * at one point by the verifier, masked, and compared.
 */
module QuickSilverProtocol {
  import opened Algebra
  import opened BitPolynomials
  import opened Poly2d
  import opened UniversalHash
  import opened MacMasks
  import opened QuickSilver
  import Naturals

  // ---- the two hashes and their combination ----

  /** Drawn from the challenge: the key of either hash and the coefficients that combine them. */
  datatype Challenge<E> = Challenge(key: E, key64: Poly, c0: E, c1: E)

  function CombinedHash<E>(F: PolyField<E>, K: Challenge<E>, inputs: seq<E>): E {
    F.Add(F.Mul(K.c0, HashOf(F.ring, K.key, inputs)), F.Mul(K.c1, HashOf(F.ring, F.Reduce(K.key64), inputs)))
  }

  lemma CombinedAdd<E(!new)>(F: PolyField<E>, K: Challenge<E>, a: seq<E>, b: seq<E>)
    requires Char2Ring(F.ring) && |a| == |b|
    ensures CombinedHash(F, K, VecAdd(F.ring, a, b)) == F.Add(CombinedHash(F, K, a), CombinedHash(F, K, b))
  {
    var R, k64 := F.ring, F.Reduce(K.key64);
    HashAdd(R, K.key, a, b);
    HashAdd(R, k64, a, b);
    Distribute(R, K.c0, HashOf(R, K.key, a), HashOf(R, K.key, b));
    Distribute(R, K.c1, HashOf(R, k64, a), HashOf(R, k64, b));
    AddSwap(R, F.Mul(K.c0, HashOf(R, K.key, a)), F.Mul(K.c0, HashOf(R, K.key, b)),
            F.Mul(K.c1, HashOf(R, k64, a)), F.Mul(K.c1, HashOf(R, k64, b)));
  }

  lemma CombinedScale<E(!new)>(F: PolyField<E>, K: Challenge<E>, c: E, a: seq<E>)
    requires Char2Ring(F.ring)
    ensures CombinedHash(F, K, Scale(F.ring, c, a)) == F.Mul(c, CombinedHash(F, K, a))
  {
    var R, k64 := F.ring, F.Reduce(K.key64);
    var h, h64 := HashOf(R, K.key, a), HashOf(R, k64, a);
    HashScale(R, K.key, c, a);
    HashScale(R, k64, c, a);
    MulAssoc(R, K.c0, c, h);
    MulComm(R, K.c0, c);
    MulAssoc(R, c, K.c0, h);
    MulAssoc(R, K.c1, c, h64);
    MulComm(R, K.c1, c);
    MulAssoc(R, c, K.c1, h64);
    Distribute(R, c, F.Mul(K.c0, h), F.Mul(K.c1, h64));
  }

  // ---- hashing polynomials coefficient by coefficient ----

  ghost predicate AllSize<E>(inputs: seq<seq<E>>, size: nat) {
    forall k | 0 <= k < |inputs| :: |inputs[k]| == size
  }

  /** Coefficient i of every input. */
  function Coeffs<E>(inputs: seq<seq<E>>, size: nat, i: nat): (c: seq<E>)
    requires AllSize(inputs, size) && i < size
    ensures |c| == |inputs|
  {
    seq(|inputs|, k requires 0 <= k < |inputs| => inputs[k][i])
  }

  /** The hash of every coefficient, from coefficient `from` on. */
  function HashCoeffs<E>(F: PolyField<E>, K: Challenge<E>, inputs: seq<seq<E>>, size: nat, from: nat, to: nat): (h: seq<E>)
    requires AllSize(inputs, size) && from <= to <= size
    ensures |h| == to - from
  {
    seq(to - from, i requires 0 <= i < to - from => CombinedHash(F, K, Coeffs(inputs, size, from + i)))
  }

  /** The value at d of the coefficients [from, to) of every input. */
  function Values<E>(R: Ring<E>, inputs: seq<seq<E>>, size: nat, from: nat, to: nat, d: E): (v: seq<E>)
    requires AllSize(inputs, size) && from <= to <= size
    ensures |v| == |inputs|
  {
    seq(|inputs|, k requires 0 <= k < |inputs| => EvalAt(R, inputs[k][from..to], d))
  }

  /** Hashing the values at d is evaluating the hashed coefficients at d. */
  lemma {:induction false} HashValues<E(!new)>(F: PolyField<E>, K: Challenge<E>, inputs: seq<seq<E>>, size: nat, from: nat, to: nat, count: nat, d: E)
    requires Char2Ring(F.ring) && AllSize(inputs, size) && from <= to <= size && count == to - from
    ensures CombinedHash(F, K, Values(F.ring, inputs, size, from, to, d))
         == EvalAt(F.ring, HashCoeffs(F, K, inputs, size, from, to), d)
    decreases count
  {
    hide CombinedHash;
    var R := F.ring;
    if from == to {
      HashNothing(F, K, inputs, size, from, d);
    } else {
      HashValues(F, K, inputs, size, from + 1, to, count - 1, d);
      var first, rest := Coeffs(inputs, size, from), Values(R, inputs, size, from + 1, to, d);
      forall k | 0 <= k < |inputs|
        ensures Values(R, inputs, size, from, to, d)[k] == VecAdd(R, first, Scale(R, d, rest))[k]
      {
        assert inputs[k][from..to][1..] == inputs[k][from + 1..to];
      }
      assert Values(R, inputs, size, from, to, d) == VecAdd(R, first, Scale(R, d, rest));
      CombinedAdd(F, K, first, Scale(R, d, rest));
      CombinedScale(F, K, d, rest);
      assert HashCoeffs(F, K, inputs, size, from, to)[1..] == HashCoeffs(F, K, inputs, size, from + 1, to);
    }
  }

  lemma HashNothing<E(!new)>(F: PolyField<E>, K: Challenge<E>, inputs: seq<seq<E>>, size: nat, at: nat, d: E)
    requires Char2Ring(F.ring) && AllSize(inputs, size) && at <= size
    ensures CombinedHash(F, K, Values(F.ring, inputs, size, at, at, d)) == F.ring.zero
  {
    var v := Values(F.ring, inputs, size, at, at, d);
    forall k | 0 <= k < |v| ensures v[k] == F.ring.zero {
      assert inputs[k][at..at] == [];
    }
    assert v == Scale(F.ring, F.ring.zero, v) by {
      MulZero(F.ring, F.ring.zero);
    }
    CombinedScale(F, K, F.ring.zero, v);
    MulZero(F.ring, CombinedHash(F, K, v));
  }

  // ---- masks ----

  lemma MaskInside(n: nat, i: nat, masks: nat, at: nat, len: nat)
    requires at + masks * n <= len && i < masks
    ensures at + i * n + n <= len
  {
    Naturals.MulMono(i + 1, masks, n);
    assert (i + 1) * n == i * n + n;
  }

  /** The combined MACs of `count` mask elements of n bits each. */
  function MaskMacs<E>(F: PolyField<E>, macs: seq<E>, at: nat, count: nat): (m: seq<E>)
    requires at + count * F.n <= |macs|
    ensures |m| == count
  {
    seq(count, i requires 0 <= i < count => MaskInside(F.n, i, count, at, |macs|); MaskMac(F, macs, at + i * F.n))
  }

  /** The mask elements: each the class of n consecutive witness bits. */
  function MaskValues<E>(F: PolyField<E>, wit: seq<bool>, at: nat, count: nat): (v: seq<E>)
    requires at + count * F.n <= |wit|
    ensures |v| == count
  {
    seq(count, i requires 0 <= i < count => MaskInside(F.n, i, count, at, |wit|); F.Reduce(wit[at + i * F.n..at + i * F.n + F.n]))
  }

  /** The mask of coefficient i: its own MAC, if there is one, and the value of the mask before. */
  function MaskOf<T>(R: Ring<T>, m: seq<T>, v: seq<T>, i: nat): T
    requires i <= |m| == |v|
  {
    var mac := if i < |m| then m[i] else R.zero;
    if i > 0 then R.Add(mac, v[i - 1]) else mac
  }

  // ---- what both sides output ----

  /** Coefficient i of the masked hash polynomial; the lowest is the check, the others are the proof. */
  function ProverOutput<T>(R: Ring<T>, m: seq<T>, v: seq<T>, h: seq<T>, i: nat): T
    requires |m| == |v| && i < |h| == |m| + 1
  {
    R.Add(MaskOf(R, m, v, i), h[i])
  }

  function ProverProof<T>(R: Ring<T>, m: seq<T>, v: seq<T>, h: seq<T>): (p: seq<T>)
    requires |m| == |v| && |h| == |m| + 1
    ensures |p| == |m|
  {
    seq(|m|, i requires 0 <= i < |m| => ProverOutput(R, m, v, h, i + 1))
  }

  /** The verifier's mask after the middle proof coefficients 1 to k. */
  function MiddleMask<T>(R: Ring<T>, q: seq<T>, proof: seq<T>, delta: T, k: nat): T
    requires k < |q| == |proof|
  {
    if k == 0 then q[0]
    else R.Add(MiddleMask(R, q, proof, delta, k - 1), R.Mul(R.Add(proof[k - 1], q[k]), Power(R, delta, k)))
  }

  function VerifierMask<T>(R: Ring<T>, q: seq<T>, proof: seq<T>, delta: T): T
    requires |q| == |proof|
  {
    if |q| == 0 then R.zero
    else R.Add(MiddleMask(R, q, proof, delta, |q| - 1), R.Mul(proof[|q| - 1], Power(R, delta, |q|)))
  }

  // ---- completeness ----

  lemma CorrelatedMasks<E(!new)>(F: PolyField<E>, wit: seq<bool>, macs: seq<E>, q: seq<E>, delta: E, at: nat, count: nat, i: nat)
    requires Char2Ring(F.ring) && Correlated(F, wit, macs, q, delta) && at + count * F.n <= |wit| && i < count
    ensures MaskMacs(F, q, at, count)[i]
         == F.Add(MaskMacs(F, macs, at, count)[i], F.Mul(MaskValues(F, wit, at, count)[i], delta))
  {
    MaskInside(F.n, i, count, at, |wit|);
    var lo := at + i * F.n;
    CorrelatedSum(F, wit[lo..lo + F.n], macs[lo..lo + F.n], q[lo..lo + F.n], delta);
  }

  /** h[1] d + ... + h[k] d^k. */
  function Upper<T>(R: Ring<T>, h: seq<T>, d: T, k: nat): T
    requires k < |h|
  {
    if k == 0 then R.zero else R.Add(Upper(R, h, d, k - 1), R.Mul(h[k], Power(R, d, k)))
  }

  lemma {:induction false} EvalIsUpper<T(!new)>(R: Ring<T>, h: seq<T>, d: T, k: nat)
    requires Char2Ring(R) && k < |h|
    ensures EvalAt(R, h[..k + 1], d) == R.Add(h[0], Upper(R, h, d, k))
  {
    if k == 0 {
      assert h[..1] == [h[0]];
      EvalSingle(R, h[0], d);
      AddZero(R, h[0]);
    } else {
      EvalIsUpper(R, h, d, k - 1);
      assert h[..k + 1] == h[..k] + [h[k]];
      EvalSnoc(R, h[..k], h[k], d);
      MulComm(R, Power(R, d, k), h[k]);
      AddAssoc(R, h[0], Upper(R, h, d, k - 1), R.Mul(h[k], Power(R, d, k)));
    }
  }

  /** (m0 + u + v p) + ((m + v) + h + (m + w d)) p = m0 + (u + h p) + w (d p): the old mask value cancels. */
  lemma TelescopeStep<T(!new)>(R: Ring<T>, m0: T, u: T, v: T, p: T, m: T, h: T, w: T, d: T)
    requires Char2Ring(R)
    ensures R.Add(R.Add(R.Add(m0, u), R.Mul(v, p)),
                  R.Mul(R.Add(R.Add(R.Add(m, v), h), R.Add(m, R.Mul(w, d))), p))
         == R.Add(R.Add(m0, R.Add(u, R.Mul(h, p))), R.Mul(w, R.Mul(d, p)))
  {
    // the middle factor is v + h + w d
    var wd := R.Mul(w, d);
    AddAssoc(R, m, v, h);
    AddAssoc(R, R.Add(m, R.Add(v, h)), m, wd);
    AddComm(R, m, R.Add(v, h));
    AddCancel(R, R.Add(v, h), m);
    assert R.Add(R.Add(R.Add(m, v), h), R.Add(m, wd)) == R.Add(R.Add(v, h), wd);
    Distribute(R, p, R.Add(v, h), wd);
    Distribute(R, p, v, h);
    MulAssoc(R, w, d, p);
    var a, vp, hp, wdp := R.Add(m0, u), R.Mul(v, p), R.Mul(h, p), R.Mul(w, R.Mul(d, p));
    AddAssoc(R, R.Add(a, vp), R.Add(vp, hp), wdp);
    AddAssoc(R, R.Add(a, vp), vp, hp);
    AddCancel(R, a, vp);
    AddAssoc(R, m0, u, hp);
  }

  /** After k middle coefficients the masks have telescoped to the first MAC and the last value. */
  lemma {:induction false} MasksTelescope<T(!new)>(R: Ring<T>, m: seq<T>, v: seq<T>, q: seq<T>, h: seq<T>, delta: T, k: nat)
    requires Char2Ring(R) && k < |m| == |v| == |q| && |h| == |m| + 1
    requires forall i | 0 <= i < |m| :: q[i] == R.Add(m[i], R.Mul(v[i], delta))
    ensures MiddleMask(R, q, ProverProof(R, m, v, h), delta, k)
         == R.Add(R.Add(m[0], Upper(R, h, delta, k)), R.Mul(v[k], Power(R, delta, k + 1)))
  {
    if k == 0 {
      AddZero(R, m[0]);
      MulOne(R, delta);
    } else {
      MasksTelescope(R, m, v, q, h, delta, k - 1);
      assert ProverProof(R, m, v, h)[k - 1] == R.Add(R.Add(m[k], v[k - 1]), h[k]);
      TelescopeStep(R, m[0], Upper(R, h, delta, k - 1), v[k - 1], Power(R, delta, k), m[k], h[k], v[k], delta);
    }
  }

  /** The verifier's mask turns the hash at delta into the prover's check. */
  lemma ChecksAgree<T(!new)>(R: Ring<T>, m: seq<T>, v: seq<T>, q: seq<T>, h: seq<T>, delta: T)
    requires Char2Ring(R) && |m| == |v| == |q| && |h| == |m| + 1
    requires forall i | 0 <= i < |m| :: q[i] == R.Add(m[i], R.Mul(v[i], delta))
    ensures R.Add(VerifierMask(R, q, ProverProof(R, m, v, h), delta), EvalAt(R, h, delta)) == ProverOutput(R, m, v, h, 0)
  {
    var d := |m|;
    EvalIsUpper(R, h, delta, d);
    assert h[..d + 1] == h;
    if d == 0 {
      AddZero(R, h[0]);
    } else {
      MasksTelescope(R, m, v, q, h, delta, d - 1);
      AddZero(R, v[d - 1]);
      FinalMask(R, m[0], Upper(R, h, delta, d - 1), v[d - 1], Power(R, delta, d), h[d], h[0]);
    }
  }

  /** ((m0 + u + v p) + (v + h) p) + (h0 + (u + h p)) = m0 + h0. */
  lemma FinalMask<T(!new)>(R: Ring<T>, m0: T, u: T, v: T, p: T, h: T, h0: T)
    requires Char2Ring(R)
    ensures R.Add(R.Add(R.Add(R.Add(m0, u), R.Mul(v, p)), R.Mul(R.Add(v, h), p)), R.Add(h0, R.Add(u, R.Mul(h, p))))
         == R.Add(m0, h0)
  {
    var a, vp, hp := R.Add(m0, u), R.Mul(v, p), R.Mul(h, p);
    Distribute(R, p, v, h);
    AddAssoc(R, R.Add(a, vp), vp, hp);
    AddCancel(R, a, vp);
    AddAssoc(R, m0, u, hp);
    AddSwap(R, m0, R.Add(u, hp), h0, R.Add(u, hp));
    AddSelf(R, R.Add(u, hp));
    AddZero(R, R.Add(m0, h0));
  }
}
