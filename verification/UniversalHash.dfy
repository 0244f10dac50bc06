/**
 * The universal hashers: Horner evaluation with the multiplication delayed over several
 * inputs, plain Horner with a short key, and delayed Horner on split halves.
 */
module UniversalHash {
  import opened Algebra
  import opened BitPolynomials
  import Naturals

  // ---- what is hashed ----

  /** Sum of inputs[i] * key^(n - 1 - i), by Horner's rule. */
  function HashOf<E>(R: Ring<E>, key: E, inputs: seq<E>): E {
    if |inputs| == 0 then R.zero
    else R.Add(R.Mul(key, HashOf(R, key, inputs[..|inputs| - 1])), inputs[|inputs| - 1])
  }

  /** The first k terms of the plain sum over all n inputs. */
  function PlainSum<E>(R: Ring<E>, key: E, inputs: seq<E>, k: nat): E
    requires k <= |inputs|
  {
    if k == 0 then R.zero
    else R.Add(PlainSum(R, key, inputs, k - 1), R.Mul(inputs[k - 1], Power(R, key, |inputs| - k)))
  }

  lemma {:induction false} PlainSumShift<E(!new)>(R: Ring<E>, key: E, inputs: seq<E>, last: E, k: nat)
    requires Char2Ring(R) && k <= |inputs|
    ensures PlainSum(R, key, inputs + [last], k) == R.Mul(key, PlainSum(R, key, inputs, k))
  {
    if k == 0 {
      MulZero(R, key);
    } else {
      PlainSumShift(R, key, inputs, last, k - 1);
      var p := Power(R, key, |inputs| - k);
      MulAssoc(R, inputs[k - 1], key, p);
      MulComm(R, inputs[k - 1], key);
      MulAssoc(R, key, inputs[k - 1], p);
      Distribute(R, key, PlainSum(R, key, inputs, k - 1), R.Mul(inputs[k - 1], p));
    }
  }

  /** Horner's rule computes the plain sum of input_i times the key to the n - 1 - i. */
  lemma {:induction false} HashIsPlainSum<E(!new)>(R: Ring<E>, key: E, inputs: seq<E>)
    requires Char2Ring(R)
    ensures HashOf(R, key, inputs) == PlainSum(R, key, inputs, |inputs|)
  {
    if |inputs| > 0 {
      var init, last := inputs[..|inputs| - 1], inputs[|inputs| - 1];
      HashIsPlainSum(R, key, init);
      assert inputs == init + [last];
      PlainSumShift(R, key, init, last, |init|);
      MulOne(R, last);
    }
  }

  lemma {:induction false} HashAdd<E(!new)>(R: Ring<E>, key: E, a: seq<E>, b: seq<E>)
    requires Char2Ring(R) && |a| == |b|
    ensures HashOf(R, key, VecAdd(R, a, b)) == R.Add(HashOf(R, key, a), HashOf(R, key, b))
  {
    if |a| == 0 {
      AddSelf(R, R.zero);
    } else {
      var n := |a| - 1;
      HashAdd(R, key, a[..n], b[..n]);
      assert VecAdd(R, a, b)[..n] == VecAdd(R, a[..n], b[..n]);
      Distribute(R, key, HashOf(R, key, a[..n]), HashOf(R, key, b[..n]));
      AddSwap(R, R.Mul(key, HashOf(R, key, a[..n])), R.Mul(key, HashOf(R, key, b[..n])), a[n], b[n]);
    }
  }

  lemma {:induction false} HashScale<E(!new)>(R: Ring<E>, key: E, c: E, a: seq<E>)
    requires Char2Ring(R)
    ensures HashOf(R, key, Scale(R, c, a)) == R.Mul(c, HashOf(R, key, a))
  {
    if |a| == 0 {
      MulZero(R, c);
    } else {
      var n := |a| - 1;
      HashScale(R, key, c, a[..n]);
      assert Scale(R, c, a)[..n] == Scale(R, c, a[..n]);
      var h := HashOf(R, key, a[..n]);
      MulAssoc(R, key, c, h);
      MulComm(R, key, c);
      MulAssoc(R, c, key, h);
      Distribute(R, c, R.Mul(key, h), a[n]);
    }
  }

  lemma HashSnoc<E>(R: Ring<E>, key: E, inputs: seq<E>, last: E)
    ensures HashOf(R, key, inputs + [last]) == R.Add(R.Mul(key, HashOf(R, key, inputs)), last)
  {
    assert (inputs + [last])[..|inputs|] == inputs;
  }

  // ---- keys ----

  /** key_pows[i] is the key to the i + 1. */
  function KeyPowers<E>(R: Ring<E>, key: E, count: nat): (p: seq<E>)
    ensures |p| == count
  {
    seq(count, i requires 0 <= i < count => Power(R, key, i + 1))
  }

  /** Each power is the one before times the key, multiplied wide and reduced. */
  method InitKey<E(!new)>(F: PolyField<E>, key: E, count: nat) returns (keyPows: seq<E>)
    requires PolyFieldLaws(F) && count >= 1
    ensures keyPows == KeyPowers(F.ring, key, count)
  {
    MulOne(F.ring, key);
    keyPows := [key];
    var keyPow := key;
    for i := 1 to count
      invariant keyPow == Power(F.ring, key, i)
      invariant |keyPows| == i && forall k | 0 <= k < i :: keyPows[k] == Power(F.ring, key, k + 1)
    {
      ReduceProduct(F, keyPow, key);
      MulComm(F.ring, keyPow, key);
      keyPow := F.Reduce(Clmul(F.Bits(keyPow), F.Bits(key)));
      keyPows := keyPows + [keyPow];
    }
  }

  // ---- the countdown of powers ----

  /** The counter after t of `total` updates: it counts down, and restarts from -1 at count - 1. */
  function PowAfter(total: nat, count: nat, t: nat): (p: int)
    requires count >= 1
    ensures -1 <= p < count
  {
    if t == 0 then (total + count - 1) % count
    else
      var p := PowAfter(total, count, t - 1);
      (if p == -1 then count - 1 else p) - 1
  }

  /** The counter is the number of updates to come, less one, modulo the number of powers. */
  lemma {:induction false} PowCountsDown(total: nat, count: nat, t: nat)
    requires count >= 1 && t <= total
    ensures (total - t) % count == if PowAfter(total, count, t) == count - 1 then 0 else PowAfter(total, count, t) + 1
    ensures PowAfter(total, count, t) == count - 1 ==> t == 0
  {
    if t == 0 {
      StartOfCountdown(total, count);
    } else {
      PowCountsDown(total, count, t - 1);
      StepOfCountdown(total - t, count);
    }
  }

  lemma StartOfCountdown(total: nat, count: nat)
    requires count >= 1
    ensures total % count == if (total + count - 1) % count == count - 1 then 0 else (total + count - 1) % count + 1
  {
    var q, r := total / count, total % count;
    Naturals.DivMulBound(total, count);
    assert (q + 1) * count == q * count + count;
    if r == 0 {
      Naturals.QuotientUnique(total + count - 1, count, q);
    } else {
      Naturals.QuotientUnique(total + count - 1, count, q + 1);
    }
  }

  lemma StepOfCountdown(left: nat, count: nat)
    requires count >= 1
    ensures (left + 1) % count == if left % count == count - 1 then 0 else left % count + 1
  {
    var q, r := left / count, left % count;
    Naturals.DivMulBound(left, count);
    assert (q + 1) * count == q * count + count;
    if r == count - 1 {
      Naturals.QuotientUnique(left + 1, count, q + 1);
    } else {
      Naturals.QuotientUnique(left + 1, count, q);
    }
  }

  /**
   * A hasher that was told to expect `total` inputs may be finalized after them exactly if
   * there was at least one.
   */
  lemma FinalizableAtEnd(total: nat, count: nat)
    requires count >= 1
    ensures PowAfter(total, count, total) == -1 <==> total >= 1
  {
    PowCountsDown(total, count, total);
    if total == 0 {
      Naturals.QuotientUnique(count - 1, count, 0);
    }
  }

  // ---- hasher states as values ----

  /** A wide accumulator and the power of the key that the next input is due. */
  datatype Delayed = Delayed(state: Poly, pow: int)

  /** The state after the given inputs: their hash, ahead by the powers still owed. */
  ghost predicate Absorbed<E>(F: PolyField<E>, key: E, count: nat, total: nat, inputs: seq<E>, h: Delayed)
    requires count >= 1
  {
    && |h.state| == 2 * F.n
    && h.pow == PowAfter(total, count, |inputs|)
    && F.Reduce(h.state) == F.Mul(Power(F.ring, key, h.pow + 1), HashOf(F.ring, key, inputs))
  }

  function InitDelayed(n: nat, count: nat, total: nat): Delayed
    requires count >= 1
  {
    Delayed(ZeroPoly(2 * n), (total + count - 1) % count)
  }

  lemma InitAbsorbed<E(!new)>(F: PolyField<E>, key: E, count: nat, total: nat)
    requires PolyFieldLaws(F) && count >= 1
    ensures Absorbed(F, key, count, total, [], InitDelayed(F.n, count, total))
  {
    ReduceZero(F, 2 * F.n);
    MulZero(F.ring, Power(F.ring, key, PowAfter(total, count, 0) + 1));
  }

  /** The term an input contributes when power `pow` of the key is due. */
  function Summand<E(!new)>(F: PolyField<E>, keyPows: seq<E>, pow: nat, input: E): (w: Poly)
    requires PolyFieldLaws(F) && pow <= |keyPows|
    ensures |w| == 2 * F.n
  {
    ReduceElement(F, input);
    if pow > 0 then ReduceElement(F, keyPows[pow - 1]); Clmul(F.Bits(keyPows[pow - 1]), F.Bits(input))
    else Widen(F.Bits(input), 2 * F.n)
  }

  function AddSummand<E(!new)>(F: PolyField<E>, keyPows: seq<E>, h: Delayed, input: E): (r: Delayed)
    requires PolyFieldLaws(F) && 0 <= h.pow <= |keyPows| && |h.state| == 2 * F.n
    ensures |r.state| == 2 * F.n
  {
    Delayed(Plus(h.state, Summand(F, keyPows, h.pow, input)), h.pow - 1)
  }

  /** One wide product catches up with all the powers owed. */
  function Caught<E(!new)>(F: PolyField<E>, keyPows: seq<E>, state: Poly): (w: Poly)
    requires PolyFieldLaws(F) && |keyPows| >= 1
    ensures |w| == 2 * F.n
  {
    ReduceElement(F, keyPows[|keyPows| - 1]);
    ReduceElement(F, F.Reduce(state));
    Clmul(F.Bits(keyPows[|keyPows| - 1]), F.Bits(F.Reduce(state)))
  }

  lemma HalvesValue<E(!new)>(F: PolyField<E>, a: E, b: E, lo: Poly, hi: Poly)
    requires PolyFieldLaws(F) && |lo| == |hi| == F.n
    ensures |F.Bits(a)| == |F.Bits(b)| == F.n
    ensures F.Reduce(Plus(Clmul(F.Bits(a), lo), Clmul(F.Bits(b), hi))) == F.Add(F.Mul(a, F.Reduce(lo)), F.Mul(b, F.Reduce(hi)))
  {
    hide PolyFieldLaws;
    hide Clmul;
    hide Plus;
    FieldIsRing(F);
    ReduceElement(F, a);
    ReduceElement(F, b);
    ReduceClmul(F, F.Bits(a), lo);
    ReduceClmul(F, F.Bits(b), hi);
    ReducePlus(F, Clmul(F.Bits(a), lo), Clmul(F.Bits(b), hi));
  }

  /** The same for a state that is not reduced first: its halves are multiplied apart. */
  function CaughtSplit<E(!new)>(F: PolyField<E>, keyPows: seq<E>, powTimesTop: E, state: Poly): (w: Poly)
    requires PolyFieldLaws(F) && |keyPows| >= 1 && |state| == 2 * F.n
    ensures |w| == 2 * F.n
    ensures F.Reduce(w) == F.Add(F.Mul(keyPows[|keyPows| - 1], F.Reduce(state[..F.n])), F.Mul(powTimesTop, F.Reduce(state[F.n..])))
  {
    HalvesValue(F, keyPows[|keyPows| - 1], powTimesTop, state[..F.n], state[F.n..]);
    Plus(Clmul(F.Bits(keyPows[|keyPows| - 1]), state[..F.n]), Clmul(F.Bits(powTimesTop), state[F.n..]))
  }

  function UpdateDelayed<E(!new)>(F: PolyField<E>, keyPows: seq<E>, h: Delayed, input: E): (r: Delayed)
    requires PolyFieldLaws(F) && |keyPows| >= 1 && |h.state| == 2 * F.n && -1 <= h.pow < |keyPows|
    ensures |r.state| == 2 * F.n
  {
    AddSummand(F, keyPows, if h.pow == -1 then Delayed(Caught(F, keyPows, h.state), |keyPows| - 1) else h, input)
  }

  function UpdateSplit<E(!new)>(F: PolyField<E>, keyPows: seq<E>, powTimesTop: E, h: Delayed, input: E): (r: Delayed)
    requires PolyFieldLaws(F) && |keyPows| >= 1 && |h.state| == 2 * F.n && -1 <= h.pow < |keyPows|
    ensures |r.state| == 2 * F.n
  {
    AddSummand(F, keyPows,
               if h.pow == -1 then Delayed(CaughtSplit(F, keyPows, powTimesTop, h.state), |keyPows| - 1) else h, input)
  }

  lemma SummandValue<E(!new)>(F: PolyField<E>, key: E, count: nat, pow: nat, input: E)
    requires PolyFieldLaws(F) && pow <= count
    ensures F.Reduce(Summand(F, KeyPowers(F.ring, key, count), pow, input)) == F.Mul(Power(F.ring, key, pow), input)
  {
    ReduceElement(F, input);
    if pow > 0 {
      ReduceProduct(F, Power(F.ring, key, pow), input);
    } else {
      MulOne(F.ring, input);
    }
  }

  /** key^(p + 1) h + key^p i = key^p (key h + i): adding an input costs one of the powers owed. */
  lemma SummandAbsorbed<E(!new)>(F: PolyField<E>, key: E, count: nat, h: Delayed, hash: E, input: E)
    requires PolyFieldLaws(F) && 0 <= h.pow < count && |h.state| == 2 * F.n
    requires F.Reduce(h.state) == F.Mul(Power(F.ring, key, h.pow + 1), hash)
    ensures F.Reduce(AddSummand(F, KeyPowers(F.ring, key, count), h, input).state)
         == F.Mul(Power(F.ring, key, h.pow), F.Add(F.Mul(key, hash), input))
  {
    hide Summand;
    var R, p := F.ring, Power(F.ring, key, h.pow);
    SummandValue(F, key, count, h.pow, input);
    ReducePlus(F, h.state, Summand(F, KeyPowers(R, key, count), h.pow, input));
    MulComm(R, key, p);
    MulAssoc(R, p, key, hash);
    Distribute(R, p, F.Mul(key, hash), input);
  }

  lemma CaughtValue<E(!new)>(F: PolyField<E>, key: E, count: nat, state: Poly)
    requires PolyFieldLaws(F) && count >= 1
    ensures F.Reduce(Caught(F, KeyPowers(F.ring, key, count), state)) == F.Mul(Power(F.ring, key, count), F.Reduce(state))
  {
    hide PolyFieldLaws;
    hide Clmul;
    ReduceProduct(F, Power(F.ring, key, count), F.Reduce(state));
  }

  /** The upper half is worth the power of the indeterminate where it starts. */
  lemma CaughtSplitValue<E(!new)>(F: PolyField<E>, key: E, count: nat, top: E, state: Poly)
    requires PolyFieldLaws(F) && count >= 1 && |state| == 2 * F.n
    requires top == F.Mul(Power(F.ring, key, count), Power(F.ring, F.x, F.n))
    ensures F.Reduce(CaughtSplit(F, KeyPowers(F.ring, key, count), top, state))
         == F.Mul(Power(F.ring, key, count), F.Reduce(state))
  {
    hide PolyFieldLaws;
    hide CaughtSplit;
    hide PolyField.Reduce;
    FieldIsRing(F);
    var kp, lo, hi := Power(F.ring, key, count), state[..F.n], state[F.n..];
    assert KeyPowers(F.ring, key, count)[count - 1] == kp;
    assert state == lo + hi;
    ReduceConcat(F, lo, hi);
    SplitProduct(F.ring, kp, Power(F.ring, F.x, F.n), F.Reduce(lo), F.Reduce(hi));
  }

  lemma SplitProduct<T(!new)>(R: Ring<T>, k: T, t: T, lo: T, hi: T)
    requires Char2Ring(R)
    ensures R.Add(R.Mul(k, lo), R.Mul(R.Mul(k, t), hi)) == R.Mul(k, R.Add(lo, R.Mul(t, hi)))
  {
    MulAssoc(R, k, t, hi);
    Distribute(R, k, lo, R.Mul(t, hi));
  }

  lemma AddSummandAbsorbs<E(!new)>(F: PolyField<E>, key: E, count: nat, total: nat, inputs: seq<E>, h: Delayed, input: E)
    requires PolyFieldLaws(F) && 0 <= h.pow < count && |h.state| == 2 * F.n
    requires h.pow == if PowAfter(total, count, |inputs|) == -1 then count - 1 else PowAfter(total, count, |inputs|)
    requires F.Reduce(h.state) == F.Mul(Power(F.ring, key, h.pow + 1), HashOf(F.ring, key, inputs))
    ensures Absorbed(F, key, count, total, inputs + [input], AddSummand(F, KeyPowers(F.ring, key, count), h, input))
  {
    hide PolyFieldLaws;
    SummandAbsorbed(F, key, count, h, HashOf(F.ring, key, inputs), input);
    HashSnoc(F.ring, key, inputs, input);
  }

  /** An update absorbs its input, whether or not it has to catch up first. */
  lemma UpdateAbsorbs<E(!new)>(F: PolyField<E>, key: E, count: nat, total: nat, inputs: seq<E>, h: Delayed, input: E)
    requires PolyFieldLaws(F) && count >= 1 && Absorbed(F, key, count, total, inputs, h)
    ensures Absorbed(F, key, count, total, inputs + [input], UpdateDelayed(F, KeyPowers(F.ring, key, count), h, input))
  {
    hide AddSummand;
    hide Caught;
    hide PolyFieldLaws;
    hide KeyPowers;
    hide HashOf;
    hide PolyField.Reduce;
    FieldIsRing(F);
    if h.pow == -1 {
      CaughtValue(F, key, count, h.state);
      MulOne(F.ring, HashOf(F.ring, key, inputs));
      AddSummandAbsorbs(F, key, count, total, inputs, Delayed(Caught(F, KeyPowers(F.ring, key, count), h.state), count - 1), input);
    } else {
      AddSummandAbsorbs(F, key, count, total, inputs, h, input);
    }
  }

  lemma UpdateSplitAbsorbs<E(!new)>(F: PolyField<E>, key: E, count: nat, top: E, total: nat, inputs: seq<E>, h: Delayed, input: E)
    requires PolyFieldLaws(F) && count >= 1 && Absorbed(F, key, count, total, inputs, h)
    requires top == F.Mul(Power(F.ring, key, count), Power(F.ring, F.x, F.n))
    ensures Absorbed(F, key, count, total, inputs + [input], UpdateSplit(F, KeyPowers(F.ring, key, count), top, h, input))
  {
    hide AddSummand;
    hide CaughtSplit;
    hide PolyFieldLaws;
    hide KeyPowers;
    hide HashOf;
    hide PolyField.Reduce;
    FieldIsRing(F);
    if h.pow == -1 {
      CaughtSplitValue(F, key, count, top, h.state);
      MulOne(F.ring, HashOf(F.ring, key, inputs));
      AddSummandAbsorbs(F, key, count, total, inputs,
                        Delayed(CaughtSplit(F, KeyPowers(F.ring, key, count), top, h.state), count - 1), input);
    } else {
      AddSummandAbsorbs(F, key, count, total, inputs, h, input);
    }
  }

  /** With nothing owed, reducing the state gives the hash. */
  lemma FinalHash<E(!new)>(F: PolyField<E>, key: E, count: nat, total: nat, inputs: seq<E>, h: Delayed)
    requires PolyFieldLaws(F) && count >= 1 && Absorbed(F, key, count, total, inputs, h) && h.pow == -1
    ensures F.Reduce(h.state) == HashOf(F.ring, key, inputs)
  {
    MulOne(F.ring, HashOf(F.ring, key, inputs));
  }

  // ---- hasher objects ----

  class DelayedHasher {
    var state: Poly
    var pow: int

    function Value(): Delayed
      reads this
    {
      Delayed(state, pow)
    }

    constructor (n: nat, count: nat, total: nat)
      requires count >= 1
      ensures Value() == InitDelayed(n, count, total)
    {
      state := ZeroPoly(2 * n);
      pow := (total + count - 1) % count;
    }

    method AddInput<E(!new)>(F: PolyField<E>, keyPows: seq<E>, input: E)
      requires PolyFieldLaws(F) && 0 <= pow <= |keyPows| && |state| == 2 * F.n
      modifies this
      ensures Value() == AddSummand(F, keyPows, old(Value()), input)
    {
      hide PolyFieldLaws;
      ReduceElement(F, input);
      var summand: Poly;
      if pow > 0 {
        ReduceElement(F, keyPows[pow - 1]);
        summand := Clmul(F.Bits(keyPows[pow - 1]), F.Bits(input));
      } else {
        summand := Widen(F.Bits(input), 2 * F.n);
      }
      state := Plus(state, summand);
      pow := pow - 1;
    }

    method Update<E(!new)>(F: PolyField<E>, ghost key: E, keyPows: seq<E>, input: E, ghost total: nat, ghost inputs: seq<E>)
      requires PolyFieldLaws(F) && |keyPows| >= 1 && keyPows == KeyPowers(F.ring, key, |keyPows|)
      requires Absorbed(F, key, |keyPows|, total, inputs, Value())
      modifies this
      ensures Absorbed(F, key, |keyPows|, total, inputs + [input], Value())
    {
      hide PolyFieldLaws;
      hide AddSummand;
      hide Caught;
      hide KeyPowers;
      hide HashOf;
      hide Power;
      UpdateAbsorbs(F, key, |keyPows|, total, inputs, Value(), input);
      if pow == -1 {
        state := Caught(F, keyPows, state);
        pow := |keyPows| - 1;
      }
      AddInput(F, keyPows, input);
    }

    /** The split-half variant. */
    method UpdateHalves<E(!new)>(F: PolyField<E>, ghost key: E, keyPows: seq<E>, powTimesTop: E, input: E,
                                 ghost total: nat, ghost inputs: seq<E>)
      requires PolyFieldLaws(F) && |keyPows| >= 1 && keyPows == KeyPowers(F.ring, key, |keyPows|)
      requires powTimesTop == F.Mul(Power(F.ring, key, |keyPows|), Power(F.ring, F.x, F.n))
      requires Absorbed(F, key, |keyPows|, total, inputs, Value())
      modifies this
      ensures Absorbed(F, key, |keyPows|, total, inputs + [input], Value())
    {
      hide PolyFieldLaws;
      hide AddSummand;
      hide CaughtSplit;
      hide KeyPowers;
      hide HashOf;
      hide Power;
      UpdateSplitAbsorbs(F, key, |keyPows|, powTimesTop, total, inputs, Value(), input);
      if pow == -1 {
        state := CaughtSplit(F, keyPows, powTimesTop, state);
        pow := |keyPows| - 1;
      }
      AddInput(F, keyPows, input);
    }

    /** The source asserts pow == -1 here; that is what every input having arrived amounts to. */
    method Finalize<E(!new)>(F: PolyField<E>, ghost key: E, ghost count: nat, ghost inputs: seq<E>) returns (hash: E)
      requires PolyFieldLaws(F) && count >= 1 && |inputs| >= 1
      requires Absorbed(F, key, count, |inputs|, inputs, Value())
      ensures pow == -1 && hash == HashOf(F.ring, key, inputs)
    {
      hide PolyFieldLaws;
      FinalizableAtEnd(|inputs|, count);
      FinalHash(F, key, count, |inputs|, inputs, Value());
      hash := F.Reduce(state);
    }
  }

  /** Horner's rule with a key that is a short polynomial. */
  class PlainHasher<E(!new)> {
    var state: E

    constructor (F: PolyField<E>)
      ensures state == F.ring.zero
    {
      state := F.ring.zero;
    }

    method Update(F: PolyField<E>, key: Poly, input: E, ghost inputs: seq<E>)
      requires PolyFieldLaws(F) && state == HashOf(F.ring, F.Reduce(key), inputs)
      modifies this
      ensures state == HashOf(F.ring, F.Reduce(key), inputs + [input])
    {
      ReduceElement(F, state);
      ReduceClmul(F, key, F.Bits(state));
      HashSnoc(F.ring, F.Reduce(key), inputs, input);
      state := F.Reduce(Clmul(key, F.Bits(state)));
      state := F.Add(state, input);
    }
  }

  // ---- whole runs ----

  /** However many powers are precomputed, the delayed hasher ends with the plain sum. */
  method HashDelayed<E(!new)>(F: PolyField<E>, key: E, count: nat, inputs: seq<E>) returns (hash: E)
    requires PolyFieldLaws(F) && count >= 1 && |inputs| >= 1
    ensures hash == PlainSum(F.ring, key, inputs, |inputs|)
  {
    hide PolyFieldLaws;
    hide Absorbed;
    var keyPows := InitKey(F, key, count);
    var h := new DelayedHasher(F.n, count, |inputs|);
    InitAbsorbed(F, key, count, |inputs|);
    for i := 0 to |inputs|
      invariant Absorbed(F, key, count, |inputs|, inputs[..i], h.Value())
    {
      h.Update(F, key, keyPows, inputs[i], |inputs|, inputs[..i]);
      assert inputs[..i] + [inputs[i]] == inputs[..i + 1];
    }
    assert inputs[..|inputs|] == inputs;
    hash := h.Finalize(F, key, count, inputs);
    FieldIsRing(F);
    HashIsPlainSum(F.ring, key, inputs);
  }

  /** The split-half hasher computes the same sum. */
  method HashHalves<E(!new)>(F: PolyField<E>, key: E, count: nat, inputs: seq<E>) returns (hash: E)
    requires PolyFieldLaws(F) && count >= 1 && |inputs| >= 1
    ensures hash == PlainSum(F.ring, key, inputs, |inputs|)
  {
    hide PolyFieldLaws;
    hide Absorbed;
    hide PlainSum;
    hide HashOf;
    var keyPows := InitKey(F, key, count);
    var top := TimesTop(F, keyPows[count - 1]);
    var h := new DelayedHasher(F.n, count, |inputs|);
    InitAbsorbed(F, key, count, |inputs|);
    for i := 0 to |inputs|
      invariant Absorbed(F, key, count, |inputs|, inputs[..i], h.Value())
    {
      h.UpdateHalves(F, key, keyPows, top, inputs[i], |inputs|, inputs[..i]);
      assert inputs[..i] + [inputs[i]] == inputs[..i + 1];
    }
    assert inputs[..|inputs|] == inputs;
    hash := h.Finalize(F, key, count, inputs);
    FieldIsRing(F);
    HashIsPlainSum(F.ring, key, inputs);
  }

  /** Multiplication by the n-th power of the indeterminate: the representative moved up by its width. */
  method TimesTop<E(!new)>(F: PolyField<E>, a: E) returns (r: E)
    requires PolyFieldLaws(F)
    ensures r == F.Mul(a, Power(F.ring, F.x, F.n))
  {
    ReduceElement(F, a);
    r := F.Reduce(ZeroPoly(F.n) + F.Bits(a));
    ReduceConcat(F, ZeroPoly(F.n), F.Bits(a));
    ReduceZero(F, F.n);
    AddZero(F.ring, F.Mul(Power(F.ring, F.x, F.n), a));
    MulComm(F.ring, a, Power(F.ring, F.x, F.n));
  }
}
