/** The prover's and the verifier's running state, and the run of a whole proof. */
module QuickSilverState {
  import opened Algebra
  import opened BitPolynomials
  import opened Poly2d
  import opened UniversalHash
  import opened MacMasks
  import opened QuickSilver
  import opened QuickSilverProtocol

  /** Both hashers have absorbed the inputs. */
  ghost predicate HasherFed<E>(F: PolyField<E>, K: Challenge<E>, count: nat, total: nat, inputs: seq<E>, d: Delayed, s64: E)
    requires count >= 1
  {
    Absorbed(F, K.key, count, total, inputs, d) && s64 == HashOf(F.ring, F.Reduce(K.key64), inputs)
  }

  function Update64<E(!new)>(F: PolyField<E>, key64: Poly, s64: E, input: E): E
    requires PolyFieldLaws(F)
  {
    F.Add(F.Reduce(Clmul(key64, F.Bits(s64))), input)
  }

  lemma HashersFed<E(!new)>(F: PolyField<E>, K: Challenge<E>, count: nat, total: nat, inputs: seq<E>, d: Delayed, s64: E, input: E)
    requires PolyFieldLaws(F) && count >= 1 && HasherFed(F, K, count, total, inputs, d, s64)
    ensures HasherFed(F, K, count, total, inputs + [input],
                      UpdateDelayed(F, KeyPowers(F.ring, K.key, count), d, input), Update64(F, K.key64, s64, input))
  {
    hide PolyFieldLaws;
    hide UpdateDelayed;
    FieldIsRing(F);
    UpdateAbsorbs(F, K.key, count, total, inputs, d, input);
    ReduceElement(F, s64);
    ReduceClmul(F, K.key64, F.Bits(s64));
    HashSnoc(F.ring, F.Reduce(K.key64), inputs, input);
  }

  lemma HashersInit<E(!new)>(F: PolyField<E>, K: Challenge<E>, count: nat, total: nat)
    requires PolyFieldLaws(F) && count >= 1
    ensures HasherFed(F, K, count, total, [], InitDelayed(F.n, count, total), F.ring.zero)
  {
    InitAbsorbed(F, K.key, count, total);
  }

  /** The mask and the two hashes, combined wide and reduced once. */
  method FinalizeHashes<E(!new)>(F: PolyField<E>, ghost K: Challenge<E>, ghost count: nat, ghost inputs: seq<E>,
                                 c0: E, c1: E, d: Delayed, s64: E, mask: Poly) returns (r: E)
    requires PolyFieldLaws(F) && count >= 1 && |inputs| >= 1 && c0 == K.c0 && c1 == K.c1 && |mask| == 2 * F.n
    requires HasherFed(F, K, count, |inputs|, inputs, d, s64)
    ensures d.pow == -1 && r == F.Add(F.Reduce(mask), CombinedHash(F, K, inputs))
  {
    hide PolyFieldLaws;
    hide Clmul;
    FieldIsRing(F);
    FinalizableAtEnd(|inputs|, count);
    FinalHash(F, K.key, count, |inputs|, inputs, d);
    var hash := F.Reduce(d.state);
    ReduceProduct(F, c0, hash);
    ReduceProduct(F, c1, s64);
    var w0, w1 := Clmul(F.Bits(c0), F.Bits(hash)), Clmul(F.Bits(c1), F.Bits(s64));
    ReducePlus(F, mask, w0);
    ReducePlus(F, Plus(mask, w0), w1);
    AddAssoc(F.ring, F.Reduce(mask), F.Mul(c0, hash), F.Mul(c1, s64));
    r := F.Reduce(Plus(Plus(mask, w0), w1));
  }

  // ---- the prover ----

  class ProverState<E(!new)> {
    const C: Setting<E>
    const keyPows: seq<E>
    const key64: Poly
    const c0: E
    const c1: E
    const wit: seq<bool>
    const macs: seq<E>
    const secpar: array<Delayed>
    const short: array<E>

    /** One pair of hashers for each coefficient below the top, fed with that coefficient of every input. */
    ghost predicate Fed(K: Challenge<E>, count: nat, total: nat, inputs: seq<seq<E>>)
      reads secpar, short
    {
      && C.maxDeg == secpar.Length == short.Length && secpar as object != short && count >= 1
      && keyPows == KeyPowers(C.F.ring, K.key, count) && key64 == K.key64 && c0 == K.c0 && c1 == K.c1
      && AllSize(inputs, C.maxDeg + 1)
      && forall i | 0 <= i < C.maxDeg ::
           HasherFed(C.F, K, count, total, Coeffs(inputs, C.maxDeg + 1, i), secpar[i], short[i])
    }

    constructor (C: Setting<E>, K: Challenge<E>, count: nat, total: nat, wit: seq<bool>, macs: seq<E>)
      requires ValidSetting(C) && count >= 1
      ensures this.C == C && this.wit == wit && this.macs == macs
      ensures fresh(secpar) && fresh(short) && Fed(K, count, total, [])
    {
      hide PolyFieldLaws;
      hide HasherFed;
      var powers := InitKey(C.F, K.key, count);
      this.C, keyPows, key64, c0, c1 := C, powers, K.key64, K.c0, K.c1;
      this.wit, this.macs := wit, macs;
      secpar := new Delayed[C.maxDeg](_ => InitDelayed(C.F.n, count, total));
      short := new E[C.maxDeg](_ => C.F.ring.zero);
      new;
      HashersInit(C.F, K, count, total);
      forall i | 0 <= i < C.maxDeg ensures HasherFed(C.F, K, count, total, Coeffs([], C.maxDeg + 1, i), secpar[i], short[i]) {
        assert Coeffs<E>([], C.maxDeg + 1, i) == [];
      }
    }

    /** Adds the constraint that a value is zero; its polynomial is first lifted to the maximal degree. */
    method AddConstraint(ghost K: Challenge<E>, ghost count: nat, ghost total: nat, ghost inputs: seq<seq<E>>, x: ProverExt<E>)
      requires ValidSetting(C) && Fed(K, count, total, inputs)
      requires 1 <= |x.mac| <= C.maxDeg + 1 && x.mac[|x.mac| - 1] == C.F.ring.zero
      modifies secpar, short
      ensures Fed(K, count, total, inputs + [ShiftLeft(C.F.ring, x.mac, C.maxDeg + 1 - |x.mac|)])
    {
      hide PolyFieldLaws;
      hide HasherFed;
      hide UpdateDelayed;
      hide Update64;
      hide ShiftLeft;
      hide Absorbed;
      hide KeyPowers;
      var xMax := ComputeShiftLeft(C.F.ring, x.mac, C.maxDeg + 1 - |x.mac|);
      ghost var next := inputs + [xMax];
      for i := 0 to C.maxDeg
        invariant forall k | 0 <= k < i :: HasherFed(C.F, K, count, total, Coeffs(next, C.maxDeg + 1, k), secpar[k], short[k])
        invariant forall k | i <= k < C.maxDeg :: HasherFed(C.F, K, count, total, Coeffs(inputs, C.maxDeg + 1, k), secpar[k], short[k])
      {
        ghost var before := Coeffs(inputs, C.maxDeg + 1, i);
        HashersFed(C.F, K, count, total, before, secpar[i], short[i], xMax[i]);
        HasherShape(C.F, K, count, total, before, secpar[i], short[i]);
        assert Coeffs(next, C.maxDeg + 1, i) == before + [xMax[i]];
        secpar[i] := UpdateDelayed(C.F, keyPows, secpar[i], xMax[i]);
        short[i] := Update64(C.F, key64, short[i], xMax[i]);
      }
    }
  
    /** Adds mask i: its MAC to coefficient i, its value to the next. */
    method AddMask(witnessBits: nat, i: nat, all: array<Poly>, ghost m: seq<E>, ghost v: seq<E>)
      requires ValidSetting(C) && C.F.n % 8 == 0 && witnessBits + (C.maxDeg - 1) * C.F.n <= |wit| == |macs| && i < C.maxDeg - 1
      requires m == MaskMacs(C.F, macs, witnessBits, C.maxDeg - 1) && v == MaskValues(C.F, wit, witnessBits, C.maxDeg - 1)
      requires MasksPartly(C.F, m, v, all[..], i)
      modifies all
      ensures MasksPartly(C.F, m, v, all[..], i + 1)
    {
      hide PolyFieldLaws;
      hide MaskMac;
      hide MaskMacs;
      MaskAt(C.F, macs, witnessBits, C.maxDeg - 1, i);
      var at := witnessBits + i * C.F.n;
      var mac := CombineMacMasks(C.F, macs, at);
      var value := Widen(wit[at..at + C.F.n], 2 * C.F.n);
      FieldIsRing(C.F);
      ReduceWiden(C.F, wit[at..at + C.F.n], 2 * C.F.n);
      assert C.F.Reduce(mac) == m[i] && C.F.Reduce(value) == v[i];
      hide PolyField.Reduce;
      hide MaskValues;
      MaskAdded(C.F, m, v, all[..], i, mac, value);
      hide MasksPartly;
      all[i], all[i + 1] := Plus(all[i], mac), Plus(all[i + 1], value);
    }

    /** The mask of every coefficient: MACs of the mask elements, and their values one coefficient up. */
    method ComputeMasks(witnessBits: nat) returns (masks: seq<Poly>)
      requires ValidSetting(C) && C.F.n % 8 == 0 && witnessBits + (C.maxDeg - 1) * C.F.n <= |wit| == |macs|
      ensures MasksReady(C.F, MaskMacs(C.F, macs, witnessBits, C.maxDeg - 1), MaskValues(C.F, wit, witnessBits, C.maxDeg - 1), masks)
    {
      hide PolyFieldLaws;
      hide MaskMac;
      hide MasksPartly;
      var F, d := C.F, C.maxDeg - 1;
      var all := new Poly[C.maxDeg](_ => ZeroPoly(2 * F.n));
      ghost var m, v := MaskMacs(F, macs, witnessBits, d), MaskValues(F, wit, witnessBits, d);
      NoMasksYet(F, m, v, all[..]);
      for i := 0 to d
        invariant MasksPartly(F, m, v, all[..], i)
      {
        AddMask(witnessBits, i, all, m, v);
      }
      masks := all[..];
      AllMasks(F, m, v, masks);
    }

    /** The masked hash of every coefficient: the lowest is the check, the others the proof. */
    method Prove(ghost K: Challenge<E>, ghost count: nat, ghost inputs: seq<seq<E>>, witnessBits: nat)
      returns (proof: seq<E>, check: E)
      requires ValidSetting(C) && Fed(K, count, |inputs|, inputs) && |inputs| >= 1
      requires C.F.n % 8 == 0 && witnessBits % 8 == 0 && witnessBits + (C.maxDeg - 1) * C.F.n <= |wit| == |macs|
      ensures check == ProverOutput(C.F.ring, MaskMacs(C.F, macs, witnessBits, C.maxDeg - 1),
                                    MaskValues(C.F, wit, witnessBits, C.maxDeg - 1),
                                    HashCoeffs(C.F, K, inputs, C.maxDeg + 1, 0, C.maxDeg), 0)
      ensures proof == ProverProof(C.F.ring, MaskMacs(C.F, macs, witnessBits, C.maxDeg - 1),
                                   MaskValues(C.F, wit, witnessBits, C.maxDeg - 1),
                                   HashCoeffs(C.F, K, inputs, C.maxDeg + 1, 0, C.maxDeg))
    {
      hide PolyFieldLaws;
      hide HasherFed;
      hide CombinedHash;
      hide MaskOf;
      hide MaskMacs;
      hide MaskValues;
      ghost var h := HashCoeffs(C.F, K, inputs, C.maxDeg + 1, 0, C.maxDeg);
      ghost var m, v := MaskMacs(C.F, macs, witnessBits, C.maxDeg - 1), MaskValues(C.F, wit, witnessBits, C.maxDeg - 1);
      var masks := ComputeMasks(witnessBits);
      var out: seq<E> := [];
      for i := 0 to C.maxDeg
        invariant |out| == i && forall k | 0 <= k < i :: out[k] == ProverOutput(C.F.ring, m, v, h, k)
      {
        assert h[i] == CombinedHash(C.F, K, Coeffs(inputs, C.maxDeg + 1, 0 + i));
        var r := FinalizeHashes(C.F, K, count, Coeffs(inputs, C.maxDeg + 1, i), c0, c1, secpar[i], short[i], masks[i]);
        out := out + [r];
      }
      check, proof := out[0], out[1..];
    }
  }

  // ---- masks being added up ----

  ghost predicate MasksReady<E>(F: PolyField<E>, m: seq<E>, v: seq<E>, masks: seq<Poly>)
    requires |m| == |v|
  {
    && |masks| == |m| + 1
    && forall k | 0 <= k < |masks| :: |masks[k]| == 2 * F.n && F.Reduce(masks[k]) == MaskOf(F.ring, m, v, k)
  }

  /** After i masks: coefficients below i are complete, coefficient i lacks its MAC, the others are zero. */
  ghost predicate MasksPartly<E>(F: PolyField<E>, m: seq<E>, v: seq<E>, masks: seq<Poly>, i: nat)
    requires |m| == |v|
  {
    && |masks| == |m| + 1 && i <= |m|
    && forall k | 0 <= k < |masks| ::
         && |masks[k]| == 2 * F.n
         && F.Reduce(masks[k]) == if k < i then MaskOf(F.ring, m, v, k)
                                  else if k == i && i > 0 then v[i - 1] else F.ring.zero
  }

  lemma NoMasksYet<E(!new)>(F: PolyField<E>, m: seq<E>, v: seq<E>, masks: seq<Poly>)
    requires PolyFieldLaws(F) && |m| == |v| && |masks| == |m| + 1
    requires forall k | 0 <= k < |masks| :: masks[k] == ZeroPoly(2 * F.n)
    ensures MasksPartly(F, m, v, masks, 0)
  {
    ReduceZero(F, 2 * F.n);
  }

  lemma MaskAdded<E(!new)>(F: PolyField<E>, m: seq<E>, v: seq<E>, masks: seq<Poly>, i: nat, mac: Poly, value: Poly)
    requires PolyFieldLaws(F) && |m| == |v| && i < |m| && MasksPartly(F, m, v, masks, i)
    requires |mac| == |value| == 2 * F.n && F.Reduce(mac) == m[i] && F.Reduce(value) == v[i]
    ensures |masks[i]| == |masks[i + 1]| == 2 * F.n
    ensures MasksPartly(F, m, v, masks[i := Plus(masks[i], mac)][i + 1 := Plus(masks[i + 1], value)], i + 1)
  {
    hide PolyFieldLaws;
    hide Plus;
    FieldIsRing(F);
    ReducePlus(F, masks[i], mac);
    ReducePlus(F, masks[i + 1], value);
    AddZero(F.ring, m[i]);
    AddZero(F.ring, v[i]);
    if i > 0 {
      AddComm(F.ring, v[i - 1], m[i]);
    }
  }

  lemma AllMasks<E(!new)>(F: PolyField<E>, m: seq<E>, v: seq<E>, masks: seq<Poly>)
    requires PolyFieldLaws(F) && |m| == |v| && MasksPartly(F, m, v, masks, |m|)
    ensures MasksReady(F, m, v, masks)
  {
    if |m| > 0 {
      AddZero(F.ring, v[|m| - 1]);
    }
  }

  lemma MaskAt<E>(F: PolyField<E>, macs: seq<E>, at: nat, count: nat, i: nat)
    requires at + count * F.n <= |macs| && i < count
    ensures at + i * F.n + F.n <= |macs| && MaskMacs(F, macs, at, count)[i] == MaskMac(F, macs, at + i * F.n)
  {
    hide MaskMac;
    MaskInside(F.n, i, count, at, |macs|);
  }

  lemma FirstMask<E>(F: PolyField<E>, macs: seq<E>, at: nat, count: nat)
    requires at + count * F.n <= |macs| && count >= 1
    ensures at + F.n <= |macs| && MaskMacs(F, macs, at, count)[0] == MaskMac(F, macs, at)
  {
    hide MaskMac;
    MaskInside(F.n, 0, count, at, |macs|);
    assert at + 0 * F.n == at;
  }

  lemma HasherShape<E>(F: PolyField<E>, K: Challenge<E>, count: nat, total: nat, inputs: seq<E>, d: Delayed, s64: E)
    requires count >= 1 && HasherFed(F, K, count, total, inputs, d, s64)
    ensures |d.state| == 2 * F.n && -1 <= d.pow < count
  {
  }

  // ---- the verifier ----

  class VerifierState<E(!new)> {
    const C: Setting<E>
    const keyPows: seq<E>
    const key64: Poly
    const c0: E
    const c1: E
    const deltaPowers: seq<E>
    const macs: seq<E>
    var secpar: Delayed
    var short: E

    ghost predicate Fed(K: Challenge<E>, count: nat, total: nat, delta: E, values: seq<E>)
      reads this
    {
      && count >= 1 && deltaPowers == DeltaPowers(C.F.ring, delta, C.maxDeg)
      && keyPows == KeyPowers(C.F.ring, K.key, count) && key64 == K.key64 && c0 == K.c0 && c1 == K.c1
      && HasherFed(C.F, K, count, total, values, secpar, short)
    }

    constructor (C: Setting<E>, K: Challenge<E>, count: nat, total: nat, delta: E, macs: seq<E>)
      requires ValidSetting(C) && count >= 1
      ensures this.C == C && this.macs == macs && Fed(K, count, total, delta, [])
    {
      hide PolyFieldLaws;
      hide HasherFed;
      var powers := InitKey(C.F, K.key, count);
      var dp := InitKey(C.F, delta, C.maxDeg);
      this.C, keyPows, key64, c0, c1 := C, powers, K.key64, K.c0, K.c1;
      this.macs, deltaPowers := macs, dp;
      secpar, short := InitDelayed(C.F.n, count, total), C.F.ring.zero;
      new;
      HashersInit(C.F, K, count, total);
      assert KeyPowers(C.F.ring, delta, C.maxDeg) == DeltaPowers(C.F.ring, delta, C.maxDeg);
    }

    /** Adds the constraint that a value of the given degree is zero, lifted to the maximal degree. */
    method AddConstraint(ghost K: Challenge<E>, ghost count: nat, ghost total: nat, ghost delta: E, ghost values: seq<E>,
                         x: E, deg: nat)
      requires ValidSetting(C) && Fed(K, count, total, delta, values) && deg <= C.maxDeg
      modifies this
      ensures Fed(K, count, total, delta, values + [if deg < C.maxDeg then C.F.Mul(x, deltaPowers[C.maxDeg - deg - 1]) else x])
    {
      hide PolyFieldLaws;
      hide UpdateDelayed;
      hide Update64;
      hide Absorbed;
      hide KeyPowers;
      hide HasherFed;
      var xMax := x;
      if deg < C.maxDeg {
        ReduceProduct(C.F, x, deltaPowers[C.maxDeg - deg - 1]);
        xMax := C.F.Reduce(Clmul(C.F.Bits(x), C.F.Bits(deltaPowers[C.maxDeg - deg - 1])));
      }
      HashersFed(C.F, K, count, total, values, secpar, short, xMax);
      HasherShape(C.F, K, count, total, values, secpar, short);
      secpar, short := UpdateDelayed(C.F, keyPows, secpar, xMax), Update64(C.F, key64, short, xMax);
    }

    /** Adds proof coefficient i, masked, times its power of delta. */
    method AddCoefficient(ghost delta: E, proof: seq<E>, witnessBits: nat, i: nat, mask: Poly, ghost q: seq<E>) returns (r: Poly)
      requires ValidSetting(C) && C.F.n % 8 == 0 && witnessBits + (C.maxDeg - 1) * C.F.n <= |macs| && |proof| == C.maxDeg - 1
      requires deltaPowers == DeltaPowers(C.F.ring, delta, C.maxDeg) && q == MaskMacs(C.F, macs, witnessBits, C.maxDeg - 1)
      requires 1 <= i < C.maxDeg - 1 && |mask| == 2 * C.F.n && C.F.Reduce(mask) == MiddleMask(C.F.ring, q, proof, delta, i - 1)
      ensures |r| == 2 * C.F.n && C.F.Reduce(r) == MiddleMask(C.F.ring, q, proof, delta, i)
    {
      hide PolyFieldLaws;
      hide MaskMac;
      hide MaskMacs;
      hide Power;
      hide PolyField.Reduce;
      MaskAt(C.F, macs, witnessBits, C.maxDeg - 1, i);
      var combined := CombineMacMasks(C.F, macs, witnessBits + i * C.F.n);
      var coeff := C.F.Add(proof[i - 1], C.F.Reduce(combined));
      r := AddProduct(C.F, mask, coeff, deltaPowers[i - 1]);
    }

    /** The first mask and the middle proof coefficients. */
    method ComputeMiddle(ghost delta: E, proof: seq<E>, witnessBits: nat, ghost q: seq<E>) returns (mask: Poly)
      requires ValidSetting(C) && C.F.n % 8 == 0 && witnessBits + (C.maxDeg - 1) * C.F.n <= |macs| && |proof| == C.maxDeg - 1
      requires deltaPowers == DeltaPowers(C.F.ring, delta, C.maxDeg) && q == MaskMacs(C.F, macs, witnessBits, C.maxDeg - 1)
      requires C.maxDeg >= 2
      ensures |mask| == 2 * C.F.n && C.F.Reduce(mask) == MiddleMask(C.F.ring, q, proof, delta, C.maxDeg - 2)
    {
      hide PolyFieldLaws;
      FirstMask(C.F, macs, witnessBits, C.maxDeg - 1);
      hide MaskMacs;
      hide MaskMac;
      hide DeltaPowers;
      hide PolyField.Reduce;
      mask := CombineMacMasks(C.F, macs, witnessBits);
      for i := 1 to C.maxDeg - 1
        invariant |mask| == 2 * C.F.n && C.F.Reduce(mask) == MiddleMask(C.F.ring, q, proof, delta, i - 1)
      {
        hide MiddleMask;
        mask := AddCoefficient(delta, proof, witnessBits, i, mask, q);
      }
    }

    /** The verifier's mask, accumulated wide. */
    method ComputeMask(ghost delta: E, proof: seq<E>, witnessBits: nat) returns (mask: Poly)
      requires ValidSetting(C) && C.F.n % 8 == 0 && witnessBits + (C.maxDeg - 1) * C.F.n <= |macs| && |proof| == C.maxDeg - 1
      requires deltaPowers == DeltaPowers(C.F.ring, delta, C.maxDeg)
      ensures |mask| == 2 * C.F.n
      ensures C.F.Reduce(mask) == VerifierMask(C.F.ring, MaskMacs(C.F, macs, witnessBits, C.maxDeg - 1), proof, delta)
    {
      hide PolyFieldLaws;
      hide MaskMacs;
      hide MiddleMask;
      hide Power;
      ghost var q := MaskMacs(C.F, macs, witnessBits, C.maxDeg - 1);
      mask := ZeroPoly(2 * C.F.n);
      if C.maxDeg >= 2 {
        assert deltaPowers[C.maxDeg - 2] == Power(C.F.ring, delta, C.maxDeg - 1);
        hide PolyField.Reduce;
        hide DeltaPowers;
        mask := ComputeMiddle(delta, proof, witnessBits, q);
        mask := AddProduct(C.F, mask, proof[C.maxDeg - 2], deltaPowers[C.maxDeg - 2]);
      } else {
        FieldIsRing(C.F);
        ReduceZero(C.F, 2 * C.F.n);
      }
    }

    method Verify(ghost K: Challenge<E>, ghost count: nat, ghost delta: E, ghost values: seq<E>, witnessBits: nat, proof: seq<E>)
      returns (check: E)
      requires ValidSetting(C) && Fed(K, count, |values|, delta, values) && |values| >= 1 && |proof| == C.maxDeg - 1
      requires C.F.n % 8 == 0 && witnessBits + (C.maxDeg - 1) * C.F.n <= |macs|
      ensures check == C.F.Add(VerifierMask(C.F.ring, MaskMacs(C.F, macs, witnessBits, C.maxDeg - 1), proof, delta),
                               CombinedHash(C.F, K, values))
    {
      hide PolyFieldLaws;
      hide HasherFed;
      hide CombinedHash;
      hide VerifierMask;
      hide MaskMacs;
      var mask := ComputeMask(delta, proof, witnessBits);
      check := FinalizeHashes(C.F, K, count, values, c0, c1, secpar, short, mask);
    }
  }

  method AddProduct<E(!new)>(F: PolyField<E>, mask: Poly, a: E, b: E) returns (r: Poly)
    requires PolyFieldLaws(F) && |mask| == 2 * F.n
    ensures |r| == 2 * F.n && F.Reduce(r) == F.Add(F.Reduce(mask), F.Mul(a, b))
  {
    hide PolyFieldLaws;
    hide Clmul;
    hide Plus;
    FieldIsRing(F);
    ReduceProduct(F, a, b);
    ReducePlus(F, mask, Clmul(F.Bits(a), F.Bits(b)));
    r := Plus(mask, Clmul(F.Bits(a), F.Bits(b)));
  }

  // ---- whole proofs ----

  /** The constraints: expressions over the witness whose plain value is zero. */
  ghost predicate Satisfied<E(!new)>(C: Setting<E>, wit: seq<bool>, cs: seq<ExtExpr<E>>)
    requires |C.g| == 7
  {
    forall k | 0 <= k < |cs| :: ExtTyped(cs[k], C.maxDeg, |wit|) && PlainExt(C, wit, cs[k]) == C.F.ring.zero
  }

  function Lifted<E>(C: Setting<E>, e: ExtExpr<E>): (l: ExtExpr<E>)
    requires ExtDeg(e) <= C.maxDeg
    ensures ExtDeg(l) == C.maxDeg
    ensures forall bits: nat | ExtTyped(e, C.maxDeg, bits) :: ExtTyped(l, C.maxDeg, bits)
  {
    if ExtDeg(e) < C.maxDeg then LiftExt(e, C.maxDeg) else e
  }

  function ProverInputs<E>(C: Setting<E>, wit: seq<bool>, macs: seq<E>, cs: seq<ExtExpr<E>>): (r: seq<seq<E>>)
    requires |C.g| == 7 && |macs| == |wit| && forall k | 0 <= k < |cs| :: ExtTyped(cs[k], C.maxDeg, |wit|)
    ensures |r| == |cs| && AllSize(r, C.maxDeg + 1)
  {
    seq(|cs|, k requires 0 <= k < |cs| => assert ExtTyped(cs[k], C.maxDeg, |wit|); ProveExt(C, wit, macs, Lifted(C, cs[k])).mac)
  }

  function VerifierInputs<E>(C: Setting<E>, bits: nat, delta: E, q: seq<E>, cs: seq<ExtExpr<E>>): (r: seq<E>)
    requires |C.g| == 7 && |q| == bits && forall k | 0 <= k < |cs| :: ExtTyped(cs[k], C.maxDeg, bits)
    ensures |r| == |cs|
  {
    seq(|cs|, k requires 0 <= k < |cs| =>
      assert ExtTyped(cs[k], C.maxDeg, bits); VerifyExt(C, bits, DeltaPowers(C.F.ring, delta, C.maxDeg), q, Lifted(C, cs[k])))
  }

  /** Well-typed expressions, satisfied or not. */
  ghost predicate Typed<E(!new)>(C: Setting<E>, bits: nat, cs: seq<ExtExpr<E>>) {
    forall k | 0 <= k < |cs| :: ExtTyped(cs[k], C.maxDeg, bits)
  }

  /** The plain values of the constraints, all zero for a satisfying witness. */
  function PlainValues<E>(C: Setting<E>, wit: seq<bool>, cs: seq<ExtExpr<E>>): (r: seq<E>)
    requires |C.g| == 7 && forall k | 0 <= k < |cs| :: ExtTyped(cs[k], C.maxDeg, |wit|)
    ensures |r| == |cs|
  {
    seq(|cs|, k requires 0 <= k < |cs| => assert ExtTyped(cs[k], C.maxDeg, |wit|); PlainExt(C, wit, cs[k]))
  }

  /** The verifier's value exceeds that of the coefficients the prover hashes by the plain value at the top power. */
  lemma InputDiffers<E(!new)>(C: Setting<E>, wit: seq<bool>, macs: seq<E>, q: seq<E>, delta: E, e: ExtExpr<E>)
    requires ValidSetting(C) && Correlated(C.F, wit, macs, q, delta) && ExtTyped(e, C.maxDeg, |wit|)
    ensures VerifyExt(C, |wit|, DeltaPowers(C.F.ring, delta, C.maxDeg), q, Lifted(C, e))
         == C.F.Add(EvalAt(C.F.ring, ProveExt(C, wit, macs, Lifted(C, e)).mac[0..C.maxDeg], delta),
                    C.F.Mul(Power(C.F.ring, delta, C.maxDeg), PlainExt(C, wit, e)))
  {
    hide PolyFieldLaws;
    FieldIsRing(C.F);
    var l := Lifted(C, e);
    ExtHomomorphism(C, wit, macs, q, delta, l);
    assert ExtAgrees(C, wit, macs, q, delta, l);
    assert PlainExt(C, wit, l) == PlainExt(C, wit, e);
    hide ProveExt;
    hide VerifyExt;
    hide PlainExt;
    hide EvalAt;
    hide Power;
    var mac := ProveExt(C, wit, macs, l).mac;
    assert mac == mac[0..C.maxDeg] + [PlainExt(C, wit, e)];
    EvalSnoc(C.F.ring, mac[0..C.maxDeg], PlainExt(C, wit, e), delta);
  }

  /** The prover's masked hash polynomial: coefficient 0 is its check. */
  function CheckOf<E>(C: Setting<E>, K: Challenge<E>, wit: seq<bool>, macs: seq<E>, witnessBits: nat, inputs: seq<seq<E>>): E
    requires C.maxDeg >= 1 && witnessBits + (C.maxDeg - 1) * C.F.n <= |wit| == |macs| && AllSize(inputs, C.maxDeg + 1)
  {
    ProverOutput(C.F.ring, MaskMacs(C.F, macs, witnessBits, C.maxDeg - 1), MaskValues(C.F, wit, witnessBits, C.maxDeg - 1),
                 HashCoeffs(C.F, K, inputs, C.maxDeg + 1, 0, C.maxDeg), 0)
  }

  /** The other coefficients are the proof. */
  function ProofOf<E>(C: Setting<E>, K: Challenge<E>, wit: seq<bool>, macs: seq<E>, witnessBits: nat, inputs: seq<seq<E>>): (p: seq<E>)
    requires C.maxDeg >= 1 && witnessBits + (C.maxDeg - 1) * C.F.n <= |wit| == |macs| && AllSize(inputs, C.maxDeg + 1)
    ensures |p| == C.maxDeg - 1
  {
    ProverProof(C.F.ring, MaskMacs(C.F, macs, witnessBits, C.maxDeg - 1), MaskValues(C.F, wit, witnessBits, C.maxDeg - 1),
                HashCoeffs(C.F, K, inputs, C.maxDeg + 1, 0, C.maxDeg))
  }

  function VerifierCheckOf<E>(C: Setting<E>, K: Challenge<E>, q: seq<E>, witnessBits: nat, delta: E, values: seq<E>, proof: seq<E>): E
    requires C.maxDeg >= 1 && witnessBits + (C.maxDeg - 1) * C.F.n <= |q| && |proof| == C.maxDeg - 1
  {
    C.F.Add(VerifierMask(C.F.ring, MaskMacs(C.F, q, witnessBits, C.maxDeg - 1), proof, delta), CombinedHash(C.F, K, values))
  }

  /** The combined hash as two plain sums. */
  lemma CombinedIsPlainSums<E(!new)>(F: PolyField<E>, K: Challenge<E>, inputs: seq<E>)
    requires Char2Ring(F.ring)
    ensures CombinedHash(F, K, inputs)
         == F.Add(F.Mul(K.c0, PlainSum(F.ring, K.key, inputs, |inputs|)),
                  F.Mul(K.c1, PlainSum(F.ring, F.Reduce(K.key64), inputs, |inputs|)))
  {
    HashIsPlainSum(F.ring, K.key, inputs);
    HashIsPlainSum(F.ring, F.Reduce(K.key64), inputs);
  }

  /** Output i of the prover: the plain sums over the MACs and bits of its masks, and over coefficient i of every input. */
  lemma OutputIsPlainSums<E(!new)>(C: Setting<E>, K: Challenge<E>, wit: seq<bool>, macs: seq<E>, at: nat, inputs: seq<seq<E>>, i: nat)
    requires ValidSetting(C) && at + (C.maxDeg - 1) * C.F.n <= |wit| == |macs| && AllSize(inputs, C.maxDeg + 1) && i < C.maxDeg
    ensures i > 0 ==> at + (i - 1) * C.F.n + C.F.n <= |wit|
    ensures i < C.maxDeg - 1 ==> at + i * C.F.n + C.F.n <= |macs|
    ensures var F, lo := C.F, at + i * C.F.n;
            var mac := if i < C.maxDeg - 1 then EvalAt(F.ring, macs[lo..lo + F.n], F.x) else F.ring.zero;
            var mask := if i > 0 then F.Add(mac, F.Reduce(wit[lo - F.n..lo])) else mac;
            var c := Coeffs(inputs, C.maxDeg + 1, i);
            (if i == 0 then CheckOf(C, K, wit, macs, at, inputs) else ProofOf(C, K, wit, macs, at, inputs)[i - 1])
            == F.Add(mask, F.Add(F.Mul(K.c0, PlainSum(F.ring, K.key, c, |c|)),
                                 F.Mul(K.c1, PlainSum(F.ring, F.Reduce(K.key64), c, |c|))))
  {
    hide PolyFieldLaws;
    hide PlainSum;
    FieldIsRing(C.F);
    CombinedIsPlainSums(C.F, K, Coeffs(inputs, C.maxDeg + 1, i));
    hide CombinedHash;
    assert (i - 1) * C.F.n + C.F.n == i * C.F.n;
    if i > 0 {
      MaskInside(C.F.n, i - 1, C.maxDeg - 1, at, |wit|);
    }
    if i < C.maxDeg - 1 {
      MaskInside(C.F.n, i, C.maxDeg - 1, at, |macs|);
    }
    assert HashCoeffs(C.F, K, inputs, C.maxDeg + 1, 0, C.maxDeg)[i] == CombinedHash(C.F, K, Coeffs(inputs, C.maxDeg + 1, i));
  }

  /** Whatever the constraints are worth, the checks differ by the hash of their plain values times delta^maxDeg. */
  lemma CheckDifference<E(!new)>(C: Setting<E>, K: Challenge<E>, wit: seq<bool>, macs: seq<E>, q: seq<E>, delta: E,
                                 witnessBits: nat, cs: seq<ExtExpr<E>>)
    requires ValidSetting(C) && Correlated(C.F, wit, macs, q, delta) && Typed(C, |wit|, cs)
    requires witnessBits + (C.maxDeg - 1) * C.F.n <= |wit|
    ensures var tops := PlainValues(C, wit, cs);
            VerifierCheckOf(C, K, q, witnessBits, delta, VerifierInputs(C, |wit|, delta, q, cs),
                            ProofOf(C, K, wit, macs, witnessBits, ProverInputs(C, wit, macs, cs)))
            == C.F.Add(CheckOf(C, K, wit, macs, witnessBits, ProverInputs(C, wit, macs, cs)),
                       C.F.Mul(Power(C.F.ring, delta, C.maxDeg),
                               C.F.Add(C.F.Mul(K.c0, PlainSum(C.F.ring, K.key, tops, |tops|)),
                                       C.F.Mul(K.c1, PlainSum(C.F.ring, C.F.Reduce(K.key64), tops, |tops|)))))
  {
    hide PolyFieldLaws;
    hide EvalAt;
    hide ProveExt;
    hide VerifyExt;
    hide PlainExt;
    hide CombinedHash;
    hide MaskMacs;
    hide MaskValues;
    hide VerifierMask;
    hide ProverProof;
    hide ProverOutput;
    hide Power;
    hide PlainSum;
    var R, d, inputs, tops := C.F.ring, C.maxDeg, ProverInputs(C, wit, macs, cs), PlainValues(C, wit, cs);
    var p := Power(R, delta, d);
    FieldIsRing(C.F);
    var values := Values(R, inputs, d + 1, 0, d, delta);
    forall k | 0 <= k < |cs| ensures VerifierInputs(C, |wit|, delta, q, cs)[k] == VecAdd(R, values, Scale(R, p, tops))[k] {
      InputDiffers(C, wit, macs, q, delta, cs[k]);
    }
    assert VerifierInputs(C, |wit|, delta, q, cs) == VecAdd(R, values, Scale(R, p, tops));
    CombinedAdd(C.F, K, values, Scale(R, p, tops));
    CombinedScale(C.F, K, p, tops);
    CombinedIsPlainSums(C.F, K, tops);
    HashValues(C.F, K, inputs, d + 1, 0, d, d, delta);
    var m, v, mq := MaskMacs(C.F, macs, witnessBits, d - 1), MaskValues(C.F, wit, witnessBits, d - 1), MaskMacs(C.F, q, witnessBits, d - 1);
    forall i | 0 <= i < d - 1 ensures mq[i] == R.Add(m[i], R.Mul(v[i], delta)) {
      CorrelatedMasks(C.F, wit, macs, q, delta, witnessBits, d - 1, i);
    }
    var h := HashCoeffs(C.F, K, inputs, d + 1, 0, d);
    ChecksAgree(R, m, v, mq, h, delta);
    AddAssoc(R, VerifierMask(R, mq, ProverProof(R, m, v, h), delta), EvalAt(R, h, delta), R.Mul(p, CombinedHash(C.F, K, tops)));
  }

  /** So they are equal exactly if that hash vanishes. */
  lemma ChecksEqualIff<E(!new)>(C: Setting<E>, K: Challenge<E>, wit: seq<bool>, macs: seq<E>, q: seq<E>, delta: E,
                                witnessBits: nat, cs: seq<ExtExpr<E>>)
    requires ValidSetting(C) && Correlated(C.F, wit, macs, q, delta) && Typed(C, |wit|, cs)
    requires witnessBits + (C.maxDeg - 1) * C.F.n <= |wit|
    ensures var tops := PlainValues(C, wit, cs);
            VerifierCheckOf(C, K, q, witnessBits, delta, VerifierInputs(C, |wit|, delta, q, cs),
                            ProofOf(C, K, wit, macs, witnessBits, ProverInputs(C, wit, macs, cs)))
            == CheckOf(C, K, wit, macs, witnessBits, ProverInputs(C, wit, macs, cs))
            <==> C.F.Mul(Power(C.F.ring, delta, C.maxDeg),
                         C.F.Add(C.F.Mul(K.c0, PlainSum(C.F.ring, K.key, tops, |tops|)),
                                 C.F.Mul(K.c1, PlainSum(C.F.ring, C.F.Reduce(K.key64), tops, |tops|)))) == C.F.ring.zero
  {
    CheckDifference(C, K, wit, macs, q, delta, witnessBits, cs);
    hide PolyFieldLaws;
    hide CheckOf;
    hide VerifierCheckOf;
    hide Power;
    hide PlainSum;
    FieldIsRing(C.F);
    var tops := PlainValues(C, wit, cs);
    NothingAdded(C.F.ring, CheckOf(C, K, wit, macs, witnessBits, ProverInputs(C, wit, macs, cs)),
                 C.F.Mul(Power(C.F.ring, delta, C.maxDeg),
                         C.F.Add(C.F.Mul(K.c0, PlainSum(C.F.ring, K.key, tops, |tops|)),
                                 C.F.Mul(K.c1, PlainSum(C.F.ring, C.F.Reduce(K.key64), tops, |tops|)))));
  }

  lemma {:induction false} ZeroSum<T(!new)>(R: Ring<T>, key: T, inputs: seq<T>, k: nat)
    requires Char2Ring(R) && k <= |inputs| && forall i | 0 <= i < |inputs| :: inputs[i] == R.zero
    ensures PlainSum(R, key, inputs, k) == R.zero
  {
    if k > 0 {
      ZeroSum(R, key, inputs, k - 1);
      MulZero(R, Power(R, key, |inputs| - k));
      AddZero(R, R.zero);
    }
  }

  /** For satisfied constraints the verifier's check is the prover's. */
  lemma Completeness<E(!new)>(C: Setting<E>, K: Challenge<E>, wit: seq<bool>, macs: seq<E>, q: seq<E>, delta: E,
                              witnessBits: nat, cs: seq<ExtExpr<E>>)
    requires ValidSetting(C) && Correlated(C.F, wit, macs, q, delta) && Satisfied(C, wit, cs)
    requires witnessBits + (C.maxDeg - 1) * C.F.n <= |wit|
    ensures VerifierCheckOf(C, K, q, witnessBits, delta, VerifierInputs(C, |wit|, delta, q, cs),
                            ProofOf(C, K, wit, macs, witnessBits, ProverInputs(C, wit, macs, cs)))
         == CheckOf(C, K, wit, macs, witnessBits, ProverInputs(C, wit, macs, cs))
  {
    ChecksEqualIff(C, K, wit, macs, q, delta, witnessBits, cs);
    hide PolyFieldLaws;
    hide CheckOf;
    hide VerifierCheckOf;
    hide Power;
    FieldIsRing(C.F);
    var R, tops := C.F.ring, PlainValues(C, wit, cs);
    ZeroSum(R, K.key, tops, |tops|);
    ZeroSum(R, C.F.Reduce(K.key64), tops, |tops|);
    MulZero(R, K.c0);
    MulZero(R, K.c1);
    AddZero(R, R.zero);
    MulZero(R, Power(R, delta, C.maxDeg));
  }

  /** Prover and verifier run side by side on satisfied constraints: the two checks are equal. */
  method ProveAndVerify<E(!new)>(C: Setting<E>, K: Challenge<E>, count: nat, wit: seq<bool>, macs: seq<E>, q: seq<E>, delta: E,
                                 witnessBits: nat, cs: seq<ExtExpr<E>>)
    returns (proof: seq<E>, check: E, recomputed: E)
    requires ValidSetting(C) && Correlated(C.F, wit, macs, q, delta) && Satisfied(C, wit, cs)
    requires count >= 1 && |cs| >= 1 && C.F.n % 8 == 0 && witnessBits % 8 == 0
    requires witnessBits + (C.maxDeg - 1) * C.F.n <= |wit|
    ensures proof == ProofOf(C, K, wit, macs, witnessBits, ProverInputs(C, wit, macs, cs))
    ensures check == recomputed
  {
    hide PolyFieldLaws;
    hide CheckOf;
    hide ProofOf;
    hide VerifierCheckOf;
    ghost var inputs;
    proof, check, inputs := RunProver(C, K, count, wit, macs, witnessBits, cs);
    recomputed := RunVerifier(C, K, count, q, delta, witnessBits, cs, proof);
    Completeness(C, K, wit, macs, q, delta, witnessBits, cs);
  }

  method RunProver<E(!new)>(C: Setting<E>, K: Challenge<E>, count: nat, wit: seq<bool>, macs: seq<E>, witnessBits: nat, cs: seq<ExtExpr<E>>)
    returns (proof: seq<E>, check: E, ghost inputs: seq<seq<E>>)
    requires ValidSetting(C) && |macs| == |wit| && Satisfied(C, wit, cs) && count >= 1 && |cs| >= 1
    requires C.F.n % 8 == 0 && witnessBits % 8 == 0 && witnessBits + (C.maxDeg - 1) * C.F.n <= |wit|
    ensures inputs == ProverInputs(C, wit, macs, cs)
    ensures proof == ProofOf(C, K, wit, macs, witnessBits, inputs) && check == CheckOf(C, K, wit, macs, witnessBits, inputs)
  {
    hide PolyFieldLaws;
    hide ProverState.Fed;
    hide ShiftLeft;
    hide MaskMacs;
    hide MaskValues;
    hide ProveExt;
    hide PlainExt;
    inputs := ProverInputs(C, wit, macs, cs);
    var state := new ProverState(C, K, count, |cs|, wit, macs);
    for k := 0 to |cs|
      invariant state.Fed(K, count, |cs|, inputs[..k])
    {
      ProverInput(C, wit, macs, cs[k]);
      state.AddConstraint(K, count, |cs|, inputs[..k], ProveExt(C, wit, macs, cs[k]));
      assert inputs[..k] + [inputs[k]] == inputs[..k + 1];
    }
    assert inputs[..|cs|] == inputs;
    proof, check := state.Prove(K, count, inputs, witnessBits);
  }

  lemma ProverInput<E(!new)>(C: Setting<E>, wit: seq<bool>, macs: seq<E>, e: ExtExpr<E>)
    requires ValidSetting(C) && |macs| == |wit| && ExtTyped(e, C.maxDeg, |wit|) && PlainExt(C, wit, e) == C.F.ring.zero
    ensures ProveExt(C, wit, macs, e).mac[ExtDeg(e)] == C.F.ring.zero
    ensures ProveExt(C, wit, macs, Lifted(C, e)).mac == ShiftLeft(C.F.ring, ProveExt(C, wit, macs, e).mac, C.maxDeg - ExtDeg(e))
  {
    hide PolyFieldLaws;
    hide PlainExt;
    TopIsPlain(C, wit, macs, e);
    LiftedProves(C, wit, macs, e);
    hide ProveExt;
    hide ShiftLeft;
  }

  lemma LiftedProves<E>(C: Setting<E>, wit: seq<bool>, macs: seq<E>, e: ExtExpr<E>)
    requires |C.g| == 7 && |macs| >= |wit| && ExtTyped(e, C.maxDeg, |wit|)
    ensures ProveExt(C, wit, macs, Lifted(C, e)).mac == ShiftLeft(C.F.ring, ProveExt(C, wit, macs, e).mac, C.maxDeg - ExtDeg(e))
  {
    if ExtDeg(e) < C.maxDeg {
      LiftExtProves(C, wit, macs, e, C.maxDeg);
      hide ProveExt;
      hide ShiftLeft;
    } else {
      hide ProveExt;
      NoShift(C.F.ring, ProveExt(C, wit, macs, e).mac);
    }
  }

  lemma NoShift<T>(R: Ring<T>, c: seq<T>)
    ensures ShiftLeft(R, c, 0) == c
  {
  }

  /** The top coefficient is the plain value, whatever the MACs are. */
  lemma TopIsPlain<E(!new)>(C: Setting<E>, wit: seq<bool>, macs: seq<E>, e: ExtExpr<E>)
    requires ValidSetting(C) && |macs| == |wit| && ExtTyped(e, C.maxDeg, |wit|)
    ensures ProveExt(C, wit, macs, e).mac[ExtDeg(e)] == PlainExt(C, wit, e)
  {
    hide PolyFieldLaws;
    hide ProveExt;
    hide PlainExt;
    hide VerifyExt;
    hide EvalAt;
    var delta := C.F.ring.zero;
    var q := seq(|wit|, i requires 0 <= i < |wit| => C.F.Add(macs[i], C.F.Mul(C.F.FromBit(wit[i]), delta)));
    ExtHomomorphism(C, wit, macs, q, delta, e);
    assert ExtAgrees(C, wit, macs, q, delta, e);
  }

  method RunVerifier<E(!new)>(C: Setting<E>, K: Challenge<E>, count: nat, q: seq<E>, delta: E, witnessBits: nat, cs: seq<ExtExpr<E>>, proof: seq<E>)
    returns (check: E)
    requires ValidSetting(C) && (forall k | 0 <= k < |cs| :: ExtTyped(cs[k], C.maxDeg, |q|)) && count >= 1 && |cs| >= 1
    requires C.F.n % 8 == 0 && witnessBits + (C.maxDeg - 1) * C.F.n <= |q| && |proof| == C.maxDeg - 1
    ensures check == VerifierCheckOf(C, K, q, witnessBits, delta, VerifierInputs(C, |q|, delta, q, cs), proof)
  {
    hide PolyFieldLaws;
    hide MaskMacs;
    hide VerifierMask;
    hide CombinedHash;
    hide VerifyExt;
    hide HasherFed;
    hide KeyPowers;
    ghost var values := VerifierInputs(C, |q|, delta, q, cs);
    var state := new VerifierState(C, K, count, |cs|, delta, q);
    for k := 0 to |cs|
      invariant state.Fed(K, count, |cs|, delta, values[..k])
    {
      VerifierInput(C, |q|, delta, q, cs[k]);
      state.AddConstraint(K, count, |cs|, delta, values[..k], VerifyExt(C, |q|, state.deltaPowers, q, cs[k]), ExtDeg(cs[k]));
      assert values[..k] + [values[k]] == values[..k + 1];
    }
    assert values[..|cs|] == values;
    check := state.Verify(K, count, delta, values, witnessBits, proof);
  }

  lemma VerifierInput<E(!new)>(C: Setting<E>, bits: nat, delta: E, q: seq<E>, e: ExtExpr<E>)
    requires ValidSetting(C) && |q| == bits && ExtTyped(e, C.maxDeg, bits)
    ensures var powers := DeltaPowers(C.F.ring, delta, C.maxDeg);
            VerifyExt(C, bits, powers, q, Lifted(C, e))
            == if ExtDeg(e) < C.maxDeg then C.F.Mul(VerifyExt(C, bits, powers, q, e), powers[C.maxDeg - ExtDeg(e) - 1])
               else VerifyExt(C, bits, powers, q, e)
  {
    if ExtDeg(e) < C.maxDeg {
      LiftExtVerifies(C, bits, DeltaPowers(C.F.ring, delta, C.maxDeg), q, e, C.maxDeg);
    }
  }
}
