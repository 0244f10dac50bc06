/**
 * Authenticated values: the prover carries a polynomial whose top coefficient is the value,
 * the verifier one evaluation of it. Every way of building values keeps the two in step.
 */
module QuickSilver {
  import opened Algebra
  import opened BitPolynomials
  import opened Poly2d

  // ---- the prover's values ----

  /** A field element of degree |mac| - 1; the value is the top coefficient. */
  datatype ProverExt<E> = ProverExt(mac: seq<E>)

  /** A bit of degree |mac|; the value is kept apart, as the coefficient above the others. */
  datatype ProverBit<E> = ProverBit(mac: seq<E>, value: bool)

  /** All coefficients of a bit's polynomial. */
  function Full<E>(F: PolyField<E>, a: ProverBit<E>): (c: seq<E>)
    ensures |c| == |a.mac| + 1
  {
    a.mac + [F.FromBit(a.value)]
  }

  function MulBitsProver<E>(F: PolyField<E>, a: ProverBit<E>, b: ProverBit<E>): (r: ProverBit<E>)
    ensures |r.mac| == |a.mac| + |b.mac|
  {
    var R, da, db := F.ring, |a.mac|, |b.mac|;
    var mac := Extend(R, Product(R, a.mac, b.mac), da + db);
    var cross := VecAdd(R, ShiftLeft(R, Scale(R, F.FromBit(b.value), a.mac), db),
                           ShiftLeft(R, Scale(R, F.FromBit(a.value), b.mac), da));
    ProverBit(VecAdd(R, mac, cross), a.value && b.value)
  }

  function MulMixedProver<E>(F: PolyField<E>, a: ProverExt<E>, b: ProverBit<E>): (r: ProverExt<E>)
    requires |a.mac| >= 1
    ensures |r.mac| == |a.mac| + |b.mac|
  {
    var R, db := F.ring, |b.mac|;
    var mac := Extend(R, Product(R, a.mac, b.mac), |a.mac| + db);
    ProverExt(VecAdd(R, mac, ShiftLeft(R, Scale(R, F.FromBit(b.value), a.mac), db)))
  }

  /** m[0] + m[1] g[0] + ... + m[i - 1] g[i - 2]: elements combined along the GF(2^8) subfield. */
  function Sum8<E>(R: Ring<E>, g: seq<E>, m: seq<E>, i: nat): E
    requires i <= |m| <= |g| + 1
  {
    if i == 0 then R.zero else if i == 1 then m[0]
    else R.Add(Sum8(R, g, m, i - 1), R.Mul(m[i - 1], g[i - 2]))
  }

  /** The first element plus the inner product of the others with the basis. */
  lemma {:induction false} Sum8IsDot<E(!new)>(R: Ring<E>, g: seq<E>, m: seq<E>, i: nat)
    requires Char2Ring(R) && i + 1 <= |m| <= |g| + 1
    ensures Sum8(R, g, m, i + 1) == R.Add(m[0], Dot(R, m[1..], g, i))
  {
    if i == 0 {
      AddZero(R, m[0]);
    } else {
      Sum8IsDot(R, g, m, i - 1);
      AddAssoc(R, m[0], Dot(R, m[1..], g, i - 1), R.Mul(m[i], g[i - 1]));
    }
  }

  ghost predicate EightBits<E>(bits: seq<ProverBit<E>>, deg: nat) {
    |bits| == 8 && forall j | 0 <= j < 8 :: |bits[j].mac| == deg
  }

  /** Coefficient i of each of the eight bits. */
  function Column<E>(bits: seq<ProverBit<E>>, deg: nat, i: nat): (m: seq<E>)
    requires EightBits(bits, deg) && i < deg
    ensures |m| == 8
  {
    seq(8, j requires 0 <= j < 8 => bits[j].mac[i])
  }

  function BitValues<E>(F: PolyField<E>, bits: seq<bool>): (m: seq<E>)
    ensures |m| == |bits|
  {
    seq(|bits|, j requires 0 <= j < |bits| => F.FromBit(bits[j]))
  }

  function ValuesOf<E>(bits: seq<ProverBit<E>>): (v: seq<bool>)
    ensures |v| == |bits|
  {
    seq(|bits|, j requires 0 <= j < |bits| => bits[j].value)
  }

  function Combine8Prover<E>(F: PolyField<E>, g: seq<E>, bits: seq<ProverBit<E>>, deg: nat): (r: ProverExt<E>)
    requires EightBits(bits, deg) && |g| == 7
    ensures |r.mac| == deg + 1
  {
    ProverExt(seq(deg, i requires 0 <= i < deg => Sum8(F.ring, g, Column(bits, deg, i), 8))
              + [Sum8(F.ring, g, BitValues(F, ValuesOf(bits)), 8)])
  }

  /** Coefficient by coefficient, gathering the eight bits each time. */
  method CombineEight<E(!new)>(F: PolyField<E>, g: seq<E>, bits: seq<ProverBit<E>>, deg: nat) returns (out: ProverExt<E>)
    requires PolyFieldLaws(F) && EightBits(bits, deg) && |g| == 7
    ensures out == Combine8Prover(F, g, bits, deg)
  {
    hide PolyFieldLaws;
    hide Sum8;
    var coeffs: seq<E> := [];
    for i := 0 to deg
      invariant |coeffs| == i && forall k | 0 <= k < i :: coeffs[k] == Sum8(F.ring, g, Column(bits, deg, k), 8)
    {
      var macs: seq<E> := [];
      for j := 0 to 8
        invariant |macs| == j && forall k | 0 <= k < j :: macs[k] == bits[k].mac[i]
      {
        macs := macs + [bits[j].mac[i]];
      }
      assert macs == Column(bits, deg, i);
      var c := From8Self(F, g, macs);
      coeffs := coeffs + [c];
    }
    var values: seq<E> := [];
    for j := 0 to 8
      invariant |values| == j && forall k | 0 <= k < j :: values[k] == F.FromBit(bits[k].value)
    {
      values := values + [F.FromBit(bits[j].value)];
    }
    assert values == BitValues(F, ValuesOf(bits));
    var top := From8Self(F, g, values);
    out := ProverExt(coeffs + [top]);
  }

  /** Adds up wide products and reduces once. */
  method From8Self<E(!new)>(F: PolyField<E>, g: seq<E>, m: seq<E>) returns (r: E)
    requires PolyFieldLaws(F) && |m| == 8 && |g| == 7
    ensures r == Sum8(F.ring, g, m, 8)
  {
    hide PolyFieldLaws;
    hide Clmul;
    FieldIsRing(F);
    ReduceElement(F, m[0]);
    var out := Widen(F.Bits(m[0]), 2 * F.n);
    for i := 1 to 8
      invariant |out| == 2 * F.n && F.Reduce(out) == Sum8(F.ring, g, m, i)
    {
      ReduceElement(F, m[i]);
      ReduceElement(F, g[i - 1]);
      ReduceProduct(F, m[i], g[i - 1]);
      ReducePlus(F, out, Clmul(F.Bits(m[i]), F.Bits(g[i - 1])));
      out := Plus(out, Clmul(F.Bits(m[i]), F.Bits(g[i - 1])));
    }
    r := F.Reduce(out);
  }

  // ---- expressions ----

  /** Everything that can be built of bits, with the degree where it is chosen freely. */
  datatype BitExpr =
    | Witness(index: nat)
    | ConstBit(b: bool, deg: nat)
    | AddBits(l: BitExpr, r: BitExpr)
    | MulBits(l: BitExpr, r: BitExpr)
    | LiftBit(e: BitExpr, deg: nat)

  datatype ExtExpr<!E> =
    | OfBit(bit: BitExpr)
    | ConstExt(c: E, deg: nat)
    | AddExt(l: ExtExpr<E>, r: ExtExpr<E>)
    | MulExt(l: ExtExpr<E>, r: ExtExpr<E>)
    | MulMixed(l: ExtExpr<E>, bit: BitExpr)
    | LiftExt(e: ExtExpr<E>, deg: nat)
    | Combine8(bits: seq<BitExpr>)

  function BitDeg(e: BitExpr): nat {
    match e
    case Witness(_) => 1
    case ConstBit(_, deg) => deg
    case AddBits(l, _) => BitDeg(l)
    case MulBits(l, r) => BitDeg(l) + BitDeg(r)
    case LiftBit(_, deg) => deg
  }

  function ExtDeg<E>(e: ExtExpr<E>): nat {
    match e
    case OfBit(bit) => BitDeg(bit)
    case ConstExt(_, deg) => deg
    case AddExt(l, _) => ExtDeg(l)
    case MulExt(l, r) => ExtDeg(l) + ExtDeg(r)
    case MulMixed(l, bit) => ExtDeg(l) + BitDeg(bit)
    case LiftExt(_, deg) => deg
    case Combine8(bits) => if |bits| > 0 then BitDeg(bits[0]) else 0
  }

  /** The typing rules: equal degrees are added, lifts go up, and no degree exceeds the maximum. */
  predicate BitTyped(e: BitExpr, maxDeg: nat, witnessBits: nat) {
    && BitDeg(e) <= maxDeg
    && match e
       case Witness(i) => i < witnessBits
       case ConstBit(_, _) => true
       case AddBits(l, r) => BitTyped(l, maxDeg, witnessBits) && BitTyped(r, maxDeg, witnessBits) && BitDeg(l) == BitDeg(r)
       case MulBits(l, r) => BitTyped(l, maxDeg, witnessBits) && BitTyped(r, maxDeg, witnessBits)
       case LiftBit(a, deg) => BitTyped(a, maxDeg, witnessBits) && deg > BitDeg(a)
  }

  predicate ExtTyped<E>(e: ExtExpr<E>, maxDeg: nat, witnessBits: nat) {
    && ExtDeg(e) <= maxDeg
    && match e
       case OfBit(bit) => BitTyped(bit, maxDeg, witnessBits)
       case ConstExt(_, _) => true
       case AddExt(l, r) => ExtTyped(l, maxDeg, witnessBits) && ExtTyped(r, maxDeg, witnessBits) && ExtDeg(l) == ExtDeg(r)
       case MulExt(l, r) => ExtTyped(l, maxDeg, witnessBits) && ExtTyped(r, maxDeg, witnessBits)
       case MulMixed(l, bit) => ExtTyped(l, maxDeg, witnessBits) && BitTyped(bit, maxDeg, witnessBits)
       case LiftExt(a, deg) => ExtTyped(a, maxDeg, witnessBits) && deg > ExtDeg(a)
       case Combine8(bits) =>
         |bits| == 8 && forall j | 0 <= j < 8 :: BitTyped(bits[j], maxDeg, witnessBits) && BitDeg(bits[j]) == BitDeg(bits[0])
  }

  // ---- the plain meaning ----

  /** The field, the embedding of GF(2^8) it is given, and the maximal degree. */
  datatype Setting<!E> = Setting(F: PolyField<E>, g: seq<E>, maxDeg: nat)

  ghost predicate ValidSetting<E(!new)>(C: Setting<E>) {
    PolyFieldLaws(C.F) && |C.g| == 7 && C.maxDeg >= 1
  }

  function PlainBit(wit: seq<bool>, maxDeg: nat, e: BitExpr): bool
    requires BitTyped(e, maxDeg, |wit|)
  {
    match e
    case Witness(i) => wit[i]
    case ConstBit(b, _) => b
    case AddBits(l, r) => PlainBit(wit, maxDeg, l) != PlainBit(wit, maxDeg, r)
    case MulBits(l, r) => PlainBit(wit, maxDeg, l) && PlainBit(wit, maxDeg, r)
    case LiftBit(a, _) => PlainBit(wit, maxDeg, a)
  }

  function PlainExt<E>(C: Setting<E>, wit: seq<bool>, e: ExtExpr<E>): E
    requires |C.g| == 7 && ExtTyped(e, C.maxDeg, |wit|)
  {
    match e
    case OfBit(bit) => C.F.FromBit(PlainBit(wit, C.maxDeg, bit))
    case ConstExt(c, _) => c
    case AddExt(l, r) => C.F.Add(PlainExt(C, wit, l), PlainExt(C, wit, r))
    case MulExt(l, r) => C.F.Mul(PlainExt(C, wit, l), PlainExt(C, wit, r))
    case MulMixed(l, bit) => C.F.Mul(PlainExt(C, wit, l), C.F.FromBit(PlainBit(wit, C.maxDeg, bit)))
    case LiftExt(a, _) => PlainExt(C, wit, a)
    case Combine8(bits) =>
      Sum8(C.F.ring, C.g, BitValues(C.F, seq(8, j requires 0 <= j < 8 => PlainBit(wit, C.maxDeg, bits[j]))), 8)
  }

  // ---- what the prover computes ----

  function ProveBit<E>(C: Setting<E>, wit: seq<bool>, macs: seq<E>, e: BitExpr): (r: ProverBit<E>)
    requires BitTyped(e, C.maxDeg, |wit|) && |macs| >= |wit|
    ensures |r.mac| == BitDeg(e)
  {
    match e
    case Witness(i) => ProverBit([macs[i]], wit[i])
    case ConstBit(b, deg) => ProverBit(VecZero(C.F.ring, deg), b)
    case AddBits(l, r) =>
      var (a, b) := (ProveBit(C, wit, macs, l), ProveBit(C, wit, macs, r));
      ProverBit(VecAdd(C.F.ring, a.mac, b.mac), a.value != b.value)
    case MulBits(l, r) => MulBitsProver(C.F, ProveBit(C, wit, macs, l), ProveBit(C, wit, macs, r))
    case LiftBit(a, deg) =>
      var v := ProveBit(C, wit, macs, a);
      ProverBit(ShiftLeft(C.F.ring, v.mac, deg - BitDeg(a)), v.value)
  }

  function ProveExt<E>(C: Setting<E>, wit: seq<bool>, macs: seq<E>, e: ExtExpr<E>): (r: ProverExt<E>)
    requires |C.g| == 7 && ExtTyped(e, C.maxDeg, |wit|) && |macs| >= |wit|
    ensures |r.mac| == ExtDeg(e) + 1
  {
    match e
    case OfBit(bit) => ProverExt(Full(C.F, ProveBit(C, wit, macs, bit)))
    case ConstExt(c, deg) => ProverExt(VecZero(C.F.ring, deg) + [c])
    case AddExt(l, r) => ProverExt(VecAdd(C.F.ring, ProveExt(C, wit, macs, l).mac, ProveExt(C, wit, macs, r).mac))
    case MulExt(l, r) => ProverExt(Product(C.F.ring, ProveExt(C, wit, macs, l).mac, ProveExt(C, wit, macs, r).mac))
    case MulMixed(l, bit) => MulMixedProver(C.F, ProveExt(C, wit, macs, l), ProveBit(C, wit, macs, bit))
    case LiftExt(a, deg) => ProverExt(ShiftLeft(C.F.ring, ProveExt(C, wit, macs, a).mac, deg - ExtDeg(a)))
    case Combine8(bits) =>
      Combine8Prover(C.F, C.g, seq(8, j requires 0 <= j < 8 => ProveBit(C, wit, macs, bits[j])), BitDeg(bits[0]))
  }

  // ---- what the verifier computes ----

  /** delta, delta^2, ..., delta^maxDeg. */
  function DeltaPowers<E>(R: Ring<E>, delta: E, maxDeg: nat): (p: seq<E>)
    ensures |p| == maxDeg
  {
    seq(maxDeg, i requires 0 <= i < maxDeg => Power(R, delta, i + 1))
  }

  function VerifyBit<E>(C: Setting<E>, bits: nat, powers: seq<E>, q: seq<E>, e: BitExpr): E
    requires BitTyped(e, C.maxDeg, bits) && |q| >= bits && |powers| == C.maxDeg
  {
    match e
    case Witness(i) => q[i]
    case ConstBit(b, deg) => if deg > 0 then C.F.Mul(C.F.FromBit(b), powers[deg - 1]) else C.F.FromBit(b)
    case AddBits(l, r) => C.F.Add(VerifyBit(C, bits, powers, q, l), VerifyBit(C, bits, powers, q, r))
    case MulBits(l, r) => C.F.Mul(VerifyBit(C, bits, powers, q, l), VerifyBit(C, bits, powers, q, r))
    case LiftBit(a, deg) => C.F.Mul(VerifyBit(C, bits, powers, q, a), powers[deg - BitDeg(a) - 1])
  }

  function VerifyExt<E>(C: Setting<E>, bits: nat, powers: seq<E>, q: seq<E>, e: ExtExpr<E>): E
    requires |C.g| == 7 && ExtTyped(e, C.maxDeg, bits) && |q| >= bits && |powers| == C.maxDeg
  {
    match e
    case OfBit(bit) => VerifyBit(C, bits, powers, q, bit)
    case ConstExt(c, deg) => if deg > 0 then C.F.Mul(c, powers[deg - 1]) else c
    case AddExt(l, r) => C.F.Add(VerifyExt(C, bits, powers, q, l), VerifyExt(C, bits, powers, q, r))
    case MulExt(l, r) => C.F.Mul(VerifyExt(C, bits, powers, q, l), VerifyExt(C, bits, powers, q, r))
    case MulMixed(l, bit) => C.F.Mul(VerifyExt(C, bits, powers, q, l), VerifyBit(C, bits, powers, q, bit))
    case LiftExt(a, deg) => C.F.Mul(VerifyExt(C, bits, powers, q, a), powers[deg - ExtDeg(a) - 1])
    case Combine8(es) =>
      Sum8(C.F.ring, C.g, seq(8, j requires 0 <= j < 8 => VerifyBit(C, bits, powers, q, es[j])), 8)
  }

  // ---- the homomorphism ----

  /** Every verifier MAC is the prover's MAC plus the bit times delta. */
  ghost predicate Correlated<E>(F: PolyField<E>, wit: seq<bool>, macs: seq<E>, q: seq<E>, delta: E) {
    |macs| == |q| == |wit| && forall i | 0 <= i < |wit| :: q[i] == F.Add(macs[i], F.Mul(F.FromBit(wit[i]), delta))
  }

  lemma EvalFull<E(!new)>(F: PolyField<E>, a: ProverBit<E>, d: E)
    requires Char2Ring(F.ring)
    ensures EvalAt(F.ring, Full(F, a), d) == F.Add(EvalAt(F.ring, a.mac, d), F.Mul(Power(F.ring, d, |a.mac|), F.FromBit(a.value)))
  {
    EvalSnoc(F.ring, a.mac, F.FromBit(a.value), d);
  }

  /** (A + p a)(B + q b) with the cross terms split off. */
  lemma BinomialProduct<T(!new)>(R: Ring<T>, A: T, p: T, a: T, B: T, q: T, b: T)
    requires Char2Ring(R)
    ensures R.Mul(R.Add(A, R.Mul(p, a)), R.Add(B, R.Mul(q, b)))
         == R.Add(R.Add(R.Mul(A, B), R.Add(R.Mul(q, R.Mul(b, A)), R.Mul(p, R.Mul(a, B)))), R.Mul(R.Mul(p, q), R.Mul(a, b)))
  {
    var pa, qb := R.Mul(p, a), R.Mul(q, b);
    Distribute(R, R.Add(A, pa), B, qb);
    Distribute(R, B, A, pa);
    Distribute(R, qb, A, pa);
    // (A B + pa B) + (A qb + pa qb)
    AddAssoc(R, R.Mul(A, B), R.Mul(pa, B), R.Add(R.Mul(A, qb), R.Mul(pa, qb)));
    AddAssoc(R, R.Mul(pa, B), R.Mul(A, qb), R.Mul(pa, qb));
    AddComm(R, R.Mul(pa, B), R.Mul(A, qb));
    AddAssoc(R, R.Mul(A, B), R.Add(R.Mul(A, qb), R.Mul(pa, B)), R.Mul(pa, qb));
    MulComm(R, A, qb);
    MulAssoc(R, q, b, A);
    MulAssoc(R, p, a, B);
    FourProduct(R, p, a, q, b);
  }

  lemma FourProduct<T(!new)>(R: Ring<T>, p: T, a: T, q: T, b: T)
    requires Char2Ring(R)
    ensures R.Mul(R.Mul(p, a), R.Mul(q, b)) == R.Mul(R.Mul(p, q), R.Mul(a, b))
  {
    MulAssoc(R, p, a, R.Mul(q, b));
    MulAssoc(R, a, q, b);
    MulComm(R, a, q);
    MulAssoc(R, q, a, b);
    MulAssoc(R, p, q, R.Mul(a, b));
  }

  lemma FromBitMul<E(!new)>(F: PolyField<E>, a: bool, b: bool)
    requires Char2Ring(F.ring)
    ensures F.FromBit(a && b) == F.Mul(F.FromBit(a), F.FromBit(b))
  {
    MulOne(F.ring, F.ring.one);
    MulOne(F.ring, F.ring.zero);
    MulZero(F.ring, F.ring.zero);
  }

  /** The value of a shifted multiple. */
  lemma EvalShiftedScale<T(!new)>(R: Ring<T>, k: T, a: seq<T>, shift: nat, d: T)
    requires Char2Ring(R)
    ensures EvalAt(R, ShiftLeft(R, Scale(R, k, a), shift), d) == R.Mul(Power(R, d, shift), R.Mul(k, EvalAt(R, a, d)))
  {
    EvalShift(R, Scale(R, k, a), shift, d);
    EvalScale(R, k, a, d);
  }

  lemma MulBitsValue<E(!new)>(F: PolyField<E>, a: ProverBit<E>, b: ProverBit<E>, d: E)
    requires Char2Ring(F.ring)
    ensures EvalAt(F.ring, Full(F, MulBitsProver(F, a, b)), d)
         == F.Mul(EvalAt(F.ring, Full(F, a), d), EvalAt(F.ring, Full(F, b), d))
  {
    hide Product;
    hide EvalAt;
    var R, da, db, va, vb := F.ring, |a.mac|, |b.mac|, F.FromBit(a.value), F.FromBit(b.value);
    var left, right := ShiftLeft(R, Scale(R, vb, a.mac), db), ShiftLeft(R, Scale(R, va, b.mac), da);
    var mac := Extend(R, Product(R, a.mac, b.mac), da + db);
    EvalFull(F, MulBitsProver(F, a, b), d);
    EvalAdd(R, mac, VecAdd(R, left, right), d);
    EvalAdd(R, left, right, d);
    EvalExtend(R, Product(R, a.mac, b.mac), da + db, d);
    EvalProduct(R, a.mac, b.mac, d);
    EvalShiftedScale(R, vb, a.mac, db, d);
    EvalShiftedScale(R, va, b.mac, da, d);
    FromBitMul(F, a.value, b.value);
    PowerAdd(R, d, da, db);
    EvalFull(F, a, d);
    EvalFull(F, b, d);
    BinomialProduct(R, EvalAt(R, a.mac, d), Power(R, d, da), va, EvalAt(R, b.mac, d), Power(R, d, db), vb);
  }

  lemma MulBitsProverValue<E>(F: PolyField<E>, a: ProverBit<E>, b: ProverBit<E>)
    ensures MulBitsProver(F, a, b).value == (a.value && b.value)
  {
  }

  lemma MulMixedValue<E(!new)>(F: PolyField<E>, a: ProverExt<E>, b: ProverBit<E>, d: E)
    requires Char2Ring(F.ring) && |a.mac| >= 1
    ensures EvalAt(F.ring, MulMixedProver(F, a, b).mac, d)
         == F.Mul(EvalAt(F.ring, a.mac, d), EvalAt(F.ring, Full(F, b), d))
  {
    hide Product;
    hide EvalAt;
    var R, db, vb := F.ring, |b.mac|, F.FromBit(b.value);
    var ea, eb, q := EvalAt(R, a.mac, d), EvalAt(R, b.mac, d), Power(R, d, |b.mac|);
    EvalAdd(R, Extend(R, Product(R, a.mac, b.mac), |a.mac| + db), ShiftLeft(R, Scale(R, vb, a.mac), db), d);
    EvalExtend(R, Product(R, a.mac, b.mac), |a.mac| + db, d);
    EvalProduct(R, a.mac, b.mac, d);
    EvalShiftedScale(R, vb, a.mac, db, d);
    EvalFull(F, b, d);
    Distribute(R, ea, eb, R.Mul(q, vb));
    MulComm(R, ea, R.Mul(q, vb));
    MulAssoc(R, q, vb, ea);
  }

  /** The product's top coefficient is the product of the top coefficients. */
  lemma {:induction false} RowsTop<T(!new)>(R: Ring<T>, a: seq<T>, b: seq<T>, i: nat)
    requires Char2Ring(R) && i <= |a| && |a| >= 1 && |b| >= 1
    ensures Rows(R, a, b, i)[|a| + |b| - 2] == if i == |a| then R.Mul(a[|a| - 1], b[|b| - 1]) else R.zero
  {
    hide Row;
    if i > 0 {
      RowsTop(R, a, b, i - 1);
      RowEntry(R, a, b, i - 1, |a| + |b| - 2);
      AddZero(R, R.Mul(a[|a| - 1], b[|b| - 1]));
    }
  }

  lemma MulMixedTop<E(!new)>(F: PolyField<E>, a: ProverExt<E>, b: ProverBit<E>)
    requires Char2Ring(F.ring) && |a.mac| >= 1
    ensures MulMixedProver(F, a, b).mac[|a.mac| + |b.mac| - 1] == F.Mul(a.mac[|a.mac| - 1], F.FromBit(b.value))
  {
    hide Product;
    var top := F.Mul(F.FromBit(b.value), a.mac[|a.mac| - 1]);
    AddZero(F.ring, top);
    MulComm(F.ring, F.FromBit(b.value), a.mac[|a.mac| - 1]);
    assert Extend(F.ring, Product(F.ring, a.mac, b.mac), |a.mac| + |b.mac|)[|a.mac| + |b.mac| - 1] == F.ring.zero;
  }

  // ---- eight bits at once ----

  /** The combination of eight polynomials, coefficient by coefficient. */
  function VecSum8<E>(R: Ring<E>, g: seq<E>, m: seq<seq<E>>, i: nat, size: nat): (r: seq<E>)
    requires i <= |m| <= |g| + 1 && forall j | 0 <= j < |m| :: |m[j]| == size
    ensures |r| == size
  {
    if i == 0 then VecZero(R, size) else if i == 1 then m[0]
    else VecAdd(R, VecSum8(R, g, m, i - 1, size), Scale(R, g[i - 2], m[i - 1]))
  }

  lemma {:induction false} EvalVecSum8<E(!new)>(R: Ring<E>, g: seq<E>, m: seq<seq<E>>, v: seq<E>, i: nat, size: nat, d: E)
    requires Char2Ring(R) && i <= |m| <= |g| + 1 && forall j | 0 <= j < |m| :: |m[j]| == size
    requires |v| == |m| && forall j | 0 <= j < |m| :: v[j] == EvalAt(R, m[j], d)
    ensures EvalAt(R, VecSum8(R, g, m, i, size), d) == Sum8(R, g, v, i)
  {
    hide EvalAt;
    if i == 0 {
      EvalZero(R, size, d);
    } else if i > 1 {
      EvalVecSum8(R, g, m, v, i - 1, size, d);
      EvalAdd(R, VecSum8(R, g, m, i - 1, size), Scale(R, g[i - 2], m[i - 1]), d);
      EvalScale(R, g[i - 2], m[i - 1], d);
      MulComm(R, g[i - 2], v[i - 1]);
    }
  }

  lemma {:induction false} VecSum8Entry<E(!new)>(R: Ring<E>, g: seq<E>, m: seq<seq<E>>, v: seq<E>, i: nat, size: nat, k: nat)
    requires Char2Ring(R) && i <= |m| <= |g| + 1 && k < size && forall j | 0 <= j < |m| :: |m[j]| == size
    requires |v| == |m| && forall j | 0 <= j < |m| :: v[j] == m[j][k]
    ensures VecSum8(R, g, m, i, size)[k] == Sum8(R, g, v, i)
  {
    if i > 1 {
      VecSum8Entry(R, g, m, v, i - 1, size, k);
      MulComm(R, g[i - 2], v[i - 1]);
    }
  }

  lemma Combine8Value<E(!new)>(F: PolyField<E>, g: seq<E>, bits: seq<ProverBit<E>>, deg: nat, v: seq<E>, d: E)
    requires Char2Ring(F.ring) && EightBits(bits, deg) && |g| == 7
    requires |v| == 8 && forall j | 0 <= j < 8 :: v[j] == EvalAt(F.ring, Full(F, bits[j]), d)
    ensures EvalAt(F.ring, Combine8Prover(F, g, bits, deg).mac, d) == Sum8(F.ring, g, v, 8)
  {
    hide EvalAt;
    hide Sum8;
    var m := seq(8, j requires 0 <= j < 8 => Full(F, bits[j]));
    var mac := Combine8Prover(F, g, bits, deg).mac;
    forall k | 0 <= k < |mac| ensures mac[k] == VecSum8(F.ring, g, m, 8, deg + 1)[k] {
      Combine8Entry(F, g, bits, deg, m, k);
    }
    assert mac == VecSum8(F.ring, g, m, 8, deg + 1);
    hide VecSum8;
    hide Combine8Prover;
    EvalVecSum8(F.ring, g, m, v, 8, deg + 1, d);
  }

  lemma Combine8Entry<E(!new)>(F: PolyField<E>, g: seq<E>, bits: seq<ProverBit<E>>, deg: nat, m: seq<seq<E>>, k: nat)
    requires Char2Ring(F.ring) && EightBits(bits, deg) && |g| == 7 && k <= deg
    requires |m| == 8 && forall j | 0 <= j < 8 :: |m[j]| == deg + 1 && m[j] == Full(F, bits[j])
    ensures Combine8Prover(F, g, bits, deg).mac[k] == VecSum8(F.ring, g, m, 8, deg + 1)[k]
  {
    hide Sum8;
    hide VecSum8;
    if k < deg {
      VecSum8Entry(F.ring, g, m, Column(bits, deg, k), 8, deg + 1, k);
    } else {
      VecSum8Entry(F.ring, g, m, BitValues(F, ValuesOf(bits)), 8, deg + 1, k);
    }
  }

  /** A constant of some degree, as both sides see it. */
  lemma ConstValue<T(!new)>(R: Ring<T>, c: T, deg: nat, delta: T, maxDeg: nat)
    requires Char2Ring(R) && deg <= maxDeg
    ensures EvalAt(R, VecZero(R, deg) + [c], delta) == if deg > 0 then R.Mul(c, DeltaPowers(R, delta, maxDeg)[deg - 1]) else c
  {
    hide EvalAt;
    EvalSnoc(R, VecZero(R, deg), c, delta);
    EvalZero(R, deg, delta);
    AddZero(R, R.Mul(Power(R, delta, deg), c));
    MulComm(R, Power(R, delta, deg), c);
    MulOne(R, c);
  }

  /** A lift shifts the prover's polynomial and multiplies the verifier's value. */
  lemma LiftValue<T(!new)>(R: Ring<T>, v: seq<T>, extra: nat, delta: T, maxDeg: nat)
    requires Char2Ring(R) && 1 <= extra <= maxDeg
    ensures EvalAt(R, ShiftLeft(R, v, extra), delta) == R.Mul(EvalAt(R, v, delta), DeltaPowers(R, delta, maxDeg)[extra - 1])
  {
    hide EvalAt;
    EvalShift(R, v, extra, delta);
    MulComm(R, Power(R, delta, extra), EvalAt(R, v, delta));
  }

  /** The verifier's MAC is the prover's polynomial at delta, and the value is the plain one. */
  ghost predicate BitAgrees<E>(C: Setting<E>, wit: seq<bool>, macs: seq<E>, q: seq<E>, delta: E, e: BitExpr)
    requires BitTyped(e, C.maxDeg, |wit|) && |macs| == |q| == |wit|
  {
    && EvalAt(C.F.ring, Full(C.F, ProveBit(C, wit, macs, e)), delta)
       == VerifyBit(C, |wit|, DeltaPowers(C.F.ring, delta, C.maxDeg), q, e)
    && ProveBit(C, wit, macs, e).value == PlainBit(wit, C.maxDeg, e)
  }

  /** The same for field elements, whose value is the top coefficient. */
  ghost predicate ExtAgrees<E>(C: Setting<E>, wit: seq<bool>, macs: seq<E>, q: seq<E>, delta: E, e: ExtExpr<E>)
    requires |C.g| == 7 && ExtTyped(e, C.maxDeg, |wit|) && |macs| == |q| == |wit|
  {
    && EvalAt(C.F.ring, ProveExt(C, wit, macs, e).mac, delta)
       == VerifyExt(C, |wit|, DeltaPowers(C.F.ring, delta, C.maxDeg), q, e)
    && ProveExt(C, wit, macs, e).mac[ExtDeg(e)] == PlainExt(C, wit, e)
  }

  // one step of each evaluator

  lemma AddBitsSteps<E(!new)>(C: Setting<E>, wit: seq<bool>, macs: seq<E>, q: seq<E>, powers: seq<E>, l: BitExpr, r: BitExpr)
    requires |C.g| == 7 && BitTyped(AddBits(l, r), C.maxDeg, |wit|)
    requires |macs| == |q| == |wit| && |powers| == C.maxDeg
    ensures ProveBit(C, wit, macs, AddBits(l, r)) == ProverBit(VecAdd(C.F.ring, ProveBit(C, wit, macs, l).mac, ProveBit(C, wit, macs, r).mac), ProveBit(C, wit, macs, l).value != ProveBit(C, wit, macs, r).value)
    ensures VerifyBit(C, |wit|, powers, q, AddBits(l, r)) == C.F.Add(VerifyBit(C, |wit|, powers, q, l), VerifyBit(C, |wit|, powers, q, r))
    ensures PlainBit(wit, C.maxDeg, AddBits(l, r)) == (PlainBit(wit, C.maxDeg, l) != PlainBit(wit, C.maxDeg, r))
  {
  }

  lemma MulBitsSteps<E(!new)>(C: Setting<E>, wit: seq<bool>, macs: seq<E>, q: seq<E>, powers: seq<E>, l: BitExpr, r: BitExpr)
    requires |C.g| == 7 && BitTyped(MulBits(l, r), C.maxDeg, |wit|)
    requires |macs| == |q| == |wit| && |powers| == C.maxDeg
    ensures ProveBit(C, wit, macs, MulBits(l, r)) == MulBitsProver(C.F, ProveBit(C, wit, macs, l), ProveBit(C, wit, macs, r))
    ensures VerifyBit(C, |wit|, powers, q, MulBits(l, r)) == C.F.Mul(VerifyBit(C, |wit|, powers, q, l), VerifyBit(C, |wit|, powers, q, r))
    ensures PlainBit(wit, C.maxDeg, MulBits(l, r)) == (PlainBit(wit, C.maxDeg, l) && PlainBit(wit, C.maxDeg, r))
  {
  }

  lemma LiftBitSteps<E(!new)>(C: Setting<E>, wit: seq<bool>, macs: seq<E>, q: seq<E>, powers: seq<E>, a: BitExpr, deg: nat)
    requires |C.g| == 7 && BitTyped(LiftBit(a, deg), C.maxDeg, |wit|)
    requires |macs| == |q| == |wit| && |powers| == C.maxDeg
    ensures ProveBit(C, wit, macs, LiftBit(a, deg)) == ProverBit(ShiftLeft(C.F.ring, ProveBit(C, wit, macs, a).mac, deg - BitDeg(a)), ProveBit(C, wit, macs, a).value)
    ensures VerifyBit(C, |wit|, powers, q, LiftBit(a, deg)) == C.F.Mul(VerifyBit(C, |wit|, powers, q, a), powers[deg - BitDeg(a) - 1])
    ensures PlainBit(wit, C.maxDeg, LiftBit(a, deg)) == PlainBit(wit, C.maxDeg, a)
  {
    hide ShiftLeft;
    hide PolyField.FromBit;
    hide Product;
    hide MulMixedProver;
    hide MulBitsProver;
    hide Combine8Prover;
    hide Sum8;
    hide Full;
  }

  lemma AddExtSteps<E(!new)>(C: Setting<E>, wit: seq<bool>, macs: seq<E>, q: seq<E>, powers: seq<E>, l: ExtExpr<E>, r: ExtExpr<E>)
    requires |C.g| == 7 && ExtTyped(AddExt(l, r), C.maxDeg, |wit|)
    requires |macs| == |q| == |wit| && |powers| == C.maxDeg
    ensures ProveExt(C, wit, macs, AddExt(l, r)) == ProverExt(VecAdd(C.F.ring, ProveExt(C, wit, macs, l).mac, ProveExt(C, wit, macs, r).mac))
    ensures VerifyExt(C, |wit|, powers, q, AddExt(l, r)) == C.F.Add(VerifyExt(C, |wit|, powers, q, l), VerifyExt(C, |wit|, powers, q, r))
    ensures PlainExt(C, wit, AddExt(l, r)) == C.F.Add(PlainExt(C, wit, l), PlainExt(C, wit, r))
  {
  }

  lemma MulExtSteps<E(!new)>(C: Setting<E>, wit: seq<bool>, macs: seq<E>, q: seq<E>, powers: seq<E>, l: ExtExpr<E>, r: ExtExpr<E>)
    requires |C.g| == 7 && ExtTyped(MulExt(l, r), C.maxDeg, |wit|)
    requires |macs| == |q| == |wit| && |powers| == C.maxDeg
    ensures ProveExt(C, wit, macs, MulExt(l, r)) == ProverExt(Product(C.F.ring, ProveExt(C, wit, macs, l).mac, ProveExt(C, wit, macs, r).mac))
    ensures VerifyExt(C, |wit|, powers, q, MulExt(l, r)) == C.F.Mul(VerifyExt(C, |wit|, powers, q, l), VerifyExt(C, |wit|, powers, q, r))
    ensures PlainExt(C, wit, MulExt(l, r)) == C.F.Mul(PlainExt(C, wit, l), PlainExt(C, wit, r))
  {
  }

  lemma MulMixedSteps<E(!new)>(C: Setting<E>, wit: seq<bool>, macs: seq<E>, q: seq<E>, powers: seq<E>, l: ExtExpr<E>, bit: BitExpr)
    requires |C.g| == 7 && ExtTyped(MulMixed(l, bit), C.maxDeg, |wit|)
    requires |macs| == |q| == |wit| && |powers| == C.maxDeg
    ensures ProveExt(C, wit, macs, MulMixed(l, bit)) == MulMixedProver(C.F, ProveExt(C, wit, macs, l), ProveBit(C, wit, macs, bit))
    ensures VerifyExt(C, |wit|, powers, q, MulMixed(l, bit)) == C.F.Mul(VerifyExt(C, |wit|, powers, q, l), VerifyBit(C, |wit|, powers, q, bit))
    ensures PlainExt(C, wit, MulMixed(l, bit)) == C.F.Mul(PlainExt(C, wit, l), C.F.FromBit(PlainBit(wit, C.maxDeg, bit)))
  {
  }

  lemma LiftExtSteps<E(!new)>(C: Setting<E>, wit: seq<bool>, macs: seq<E>, q: seq<E>, powers: seq<E>, a: ExtExpr<E>, deg: nat)
    requires |C.g| == 7 && ExtTyped(LiftExt(a, deg), C.maxDeg, |wit|)
    requires |macs| == |q| == |wit| && |powers| == C.maxDeg
    ensures ProveExt(C, wit, macs, LiftExt(a, deg)) == ProverExt(ShiftLeft(C.F.ring, ProveExt(C, wit, macs, a).mac, deg - ExtDeg(a)))
    ensures VerifyExt(C, |wit|, powers, q, LiftExt(a, deg)) == C.F.Mul(VerifyExt(C, |wit|, powers, q, a), powers[deg - ExtDeg(a) - 1])
    ensures PlainExt(C, wit, LiftExt(a, deg)) == PlainExt(C, wit, a)
  {
    LiftExtProves(C, wit, macs, a, deg);
    LiftExtVerifies(C, |wit|, powers, q, a, deg);
    hide ProveExt;
    hide VerifyExt;
  }

  lemma LiftExtProves<E>(C: Setting<E>, wit: seq<bool>, macs: seq<E>, a: ExtExpr<E>, deg: nat)
    requires |C.g| == 7 && ExtTyped(LiftExt(a, deg), C.maxDeg, |wit|) && |macs| >= |wit|
    ensures ProveExt(C, wit, macs, LiftExt(a, deg)) == ProverExt(ShiftLeft(C.F.ring, ProveExt(C, wit, macs, a).mac, deg - ExtDeg(a)))
  {
  }

  lemma LiftExtVerifies<E>(C: Setting<E>, bits: nat, powers: seq<E>, q: seq<E>, a: ExtExpr<E>, deg: nat)
    requires |C.g| == 7 && ExtTyped(LiftExt(a, deg), C.maxDeg, bits) && |q| >= bits && |powers| == C.maxDeg
    ensures VerifyExt(C, bits, powers, q, LiftExt(a, deg)) == C.F.Mul(VerifyExt(C, bits, powers, q, a), powers[deg - ExtDeg(a) - 1])
  {
  }

  lemma WitnessAgrees<E(!new)>(C: Setting<E>, wit: seq<bool>, macs: seq<E>, q: seq<E>, delta: E, i: nat)
    requires ValidSetting(C) && BitTyped(Witness(i), C.maxDeg, |wit|) && Correlated(C.F, wit, macs, q, delta)
    ensures BitAgrees(C, wit, macs, q, delta, Witness(i))
  {
    hide PolyFieldLaws;
    hide EvalAt;
    FieldIsRing(C.F);
    EvalFull(C.F, ProverBit([macs[i]], wit[i]), delta);
    EvalSingle(C.F.ring, macs[i], delta);
    MulOne(C.F.ring, delta);
    MulComm(C.F.ring, delta, C.F.FromBit(wit[i]));
  }

  lemma AddBitsAgree<E(!new)>(C: Setting<E>, wit: seq<bool>, macs: seq<E>, q: seq<E>, delta: E, l: BitExpr, r: BitExpr)
    requires ValidSetting(C) && BitTyped(AddBits(l, r), C.maxDeg, |wit|) && |macs| == |q| == |wit|
    requires BitAgrees(C, wit, macs, q, delta, l) && BitAgrees(C, wit, macs, q, delta, r)
    ensures BitAgrees(C, wit, macs, q, delta, AddBits(l, r))
  {
    hide PolyFieldLaws;
    hide EvalAt;
    hide DeltaPowers;
    hide ProveBit;
    hide VerifyBit;
    hide PlainBit;
    FieldIsRing(C.F);
    AddBitsSteps(C, wit, macs, q, DeltaPowers(C.F.ring, delta, C.maxDeg), l, r);
    var a, b := ProveBit(C, wit, macs, l), ProveBit(C, wit, macs, r);
    FromBitAdd(C.F, a.value, b.value);
    assert Full(C.F, ProveBit(C, wit, macs, AddBits(l, r))) == VecAdd(C.F.ring, Full(C.F, a), Full(C.F, b));
    EvalAdd(C.F.ring, Full(C.F, a), Full(C.F, b), delta);
  }

  lemma MulBitsAgree<E(!new)>(C: Setting<E>, wit: seq<bool>, macs: seq<E>, q: seq<E>, delta: E, l: BitExpr, r: BitExpr)
    requires ValidSetting(C) && BitTyped(MulBits(l, r), C.maxDeg, |wit|) && |macs| == |q| == |wit|
    requires BitAgrees(C, wit, macs, q, delta, l) && BitAgrees(C, wit, macs, q, delta, r)
    ensures BitAgrees(C, wit, macs, q, delta, MulBits(l, r))
  {
    hide PolyFieldLaws;
    hide EvalAt;
    hide DeltaPowers;
    hide Full;
    hide Product;
    MulBitsProverValue(C.F, ProveBit(C, wit, macs, l), ProveBit(C, wit, macs, r));
    hide MulBitsProver;
    hide ProveBit;
    hide VerifyBit;
    hide PlainBit;
    FieldIsRing(C.F);
    MulBitsSteps(C, wit, macs, q, DeltaPowers(C.F.ring, delta, C.maxDeg), l, r);
    MulBitsValue(C.F, ProveBit(C, wit, macs, l), ProveBit(C, wit, macs, r), delta);
  }

  lemma LiftBitAgrees<E(!new)>(C: Setting<E>, wit: seq<bool>, macs: seq<E>, q: seq<E>, delta: E, a: BitExpr, deg: nat)
    requires ValidSetting(C) && BitTyped(LiftBit(a, deg), C.maxDeg, |wit|) && |macs| == |q| == |wit|
    requires BitAgrees(C, wit, macs, q, delta, a)
    ensures BitAgrees(C, wit, macs, q, delta, LiftBit(a, deg))
  {
    hide PolyFieldLaws;
    hide EvalAt;
    hide DeltaPowers;
    hide ProveBit;
    hide VerifyBit;
    hide PlainBit;
    FieldIsRing(C.F);
    LiftBitSteps(C, wit, macs, q, DeltaPowers(C.F.ring, delta, C.maxDeg), a, deg);
    var v := ProveBit(C, wit, macs, a);
    assert Full(C.F, ProveBit(C, wit, macs, LiftBit(a, deg))) == ShiftLeft(C.F.ring, Full(C.F, v), deg - |v.mac|);
    LiftValue(C.F.ring, Full(C.F, v), deg - |v.mac|, delta, C.maxDeg);
  }

  lemma ConstBitAgrees<E(!new)>(C: Setting<E>, wit: seq<bool>, macs: seq<E>, q: seq<E>, delta: E, b: bool, deg: nat)
    requires ValidSetting(C) && BitTyped(ConstBit(b, deg), C.maxDeg, |wit|) && |macs| == |q| == |wit|
    ensures BitAgrees(C, wit, macs, q, delta, ConstBit(b, deg))
  {
    hide EvalAt;
    hide DeltaPowers;
    ConstValue(C.F.ring, C.F.FromBit(b), deg, delta, C.maxDeg);
  }

  /** Every bit expression, over every witness: prover and verifier agree. */
  lemma {:induction false} BitHomomorphism<E(!new)>(C: Setting<E>, wit: seq<bool>, macs: seq<E>, q: seq<E>, delta: E, e: BitExpr)
    requires ValidSetting(C) && BitTyped(e, C.maxDeg, |wit|) && Correlated(C.F, wit, macs, q, delta)
    ensures BitAgrees(C, wit, macs, q, delta, e)
  {
    hide PolyFieldLaws;
    hide BitAgrees;
    match e
    case Witness(i) =>
      WitnessAgrees(C, wit, macs, q, delta, i);
    case ConstBit(b, deg) =>
      ConstBitAgrees(C, wit, macs, q, delta, b, deg);
    case AddBits(l, r) =>
      BitHomomorphism(C, wit, macs, q, delta, l);
      BitHomomorphism(C, wit, macs, q, delta, r);
      AddBitsAgree(C, wit, macs, q, delta, l, r);
    case MulBits(l, r) =>
      BitHomomorphism(C, wit, macs, q, delta, l);
      BitHomomorphism(C, wit, macs, q, delta, r);
      MulBitsAgree(C, wit, macs, q, delta, l, r);
    case LiftBit(a, deg) =>
      BitHomomorphism(C, wit, macs, q, delta, a);
      LiftBitAgrees(C, wit, macs, q, delta, a, deg);
  }

  lemma OfBitAgrees<E(!new)>(C: Setting<E>, wit: seq<bool>, macs: seq<E>, q: seq<E>, delta: E, bit: BitExpr)
    requires ValidSetting(C) && BitTyped(bit, C.maxDeg, |wit|) && |macs| == |q| == |wit|
    requires BitAgrees(C, wit, macs, q, delta, bit)
    ensures ExtAgrees(C, wit, macs, q, delta, OfBit(bit))
  {
    hide PolyFieldLaws;
    hide EvalAt;
    hide DeltaPowers;
  }

  lemma ConstExtAgrees<E(!new)>(C: Setting<E>, wit: seq<bool>, macs: seq<E>, q: seq<E>, delta: E, c: E, deg: nat)
    requires ValidSetting(C) && deg <= C.maxDeg && |macs| == |q| == |wit|
    ensures ExtAgrees(C, wit, macs, q, delta, ConstExt(c, deg))
  {
    hide EvalAt;
    hide DeltaPowers;
    ConstValue(C.F.ring, c, deg, delta, C.maxDeg);
  }

  lemma AddExtAgree<E(!new)>(C: Setting<E>, wit: seq<bool>, macs: seq<E>, q: seq<E>, delta: E, l: ExtExpr<E>, r: ExtExpr<E>)
    requires ValidSetting(C) && ExtTyped(AddExt(l, r), C.maxDeg, |wit|) && |macs| == |q| == |wit|
    requires ExtAgrees(C, wit, macs, q, delta, l) && ExtAgrees(C, wit, macs, q, delta, r)
    ensures ExtAgrees(C, wit, macs, q, delta, AddExt(l, r))
  {
    hide PolyFieldLaws;
    hide EvalAt;
    hide DeltaPowers;
    hide ProveExt;
    hide VerifyExt;
    hide PlainExt;
    hide ProveBit;
    hide VerifyBit;
    hide PlainBit;
    FieldIsRing(C.F);
    AddExtSteps(C, wit, macs, q, DeltaPowers(C.F.ring, delta, C.maxDeg), l, r);
    EvalAdd(C.F.ring, ProveExt(C, wit, macs, l).mac, ProveExt(C, wit, macs, r).mac, delta);
  }

  lemma MulExtAgree<E(!new)>(C: Setting<E>, wit: seq<bool>, macs: seq<E>, q: seq<E>, delta: E, l: ExtExpr<E>, r: ExtExpr<E>)
    requires ValidSetting(C) && ExtTyped(MulExt(l, r), C.maxDeg, |wit|) && |macs| == |q| == |wit|
    requires ExtAgrees(C, wit, macs, q, delta, l) && ExtAgrees(C, wit, macs, q, delta, r)
    ensures ExtAgrees(C, wit, macs, q, delta, MulExt(l, r))
  {
    hide PolyFieldLaws;
    hide EvalAt;
    hide DeltaPowers;
    hide Product;
    hide ProveExt;
    hide VerifyExt;
    hide PlainExt;
    hide ProveBit;
    hide VerifyBit;
    hide PlainBit;
    FieldIsRing(C.F);
    MulExtSteps(C, wit, macs, q, DeltaPowers(C.F.ring, delta, C.maxDeg), l, r);
    EvalProduct(C.F.ring, ProveExt(C, wit, macs, l).mac, ProveExt(C, wit, macs, r).mac, delta);
    ProductTop(C.F.ring, ProveExt(C, wit, macs, l).mac, ProveExt(C, wit, macs, r).mac);
  }

  lemma MulMixedAgree<E(!new)>(C: Setting<E>, wit: seq<bool>, macs: seq<E>, q: seq<E>, delta: E, l: ExtExpr<E>, bit: BitExpr)
    requires ValidSetting(C) && ExtTyped(MulMixed(l, bit), C.maxDeg, |wit|) && |macs| == |q| == |wit|
    requires ExtAgrees(C, wit, macs, q, delta, l) && BitAgrees(C, wit, macs, q, delta, bit)
    ensures ExtAgrees(C, wit, macs, q, delta, MulMixed(l, bit))
  {
    hide PolyFieldLaws;
    hide EvalAt;
    hide DeltaPowers;
    hide MulMixedProver;
    hide ProveExt;
    hide VerifyExt;
    hide PlainExt;
    hide ProveBit;
    hide VerifyBit;
    hide PlainBit;
    FieldIsRing(C.F);
    MulMixedSteps(C, wit, macs, q, DeltaPowers(C.F.ring, delta, C.maxDeg), l, bit);
    MulMixedValue(C.F, ProveExt(C, wit, macs, l), ProveBit(C, wit, macs, bit), delta);
    MulMixedTop(C.F, ProveExt(C, wit, macs, l), ProveBit(C, wit, macs, bit));
  }

  lemma LiftExtAgrees<E(!new)>(C: Setting<E>, wit: seq<bool>, macs: seq<E>, q: seq<E>, delta: E, a: ExtExpr<E>, deg: nat)
    requires ValidSetting(C) && ExtTyped(LiftExt(a, deg), C.maxDeg, |wit|) && |macs| == |q| == |wit|
    requires ExtAgrees(C, wit, macs, q, delta, a)
    ensures ExtAgrees(C, wit, macs, q, delta, LiftExt(a, deg))
  {
    hide PolyFieldLaws;
    hide EvalAt;
    hide DeltaPowers;
    hide ProveExt;
    hide VerifyExt;
    hide PlainExt;
    hide ProveBit;
    hide VerifyBit;
    hide PlainBit;
    FieldIsRing(C.F);
    LiftExtSteps(C, wit, macs, q, DeltaPowers(C.F.ring, delta, C.maxDeg), a, deg);
    LiftValue(C.F.ring, ProveExt(C, wit, macs, a).mac, deg - ExtDeg(a), delta, C.maxDeg);
  }

  lemma ProductTop<T(!new)>(R: Ring<T>, a: seq<T>, b: seq<T>)
    requires Char2Ring(R) && |a| >= 1 && |b| >= 1
    ensures Product(R, a, b)[|a| + |b| - 2] == R.Mul(a[|a| - 1], b[|b| - 1])
  {
    RowsTop(R, a, b, |a|);
  }

  lemma Combine8Agrees<E(!new)>(C: Setting<E>, wit: seq<bool>, macs: seq<E>, q: seq<E>, delta: E, bits: seq<BitExpr>)
    requires ValidSetting(C) && ExtTyped(ExtExpr<E>.Combine8(bits), C.maxDeg, |wit|) && |macs| == |q| == |wit|
    requires forall j | 0 <= j < 8 :: BitAgrees(C, wit, macs, q, delta, bits[j])
    ensures ExtAgrees(C, wit, macs, q, delta, Combine8(bits))
  {
    hide PolyFieldLaws;
    hide EvalAt;
    hide Sum8;
    hide Full;
    hide ProveBit;
    hide VerifyBit;
    hide PlainBit;
    hide DeltaPowers;
    FieldIsRing(C.F);
    var powers, deg := DeltaPowers(C.F.ring, delta, C.maxDeg), BitDeg(bits[0]);
    var es := seq(8, j requires 0 <= j < 8 => ProveBit(C, wit, macs, bits[j]));
    var v := seq(8, j requires 0 <= j < 8 => VerifyBit(C, |wit|, powers, q, bits[j]));
    var plain := seq(8, j requires 0 <= j < 8 => PlainBit(wit, C.maxDeg, bits[j]));
    forall j | 0 <= j < 8 ensures v[j] == EvalAt(C.F.ring, Full(C.F, es[j]), delta) && es[j].value == plain[j] {
      assert BitAgrees(C, wit, macs, q, delta, bits[j]);
    }
    Combine8Value(C.F, C.g, es, deg, v, delta);
    assert ValuesOf(es) == plain;
  }

  /** Every field expression, over every witness: prover and verifier agree. */
  lemma {:induction false} ExtHomomorphism<E(!new)>(C: Setting<E>, wit: seq<bool>, macs: seq<E>, q: seq<E>, delta: E, e: ExtExpr<E>)
    requires ValidSetting(C) && ExtTyped(e, C.maxDeg, |wit|) && Correlated(C.F, wit, macs, q, delta)
    ensures ExtAgrees(C, wit, macs, q, delta, e)
  {
    hide PolyFieldLaws;
    hide BitAgrees;
    hide ExtAgrees;
    match e
    case OfBit(bit) =>
      BitHomomorphism(C, wit, macs, q, delta, bit);
      OfBitAgrees(C, wit, macs, q, delta, bit);
    case ConstExt(c, deg) =>
      ConstExtAgrees(C, wit, macs, q, delta, c, deg);
    case AddExt(l, r) =>
      ExtHomomorphism(C, wit, macs, q, delta, l);
      ExtHomomorphism(C, wit, macs, q, delta, r);
      AddExtAgree(C, wit, macs, q, delta, l, r);
    case MulExt(l, r) =>
      ExtHomomorphism(C, wit, macs, q, delta, l);
      ExtHomomorphism(C, wit, macs, q, delta, r);
      MulExtAgree(C, wit, macs, q, delta, l, r);
    case MulMixed(l, bit) =>
      ExtHomomorphism(C, wit, macs, q, delta, l);
      BitHomomorphism(C, wit, macs, q, delta, bit);
      MulMixedAgree(C, wit, macs, q, delta, l, bit);
    case LiftExt(a, deg) =>
      ExtHomomorphism(C, wit, macs, q, delta, a);
      LiftExtAgrees(C, wit, macs, q, delta, a, deg);
    case Combine8(bits) =>
      forall j | 0 <= j < 8 ensures BitAgrees(C, wit, macs, q, delta, bits[j]) {
        BitHomomorphism(C, wit, macs, q, delta, bits[j]);
      }
      Combine8Agrees(C, wit, macs, q, delta, bits);
  }
}
