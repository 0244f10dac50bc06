/**
 * The parameter sets the repository ships: each meets what the model assumes of its
 * parameters, so that the theorems about signing hold of it.
 */
module ParameterSets {
  import opened ByteStrings
  import opened Naturals
  import opened Common
  import opened Fields
  import opened FieldKernels
  import opened ParameterFields
  import opened Schemes
  import opened KeyGen
  import opened Blc
  import opened Challenge
  import opened Signatures
  import opened BasisCompression

  datatype Category = Cat1 | Cat3 | Cat5
  {
    /** Bytes of a seed, which is an eighth of the security level. */
    function SeedBytes(): nat {
      match this
      case Cat1 => 16
      case Cat3 => 24
      case Cat5 => 32
    }
  }

  datatype BaseField = OverGf2 | OverGf256
  {
    function Bits(): nat { if OverGf2? then 1 else 8 }
  }

  datatype TradeOff = Fast | Short
  {
    function ExtBits(): nat { if Fast? then 8 else 16 }

    function Log(): nat { if Fast? then 8 else 11 }

    function Tau(cat: Category): nat {
      match (this, cat)
      case (Fast, Cat1) => 17
      case (Fast, Cat3) => 27
      case (Fast, Cat5) => 36
      case (Short, Cat1) => 12
      case (Short, Cat3) => 18
      case (Short, Cat5) => 25
    }

    /** Bits of grinding. */
    function W(cat: Category): nat {
      match (this, cat)
      case (Fast, Cat1) => 9
      case (Fast, Cat3) => 3
      case (Fast, Cat5) => 4
      case (Short, Cat1) => 8
      case (Short, Cat3) => 12
      case (Short, Cat5) => 6
    }
  }

  /** What the sets leave open: the functions they are given, and the fourfold XOF. */
  datatype Primitives = Primitives(xofX4: bool, cipher: (EncCtx, Bytes, nat) -> Byte, stream: (Bytes, nat) -> Byte)

  /** Unknowns, and as many equations: ten per seed byte over GF(2), three over GF(256). */
  function Unknowns(cat: Category, base: BaseField): nat {
    if base.OverGf2? then 10 * cat.SeedBytes() else 3 * cat.SeedBytes()
  }

  function Mu(base: BaseField, trade: TradeOff): (mu: nat)
    ensures mu > 0
  {
    trade.ExtBits() / base.Bits()
  }

  /** Five rounds mean that the equations are batched into eta random combinations. */
  function ParameterSet(cat: Category, base: BaseField, trade: TradeOff, fiveRounds: bool, g: Primitives): Params {
    var n := Unknowns(cat, base);
    Params(cat.SeedBytes(), cat.SeedBytes(), trade.Log(), trade.Tau(cat), n, n, Mu(base, trade),
           if fiveRounds then 8 * cat.SeedBytes() / trade.ExtBits() else n / Mu(base, trade),
           trade.W(cat), fiveRounds, g.xofX4, g.cipher, g.stream)
  }

  /** A field pair is the one the set asks for if its sizes are. */
  predicate Selects<B, E>(base: BaseField, trade: TradeOff, f: Field<B, E>) {
    f.perByte * base.Bits() == 8 && 8 * f.extBytes == trade.ExtBits()
  }

  /** The sizes agree, repetitions fit the salt tweak, and fourfold draws of equation seeds never fail. */
  lemma SetSized<B, E>(cat: Category, base: BaseField, trade: TradeOff, fiveRounds: bool, g: Primitives, f: Field<B, E>)
    requires Selects(base, trade, f)
    ensures Sized(Scheme(ParameterSet(cat, base, trade, fiveRounds, g), f))
    ensures ParameterSet(cat, base, trade, fiveRounds, g).tau < 64
    ensures CanExpand(ParameterSet(cat, base, trade, fiveRounds, g))
  {
    assert f.perByte == if base.OverGf2? then 8 else 1;
    assert f.extBytes == if trade.Fast? then 1 else 2;
    match (cat, base)
    case (Cat1, OverGf2) =>
    case (Cat3, OverGf2) =>
    case (Cat5, OverGf2) =>
    case (_, OverGf256) =>
  }

  /** All twenty-four sets, with the pair of fields each of them selects. */
  lemma ParameterSetsValid(cat: Category, fiveRounds: bool, g: Primitives)
    ensures ValidScheme(Scheme(ParameterSet(cat, OverGf2, Fast, fiveRounds, g), Gf2In256()))
    ensures ValidScheme(Scheme(ParameterSet(cat, OverGf2, Short, fiveRounds, g), Gf2In65536()))
    ensures ValidScheme(Scheme(ParameterSet(cat, OverGf256, Fast, fiveRounds, g), Gf256In256()))
    ensures ValidScheme(Scheme(ParameterSet(cat, OverGf256, Short, fiveRounds, g), Gf256In65536()))
  {
    ParameterFields.ParameterFields();
    SetSized(cat, OverGf2, Fast, fiveRounds, g, Gf2In256());
    SetSized(cat, OverGf2, Short, fiveRounds, g, Gf2In65536());
    SetSized(cat, OverGf256, Fast, fiveRounds, g, Gf256In256());
    SetSized(cat, OverGf256, Short, fiveRounds, g, Gf256In65536());
    hide FieldLaws;
    hide Sized;
  }

  /** Leaves of one tree have different evaluation points, and compression loses nothing, in all of them. */
  lemma PointsAndBases(cat: Category, fiveRounds: bool, g: Primitives, i: nat, j: nat)
    requires i != j
    ensures var fast, short := ParameterSet(cat, OverGf2, Fast, fiveRounds, g), ParameterSet(cat, OverGf2, Short, fiveRounds, g);
            && Compresses(Gf2In256(), fast.mu) && Compresses(Gf2In65536(), short.mu)
            && (i < fast.NbEvals() && j < fast.NbEvals() ==> Gf2In256().Point(i) != Gf2In256().Point(j))
            && (i < short.NbEvals() && j < short.NbEvals() ==> Gf2In65536().Point(i) != Gf2In65536().Point(j))
    ensures var fast, short := ParameterSet(cat, OverGf256, Fast, fiveRounds, g), ParameterSet(cat, OverGf256, Short, fiveRounds, g);
            && Compresses(Gf256In256(), fast.mu) && Compresses(Gf256In65536(), short.mu)
            && (i < fast.NbEvals() && j < fast.NbEvals() ==> Gf256In256().Point(i) != Gf256In256().Point(j))
            && (i < short.NbEvals() && j < short.NbEvals() ==> Gf256In65536().Point(i) != Gf256In65536().Point(j))
  {
    AllCompress();
    SetCounts(cat, OverGf2, Fast, fiveRounds, g);
    SetCounts(cat, OverGf2, Short, fiveRounds, g);
    SetCounts(cat, OverGf256, Fast, fiveRounds, g);
    SetCounts(cat, OverGf256, Short, fiveRounds, g);
    if i < 256 && j < 256 {
      BytePointsDistinct(i, j);
    }
    if i < 65536 && j < 65536 {
      PairPointsDistinct(i, j);
    }
    hide *;
  }

  /** Leaves of a tree, and base elements in an element of the extension. */
  lemma SetCounts(cat: Category, base: BaseField, trade: TradeOff, fiveRounds: bool, g: Primitives)
    ensures ParameterSet(cat, base, trade, fiveRounds, g).NbEvals() == if trade.Fast? then 256 else 2048
    ensures ParameterSet(cat, base, trade, fiveRounds, g).mu == if base.OverGf2? then (if trade.Fast? then 8 else 16) else (if trade.Fast? then 1 else 2)
  {
    assert Pow2(4) == 16;
    assert Pow2(8) == 256;
    assert Pow2(11) == 2048;
  }

  /** What completeness asks of the XOF can be met: grinding succeeds at once if the XOF gives zeros for nonce 0. */
  lemma ZeroDrawWins(p: Params, hash: Bytes)
    requires forall i: nat :: p.stream([Truncate(5)] + hash + NonceBytes(0), i) == ZERO_BYTE
    ensures Winnable(p, hash)
  {
    hide NonceBytes;
    var tmp := Draw(p, hash, NonceBytes(0));
    assert tmp[2 * p.tau] == tmp[2 * p.tau + 1] == ZERO_BYTE;
    assert ZERO_BYTE.ToNat() == 0;
    assert Good(p, hash, 0);
  }
}
