/**
 * The four pairs of fields that the parameter sets select, with the reference kernels as
 * their operations, and the proof that each satisfies the laws the model assumes.
 */
module ParameterFields {
  import opened Algebra
  import opened BitPolynomials
  import opened ByteStrings
  import opened FieldKernels
  import opened Fields
  import opened Naturals

  function Gf2(): Ring<bool> {
    Ring(false, true, (a: bool, b: bool) => a != b, (a: bool, b: bool) => a && b)
  }

  function BitByte(a: bool): Byte { ZERO_BYTE.(b0 := a) }

  function Gf2In256(): Field<bool, Byte> {
    Field(Gf2(), Gf256(), a => BitByte(a), 8,
          (b: Byte, j: nat) => j < 8 && b.Bit(j), (b: Byte, j: nat, v: bool) => if j < 8 then b.SetBit(j, v) else b,
          1, a => [a], (s: Bytes) => if |s| == 1 then s[0] else ZERO_BYTE,
          (i: nat) => Truncate(i), (k: nat) => Truncate(Pow2(k)))
  }

  function Gf2In65536(): Field<bool, Pair> {
    Field(Gf2(), Gf65536(), a => (BitByte(a), ZERO_BYTE), 8,
          (b: Byte, j: nat) => j < 8 && b.Bit(j), (b: Byte, j: nat, v: bool) => if j < 8 then b.SetBit(j, v) else b,
          2, (a: Pair) => [a.0, a.1], (s: Bytes) => if |s| == 2 then (s[0], s[1]) else (ZERO_BYTE, ZERO_BYTE),
          (i: nat) => (Truncate(i), Truncate(i / 256)), (k: nat) => (Truncate(Pow2(k)), Truncate(Pow2(k) / 256)))
  }

  function Gf256In256(): Field<Byte, Byte> {
    Field(Gf256(), Gf256(), a => a, 1,
          (b: Byte, j: nat) => b, (b: Byte, j: nat, v: Byte) => v,
          1, a => [a], (s: Bytes) => if |s| == 1 then s[0] else ZERO_BYTE,
          (i: nat) => Truncate(i), (k: nat) => Truncate(Pow2(8 * k)))
  }

  function Gf256In65536(): Field<Byte, Pair> {
    Field(Gf256(), Gf65536(), a => (a, ZERO_BYTE), 1,
          (b: Byte, j: nat) => b, (b: Byte, j: nat, v: Byte) => v,
          2, (a: Pair) => [a.0, a.1], (s: Bytes) => if |s| == 2 then (s[0], s[1]) else (ZERO_BYTE, ZERO_BYTE),
          (i: nat) => (Truncate(i), Truncate(i / 256)), (k: nat) => (Truncate(Pow2(8 * k)), Truncate(Pow2(8 * k) / 256)))
  }

  lemma Gf2IsRing()
    ensures Char2Ring(Gf2())
  {
    forall a: bool, b: bool, c: bool ensures GroupLaws(Gf2(), a, b, c) && ProductLaws(Gf2(), a, b, c) {
    }
  }

  lemma BitProduct(a: bool, b: bool)
    ensures Gf256Mul(BitByte(a), BitByte(b)) == BitByte(a && b)
  {
    Gf256IsRing();
    MulOne(Gf256(), BitByte(b));
    MulZeroLeft(BitByte(b));
  }

  lemma MulZeroLeft(y: Byte)
    ensures Gf256Mul(ZERO_BYTE, y) == ZERO_BYTE
  {
    Gf256IsRing();
    MulZero(Gf256(), y);
  }

  lemma PairProduct(a: Byte, b: Byte)
    ensures Gf65536Mul((a, ZERO_BYTE), (b, ZERO_BYTE)) == (Gf256Mul(a, b), ZERO_BYTE)
  {
    Gf256IsRing();
    AddZero(Gf256(), a);
    AddZero(Gf256(), b);
    MulZeroLeft(ZERO_BYTE);
    MulZeroLeft(THIRTY_TWO);
    AddZero(Gf256(), Gf256Mul(a, b));
    AddSelf(Gf256(), Gf256Mul(a, b));
  }

  lemma PlusBit(a: Byte, b: Byte, j: nat)
    requires j < 8
    ensures a.Plus(b).Bit(j) == (a.Bit(j) != b.Bit(j))
  {
    hide Byte.Plus;
    hide Byte.FromBits;
    var s, t := a.Bits(), b.Bits();
    hide Byte.Bits;
    PlusFromBits(s, t);
    BitsFromBits(Plus(s, t));
  }

  lemma SetBitBit(a: Byte, i: nat, v: bool, j: nat)
    requires i < 8 && j < 8
    ensures a.SetBit(i, v).Bit(j) == if j == i then v else a.Bit(j)
  {
    BitsFromBits(a.Bits()[i := v]);
  }

  lemma KeepLowBit(a: Byte, left: nat, j: nat)
    requires j < 8
    ensures a.KeepLow(left).Bit(j) == (j < left && a.Bit(j))
  {
    BitsFromBits(seq(8, i requires 0 <= i < 8 => i < left && a.Bit(i)));
  }

  lemma SameBits<E>(F: Field<bool, E>, a: Byte, b: Byte)
    requires F.perByte == 8
    requires forall b: Byte, j: nat {:trigger F.Digit(b, j)} :: F.Digit(b, j) == (j < 8 && b.Bit(j))
    requires forall j: nat | j < 8 :: F.Digit(a, j) == F.Digit(b, j)
    ensures a == b
  {
    forall j | 0 <= j < 8 ensures a.Bits()[j] == b.Bits()[j] {
      assert F.Digit(a, j) == F.Digit(b, j);
      assert a.Bit(j) == b.Bit(j);
    }
    assert a.Bits() == b.Bits();
  }

  /** The bit-packed digits of a GF(2) vector obey the digit laws, whatever the extension. */
  lemma BitDigits<E>(F: Field<bool, E>)
    requires F.base == Gf2() && F.perByte == 8
    requires forall b: Byte, j: nat {:trigger F.Digit(b, j)} :: F.Digit(b, j) == (j < 8 && b.Bit(j))
    requires forall b: Byte, j: nat, v: bool {:trigger F.SetDigit(b, j, v)} :: F.SetDigit(b, j, v) == if j < 8 then b.SetBit(j, v) else b
    ensures forall a: Byte, b: Byte, j: nat :: DigitLaw(F, a, b, j)
    ensures forall b: Byte, i: nat, v: bool, j: nat :: SetDigitLaw(F, b, i, v, j)
    ensures forall b: Byte, left: nat, j: nat :: MaskLaw(F, b, left, j)
    ensures forall a: Byte, b: Byte :: ByteLaw(F, a, b)
  {
    forall a: Byte, b: Byte ensures ByteLaw(F, a, b) {
      if forall j: nat | j < F.perByte :: F.Digit(a, j) == F.Digit(b, j) {
        SameBits(F, a, b);
      }
    }
    forall a: Byte, b: Byte, j: nat ensures DigitLaw(F, a, b, j) {
      if j < 8 { PlusBit(a, b, j); }
    }
    forall b: Byte, i: nat, v: bool, j: nat ensures SetDigitLaw(F, b, i, v, j) {
      if i < 8 && j < 8 { SetBitBit(b, i, v, j); }
    }
    forall b: Byte, left: nat, j: nat ensures MaskLaw(F, b, left, j) {
      if j < 8 { KeepLowBit(b, left, j); }
    }
  }

  /** Every field pair the parameter sets select satisfies the assumptions made above. */
  lemma ParameterFields()
    ensures FieldLaws(Gf2In256()) && FieldLaws(Gf2In65536())
    ensures FieldLaws(Gf256In256()) && FieldLaws(Gf256In65536())
  {
    Gf2In256Laws();
    Gf2In65536Laws();
    Gf256In256Laws();
    Gf256In65536Laws();
  }

  lemma BytesDiffer(i: nat, j: nat)
    requires i % 256 != j % 256
    ensures Truncate(i) != Truncate(j)
  {
    hide Truncate;
    hide Byte.ToNat;
    TruncateToNat(i);
    TruncateToNat(j);
  }

  lemma LowOrHighDiffers(i: nat, j: nat)
    requires i < 65536 && j < 65536 && i != j
    ensures i % 256 != j % 256 || i / 256 % 256 != j / 256 % 256
  {
  }

  /** Different indices below the size of the extension are evaluated at different points. */
  lemma BytePointsDistinct(i: nat, j: nat)
    requires i < 256 && j < 256 && i != j
    ensures Gf2In256().Point(i) != Gf2In256().Point(j) && Gf256In256().Point(i) != Gf256In256().Point(j)
  {
    BytesDiffer(i, j);
    hide Truncate;
  }

  lemma PairPointsDistinct(i: nat, j: nat)
    requires i < 65536 && j < 65536 && i != j
    ensures Gf2In65536().Point(i) != Gf2In65536().Point(j) && Gf256In65536().Point(i) != Gf256In65536().Point(j)
  {
    LowOrHighDiffers(i, j);
    if i % 256 != j % 256 {
      BytesDiffer(i, j);
    } else {
      BytesDiffer(i / 256, j / 256);
    }
    hide Truncate;
  }

  /** In GF(256^2) the indeterminate squared is itself plus 32. */
  lemma XSquared()
    ensures THIRTY_TWO.ToNat() == 32
    ensures Gf65536().Mul((ZERO_BYTE, ONE_BYTE), (ZERO_BYTE, ONE_BYTE)) == (THIRTY_TWO, ONE_BYTE)
  {
    SquareBytes();
    hide Gf256Mul;
    assert ZERO_BYTE.Plus(ONE_BYTE) == ONE_BYTE && ZERO_BYTE.Plus(THIRTY_TWO) == THIRTY_TWO;
  }

  lemma SquareBytes()
    ensures Gf256Mul(ONE_BYTE, ONE_BYTE) == ONE_BYTE && Gf256Mul(ZERO_BYTE, ZERO_BYTE) == ZERO_BYTE
    ensures Gf256Mul(ONE_BYTE, THIRTY_TWO) == THIRTY_TWO
  {
    Gf256IsRing();
    MulOne(Gf256(), ONE_BYTE);
    MulOne(Gf256(), THIRTY_TWO);
    MulZero(Gf256(), ZERO_BYTE);
    hide Gf256Mul;
  }

  lemma Gf2In256Laws()
    ensures FieldLaws(Gf2In256())
  {
    var F := Gf2In256();
    Gf2IsRing();
    Gf256IsRing();
    forall a: bool, b: bool ensures EmbedLaw(F, a, b) {
      BitProduct(a, b);
    }
    BitDigits(F);
    forall a: Byte ensures CodecLaw(F, a) {
    }
    forall s: Bytes ensures StringLaw(F, s) {
    }
  }

  lemma BitPairEmbeds(a: bool, b: bool)
    ensures EmbedLaw(Gf2In65536(), a, b)
  {
    BitProduct(a, b);
    PairProduct(BitByte(a), BitByte(b));
    hide Gf256Mul;
    hide Gf65536Mul;
    assert BitByte(a != b) == BitByte(a).Plus(BitByte(b));
    assert ZERO_BYTE.Plus(ZERO_BYTE) == ZERO_BYTE;
  }

  lemma Gf2In65536Laws()
    ensures FieldLaws(Gf2In65536())
  {
    var F := Gf2In65536();
    Gf2IsRing();
    Gf65536IsRing();
    forall a: bool, b: bool ensures EmbedLaw(F, a, b) {
      BitPairEmbeds(a, b);
    }
    BitDigits(F);
    forall a: Pair ensures CodecLaw(F, a) {
    }
    forall s: Bytes ensures StringLaw(F, s) {
    }
  }

  lemma Gf256In256Laws()
    ensures FieldLaws(Gf256In256())
  {
    var F := Gf256In256();
    Gf256IsRing();
    forall a: Byte, b: Byte ensures EmbedLaw(F, a, b) {
    }
    forall a: Byte, b: Byte, j: nat ensures DigitLaw(F, a, b, j) {
    }
    forall b: Byte, i: nat, v: Byte, j: nat ensures SetDigitLaw(F, b, i, v, j) {
    }
    forall a: Byte, b: Byte ensures ByteLaw(F, a, b) {
      assert F.Digit(a, 0) == a && F.Digit(b, 0) == b;
    }
    forall b: Byte, left: nat, j: nat ensures MaskLaw(F, b, left, j) {
    }
    forall a: Byte ensures CodecLaw(F, a) {
    }
    forall s: Bytes ensures StringLaw(F, s) {
    }
  }

  lemma Gf256In65536Laws()
    ensures FieldLaws(Gf256In65536())
  {
    var F := Gf256In65536();
    Gf256IsRing();
    Gf65536IsRing();
    forall a: Byte, b: Byte ensures EmbedLaw(F, a, b) {
      PairProduct(a, b);
      AddSelf(Gf256(), ZERO_BYTE);
    }
    forall a: Byte, b: Byte, j: nat ensures DigitLaw(F, a, b, j) {
    }
    forall b: Byte, i: nat, v: Byte, j: nat ensures SetDigitLaw(F, b, i, v, j) {
    }
    forall a: Byte, b: Byte ensures ByteLaw(F, a, b) {
      assert F.Digit(a, 0) == a && F.Digit(b, 0) == b;
    }
    forall b: Byte, left: nat, j: nat ensures MaskLaw(F, b, left, j) {
    }
    forall a: Pair ensures CodecLaw(F, a) {
    }
    forall s: Bytes ensures StringLaw(F, s) {
    }
  }
}
