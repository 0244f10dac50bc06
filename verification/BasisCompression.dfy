/**
 * Compressing mu base elements into one extension element loses nothing: serialized, it is
 * the packed vector itself. So phi, on lifted base vectors, is a change of representation.
 */
module BasisCompression {
  import opened Algebra
  import opened BitPolynomials
  import opened ByteStrings
  import opened FieldKernels
  import opened Fields
  import opened ParameterFields
  import opened Common
  import opened Schemes
  import opened Piop
  import opened Naturals

  /** c, combined along the basis. */
  function Compressed<B, E>(F: Field<B, E>, c: seq<B>, mu: nat): E
    requires |c| == mu
  {
    Dot(F.ext, EmbedAll(F, c), Basis(F, mu), mu)
  }

  ghost predicate CompressLaw<B, E>(F: Field<B, E>, mu: nat, c: seq<B>) {
    (F.perByte == 1 || F.perByte == 8) && mu % F.perByte == 0 && |c| == mu ==> F.encode(Compressed(F, c, mu)) == Pack(F, c)
  }

  /** The basis is the one in which elements are serialized. */
  ghost predicate Compresses<B(!new), E>(F: Field<B, E>, mu: nat) {
    forall c: seq<B> :: CompressLaw(F, mu, c)
  }

  // ---- GF(256) ----

  lemma CompressOne(c: seq<Byte>)
    requires |c| == 1
    ensures CompressLaw(Gf256In256(), 1, c)
  {
    var F := Gf256In256();
    Gf256IsRing();
    assert Truncate(1) == ONE_BYTE;
    assert Basis(F, 1)[0] == ONE_BYTE;
    MulOne(F.ext, c[0]);
    AddZero(F.ext, c[0]);
    assert EmbedAll(F, c)[0] == c[0];
    assert Dot(F.ext, EmbedAll(F, c), Basis(F, 1), 0) == F.ext.zero;
    hide Gf256Mul;
    assert Compressed(F, c, 1) == c[0];
    PackBytes(F, c);
  }

  /** With one element in a byte a packed vector is the vector itself. */
  lemma PackBytes<E(!new)>(F: Field<Byte, E>, c: seq<Byte>)
    requires F.perByte == 1 && forall b: Byte, j: nat, v: Byte {:trigger F.SetDigit(b, j, v)} :: F.SetDigit(b, j, v) == v
    ensures Pack(F, c) == c
  {
    forall i | 0 <= i < |c| ensures Pack(F, c)[i] == c[i] {
      assert c[i * 1..i * 1 + 1][0] == c[i];
    }
  }

  lemma CompressTwo(c: seq<Byte>)
    requires |c| == 2
    ensures CompressLaw(Gf256In65536(), 2, c)
  {
    var F := Gf256In65536();
    Gf65536IsRing();
    TwoBasis();
    hide Gf65536Mul;
    hide Gf256Mul;
    hide Byte.Plus;
    hide Truncate;
    var a, b := (c[0], ZERO_BYTE), (c[1], ZERO_BYTE);
    MulOne(F.ext, a);
    TimesX256(c[1]);
    AddZero(F.ext, a);
    Gf256IsRing();
    AddZero(Gf256(), c[0]);
    AddZero(Gf256(), c[1]);
    var d := EmbedAll(F, c);
    assert d[0] == a && d[1] == b;
    assert Dot(F.ext, d, Basis(F, 2), 0) == F.ext.zero;
    assert Dot(F.ext, d, Basis(F, 2), 1) == a;
    assert Compressed(F, c, 2) == (c[0], c[1]);
    PackBytes(F, c);
    assert F.encode((c[0], c[1])) == c;
  }

  lemma TwoBasis()
    ensures Basis(Gf256In65536(), 2) == [(ONE_BYTE, ZERO_BYTE), (ZERO_BYTE, ONE_BYTE)]
  {
    assert Truncate(1) == ONE_BYTE && Truncate(256) == ZERO_BYTE && Truncate(0) == ZERO_BYTE;
    assert Pow2(4) == 16;
    assert Pow2(8) == 256;
    assert 1 / 256 == 0 && 256 / 256 == 1;
  }

  /** The second basis element moves a byte up. */
  lemma TimesX256(b: Byte)
    ensures Gf65536().Mul((b, ZERO_BYTE), (ZERO_BYTE, ONE_BYTE)) == (ZERO_BYTE, b)
  {
    var G := Gf256();
    Gf256IsRing();
    MulZero(G, b);
    MulZero(G, ONE_BYTE);
    MulZero(G, THIRTY_TWO);
    AddZero(G, b);
    AddZero(G, ONE_BYTE);
    AddZero(G, ZERO_BYTE);
    MulOne(G, b);
    hide Gf256Mul;
    assert G.Add(ZERO_BYTE, b) == b;
  }

  // ---- GF(2) ----

  /** The polynomial with coefficient k only. */
  function Unit(n: nat, k: nat): (u: Poly)
    requires k < n
    ensures |u| == n
  {
    ZeroPoly(n)[k := true]
  }

  lemma BitByBit(c: Poly, k: nat, n: nat)
    requires k < |c| <= n
    ensures Plus(Widen(c[..k], n), if c[k] then Unit(n, k) else ZeroPoly(n)) == Widen(c[..k + 1], n)
  {
  }

  lemma PowersOfTwo()
    ensures Pow2(0) == 1 && Pow2(1) == 2 && Pow2(2) == 4 && Pow2(3) == 8
    ensures Pow2(4) == 16 && Pow2(5) == 32 && Pow2(6) == 64 && Pow2(7) == 128
  {
  }

  /** The basis of GF(256) over GF(2) consists of the single bits. */
  lemma BitBasis(k: nat)
    requires k < 8
    ensures Truncate(Pow2(k)) == Byte.FromBits(Unit(8, k))
  {
    PowersOfTwo();
    hide Pow2;
    hide Unit;
    UnitByte(k);
    match k
    case 0 => assert Truncate(1) == UnitOf(0);
    case 1 => assert Truncate(2) == UnitOf(1);
    case 2 => assert Truncate(4) == UnitOf(2);
    case 3 => assert Truncate(8) == UnitOf(3);
    case 4 => assert Truncate(16) == UnitOf(4);
    case 5 => assert Truncate(32) == UnitOf(5);
    case 6 => assert Truncate(64) == UnitOf(6);
    case 7 => assert Truncate(128) == UnitOf(7);
  }

  function UnitOf(k: nat): Byte { Byte(k == 0, k == 1, k == 2, k == 3, k == 4, k == 5, k == 6, k == 7) }

  lemma UnitByte(k: nat)
    requires k < 8
    ensures Byte.FromBits(Unit(8, k)) == UnitOf(k)
  {
  }

  /** Adding the k-th bit to the bits below it. */
  lemma NextBit(c: Poly, k: nat)
    requires k < |c| <= 8
    ensures Byte.FromBits(Widen(c[..k], 8)).Plus(if c[k] then Byte.FromBits(Unit(8, k)) else ZERO_BYTE)
         == Byte.FromBits(Widen(c[..k + 1], 8))
  {
    var t := if c[k] then Unit(8, k) else ZeroPoly(8);
    assert Byte.FromBits(ZeroPoly(8)) == ZERO_BYTE;
    BitByBit(c, k, 8);
    hide Widen;
    hide Unit;
    PlusFromBits(Widen(c[..k], 8), t);
  }

  /** Bits combined along the basis of GF(256) make the byte of these bits. */
  lemma {:induction false} BitsCombine(c: Poly, k: nat)
    requires k <= |c| == 8
    ensures Dot(Gf256(), EmbedAll(Gf2In256(), c), Basis(Gf2In256(), 8), k) == Byte.FromBits(Widen(c[..k], 8))
  {
    var F := Gf2In256();
    if k == 0 {
      assert Widen(c[..0], 8) == ZeroPoly(8);
      assert Byte.FromBits(ZeroPoly(8)) == ZERO_BYTE;
    } else {
      BitsCombine(c, k - 1);
      BitBasis(k - 1);
      Gf256IsRing();
      var b := Byte.FromBits(Unit(8, k - 1));
      MulOne(Gf256(), b);
      MulZero(Gf256(), b);
      hide Gf256Mul;
      hide Truncate;
      hide Unit;
      hide Widen;
      NextBit(c, k - 1);
      hide Byte.FromBits;
      assert EmbedAll(F, c)[k - 1] == BitByte(c[k - 1]);
      assert BitByte(true) == ONE_BYTE && BitByte(false) == ZERO_BYTE;
      assert Basis(F, 8)[k - 1] == b;
    }
  }

  /** Bytes that hold the given bits in order are their packed vector. */
  lemma BitsPacked<E(!new)>(F: Field<bool, E>, v: Bytes, c: Poly)
    requires FieldLaws(F) && F.perByte == 8 && |c| == 8 * |v|
    requires forall b: Byte, j: nat {:trigger F.Digit(b, j)} :: F.Digit(b, j) == (j < 8 && b.Bit(j))
    requires forall i | 0 <= i < |v| :: v[i].Bits() == c[8 * i..8 * i + 8]
    ensures v == Pack(F, c)
  {
    hide FieldLaws;
    hide Pack;
    hide Byte.Bits;
    forall k | 0 <= k < |c| ensures Coords(F, v, |c|)[k] == c[k] {
      var i, j := k / 8, k % 8;
      assert k == 8 * i + j;
      assert v[i].Bits()[j] == c[8 * i..8 * i + 8][j];
      assert F.Digit(v[i], j) == v[i].Bit(j);
    }
    assert Coords(F, v, |c|) == c;
    CoordsOfPack(F, c);
    PackUnique(F, v, Pack(F, c), |c|);
  }

  /** What is left to show for bits: the combined element serializes to bytes that hold them. */
  lemma BitsCompress<E(!new)>(F: Field<bool, E>, v: Bytes, c: Poly)
    requires FieldLaws(F) && F.perByte == 8 && |c| == 8 * |v|
    requires forall b: Byte, j: nat {:trigger F.Digit(b, j)} :: F.Digit(b, j) == (j < 8 && b.Bit(j))
    requires forall i | 0 <= i < |v| :: v[i].Bits() == c[8 * i..8 * i + 8]
    requires F.encode(Compressed(F, c, |c|)) == v
    ensures CompressLaw(F, |c|, c)
  {
    BitsPacked(F, v, c);
    hide FieldLaws;
    hide Pack;
    hide Compressed;
  }

  lemma WidenWhole(c: Poly)
    ensures Widen(c[..|c|], |c|) == c
  {
  }

  lemma CompressedByte(c: Poly)
    requires |c| == 8
    ensures Compressed(Gf2In256(), c, 8) == Byte.FromBits(c)
  {
    BitsCombine(c, 8);
    WidenWhole(c);
    hide Widen;
    hide Dot;
    hide Basis;
    hide EmbedAll;
    hide Byte.FromBits;
    hide Gf256Mul;
  }

  lemma Gf2In256Facts()
    ensures FieldLaws(Gf2In256()) && Gf2In256().perByte == 8
    ensures forall b: Byte, j: nat {:trigger Gf2In256().Digit(b, j)} :: Gf2In256().Digit(b, j) == (j < 8 && b.Bit(j))
    ensures forall b: Byte {:trigger Gf2In256().encode(b)} :: Gf2In256().encode(b) == [b]
  {
    Gf2In256Laws();
    hide FieldLaws;
  }

  lemma CompressBits(c: Poly)
    requires |c| == 8
    ensures CompressLaw(Gf2In256(), 8, c)
  {
    Gf2In256Facts();
    hide Gf2In256;
    hide FieldLaws;
    hide Compressed;
    CompressedByte(c);
    BitsFromBits(c);
    hide Byte.Bits;
    hide Byte.FromBits;
    assert c[8 * 0..8 * 0 + 8] == c;
    BitsCompress(Gf2In256(), [Byte.FromBits(c)], c);
  }

  // the two bytes of an element of GF(256^2)

  function PairOf(w: Poly): Pair
    requires |w| == 16
  {
    (Byte.FromBits(w[..8]), Byte.FromBits(w[8..]))
  }

  /** The basis of GF(256^2) over GF(2): the single bits of the low byte, then those of the high byte. */
  lemma PairBasis(k: nat)
    requires k < 16
    ensures Basis(Gf2In65536(), 16)[k] == PairOf(Unit(16, k))
  {
    if k < 8 {
      BitBasis(k);
      SmallPower(k);
      assert Unit(16, k)[..8] == Unit(8, k) && Unit(16, k)[8..] == ZeroPoly(8);
    } else {
      BitBasis(k - 8);
      LargePower(k);
      assert Unit(16, k)[..8] == ZeroPoly(8) && Unit(16, k)[8..] == Unit(8, k - 8);
    }
    assert Byte.FromBits(ZeroPoly(8)) == ZERO_BYTE;
    hide Truncate;
    hide Pow2;
    hide Byte.FromBits;
    hide Unit;
    assert Basis(Gf2In65536(), 16)[k] == (Truncate(Pow2(k)), Truncate(Pow2(k) / 256));
  }

  lemma SmallPower(k: nat)
    requires k < 8
    ensures Truncate(Pow2(k) / 256) == ZERO_BYTE
  {
    PowersOfTwo();
    assert Truncate(0) == ZERO_BYTE;
    hide Pow2;
    hide Truncate;
    assert Pow2(k) < 256;
  }

  lemma LargePower(k: nat)
    requires 8 <= k < 16
    ensures Truncate(Pow2(k)) == ZERO_BYTE && Pow2(k) / 256 == Pow2(k - 8)
  {
    PowerSplit(k - 8);
    hide Pow2;
    var q := Pow2(k - 8);
    TruncateMultiple(q, 1, 256);
    TruncateMultiple(q, 2, 128);
    TruncateMultiple(q, 4, 64);
    TruncateMultiple(q, 8, 32);
    TruncateMultiple(q, 16, 16);
    TruncateMultiple(q, 32, 8);
    TruncateMultiple(q, 64, 4);
    TruncateMultiple(q, 128, 2);
    DivMulBound(Pow2(k), 256);
    QuotientUnique(Pow2(k), 256, q);
  }

  lemma PowerSplit(k: nat)
    ensures Pow2(k + 8) == 256 * Pow2(k)
  {
    assert Pow2(k + 1) == 2 * Pow2(k) && Pow2(k + 2) == 2 * Pow2(k + 1) && Pow2(k + 3) == 2 * Pow2(k + 2) && Pow2(k + 4) == 2 * Pow2(k + 3);
    assert Pow2(k + 5) == 2 * Pow2(k + 4) && Pow2(k + 6) == 2 * Pow2(k + 5) && Pow2(k + 7) == 2 * Pow2(k + 6) && Pow2(k + 8) == 2 * Pow2(k + 7);
  }

  /** The low bits of a multiple of 256 are clear. */
  lemma TruncateMultiple(q: nat, d: nat, r: nat)
    requires d > 0 && d * r == 256 && r % 2 == 0
    ensures !BitAt(256 * q, d)
  {
    var x := q * r;
    assert x * d == q * (r * d);
    QuotientUnique(256 * q, d, x);
    assert x == 2 * (q * (r / 2));
  }

  lemma NextPairBit(c: Poly, k: nat)
    requires k < |c| == 16
    ensures Gf65536().Add(PairOf(Widen(c[..k], 16)), if c[k] then PairOf(Unit(16, k)) else (ZERO_BYTE, ZERO_BYTE))
         == PairOf(Widen(c[..k + 1], 16))
  {
    var w, t := Widen(c[..k], 16), if c[k] then Unit(16, k) else ZeroPoly(16);
    assert ZeroPoly(16)[..8] == ZeroPoly(8) == ZeroPoly(16)[8..];
    assert Byte.FromBits(ZeroPoly(8)) == ZERO_BYTE;
    BitByBit(c, k, 16);
    hide Widen;
    hide Unit;
    hide Byte.FromBits;
    hide Byte.Plus;
    PlusFromBits(w[..8], t[..8]);
    PlusFromBits(w[8..], t[8..]);
    assert Plus(w, t)[..8] == Plus(w[..8], t[..8]) && Plus(w, t)[8..] == Plus(w[8..], t[8..]);
  }

  lemma {:induction false} PairBitsCombine(c: Poly, k: nat)
    requires k <= |c| == 16
    ensures Dot(Gf65536(), EmbedAll(Gf2In65536(), c), Basis(Gf2In65536(), 16), k) == PairOf(Widen(c[..k], 16))
  {
    var F := Gf2In65536();
    if k == 0 {
      assert Widen(c[..0], 16)[..8] == ZeroPoly(8) == Widen(c[..0], 16)[8..];
      assert Byte.FromBits(ZeroPoly(8)) == ZERO_BYTE;
    } else {
      PairBitsCombine(c, k - 1);
      PairBasis(k - 1);
      Gf65536IsRing();
      var b := PairOf(Unit(16, k - 1));
      MulOne(Gf65536(), b);
      MulZero(Gf65536(), b);
      hide Gf65536Mul;
      hide Truncate;
      hide Unit;
      hide Widen;
      hide Byte.Plus;
      NextPairBit(c, k - 1);
      hide PairOf;
      assert EmbedAll(F, c)[k - 1] == (BitByte(c[k - 1]), ZERO_BYTE);
      assert BitByte(true) == ONE_BYTE && BitByte(false) == ZERO_BYTE;
      hide Basis;
      assert Basis(F, 16)[k - 1] == b;
    }
  }

  lemma CompressedPair(c: Poly)
    requires |c| == 16
    ensures Compressed(Gf2In65536(), c, 16) == PairOf(c)
  {
    PairBitsCombine(c, 16);
    WidenWhole(c);
    hide Widen;
    hide Dot;
    hide Basis;
    hide EmbedAll;
    hide PairOf;
    hide Gf65536Mul;
  }

  lemma Gf2In65536Facts()
    ensures FieldLaws(Gf2In65536()) && Gf2In65536().perByte == 8
    ensures forall b: Byte, j: nat {:trigger Gf2In65536().Digit(b, j)} :: Gf2In65536().Digit(b, j) == (j < 8 && b.Bit(j))
    ensures forall a: Pair {:trigger Gf2In65536().encode(a)} :: Gf2In65536().encode(a) == [a.0, a.1]
  {
    Gf2In65536Laws();
    hide FieldLaws;
  }

  lemma PairBits(c: Poly)
    requires |c| == 16
    ensures PairOf(c).0.Bits() == c[8 * 0..8 * 0 + 8] && PairOf(c).1.Bits() == c[8 * 1..8 * 1 + 8]
  {
    BitsFromBits(c[..8]);
    BitsFromBits(c[8..]);
    assert c[8 * 0..8 * 0 + 8] == c[..8] && c[8 * 1..8 * 1 + 8] == c[8..];
  }

  lemma CompressPairBits(c: Poly)
    requires |c| == 16
    ensures CompressLaw(Gf2In65536(), 16, c)
  {
    Gf2In65536Facts();
    hide Gf2In65536;
    hide FieldLaws;
    hide Compressed;
    CompressedPair(c);
    PairBits(c);
    hide Byte.Bits;
    hide PairOf;
    BitsCompress(Gf2In65536(), [PairOf(c).0, PairOf(c).1], c);
  }

  // ---- all four pairs of fields ----

  /** In each of them mu base elements, combined and serialized, are the packed elements. */
  lemma AllCompress()
    ensures Compresses(Gf2In256(), 8) && Compresses(Gf2In65536(), 16)
    ensures Compresses(Gf256In256(), 1) && Compresses(Gf256In65536(), 2)
  {
    hide CompressLaw;
    forall c: seq<bool> ensures CompressLaw(Gf2In256(), 8, c) {
      if |c| == 8 { CompressBits(c); } else { OtherLength(Gf2In256(), 8, c); }
    }
    forall c: seq<bool> ensures CompressLaw(Gf2In65536(), 16, c) {
      if |c| == 16 { CompressPairBits(c); } else { OtherLength(Gf2In65536(), 16, c); }
    }
    forall c: seq<Byte> ensures CompressLaw(Gf256In256(), 1, c) {
      if |c| == 1 { CompressOne(c); } else { OtherLength(Gf256In256(), 1, c); }
    }
    forall c: seq<Byte> ensures CompressLaw(Gf256In65536(), 2, c) {
      if |c| == 2 { CompressTwo(c); } else { OtherLength(Gf256In65536(), 2, c); }
    }
  }

  lemma OtherLength<B, E>(F: Field<B, E>, mu: nat, c: seq<B>)
    requires |c| != mu
    ensures CompressLaw(F, mu, c)
  {
  }

  // ---- phi ----

  /** The elements of one group, read off the packed vector. */
  lemma GroupBytes<B(!new), E(!new)>(F: Field<B, E>, v: Bytes, n: nat, mu: nat, i: nat, from: nat, at: nat)
    requires FieldLaws(F) && mu == F.perByte * F.extBytes && n % F.perByte == 0 && |v| == F.BaseBytes(n)
    requires from == i * mu && from + mu <= n && at == i * F.extBytes
    ensures at + F.extBytes <= |v| && mu % F.perByte == 0
    ensures Pack(F, Coords(F, v, n)[from..from + mu]) == v[at..at + F.extBytes]
  {
    PerByte(F);
    assert from == at * F.perByte;
    GroupFits(n, F.perByte, at, F.extBytes, |v|);
    hide FieldLaws;
    GroupCoords(F, v, n, mu, from, at);
    CoordsOfPack(F, Coords(F, v, n)[from..from + mu]);
    hide Pack;
    hide Coords;
    PackUnique(F, v[at..at + F.extBytes], Pack(F, Coords(F, v, n)[from..from + mu]), mu);
  }

  lemma GroupCoords<B, E>(F: Field<B, E>, v: Bytes, n: nat, mu: nat, from: nat, at: nat)
    requires (F.perByte == 1 || F.perByte == 8) && mu == F.perByte * F.extBytes && mu % F.perByte == 0 && mu / F.perByte == F.extBytes
    requires n % F.perByte == 0 && |v| == F.BaseBytes(n)
    requires from == at * F.perByte && from + mu <= n && at + F.extBytes <= |v|
    ensures Coords(F, v[at..at + F.extBytes], mu) == Coords(F, v, n)[from..from + mu]
  {
    var part := v[at..at + F.extBytes];
    forall k | 0 <= k < mu ensures Coords(F, part, mu)[k] == Coords(F, v, n)[from + k] {
      GroupIndex(F.perByte, at, F.extBytes, k);
    }
  }

  lemma GroupFits(n: nat, w: nat, at: nat, size: nat, len: nat)
    requires (w == 1 || w == 8) && n % w == 0 && len == n / w && at * w + w * size <= n
    ensures at + size <= len && (w * size) % w == 0 && w * size / w == size
  {
  }

  lemma GroupIndex(w: nat, at: nat, size: nat, k: nat)
    requires (w == 1 || w == 8) && k < w * size
    ensures k / w < size && (at * w + k) / w == at + k / w && (at * w + k) % w == k % w
  {
  }

  function PhiOf<B, E>(s: Scheme<B, E>, v: Bytes): (z: seq<E>)
    requires Sized(s) && |v| == s.YBytes()
    ensures |z| == s.p.m / s.p.mu
  {
    Phi(s, Lift(s.f, v, s.p.m))
  }

  /** The serialization of the first i elements. */
  lemma {:induction false} EncodesUpTo<B, E>(F: Field<B, E>, z: seq<E>, v: Bytes, i: nat, len: nat)
    requires i <= |z| && len == i * F.extBytes && len <= |v|
    requires forall k | 0 <= k < i :: Serializes(F, z, v, k)
    ensures Encode(F, z[..i]) == v[..len]
  {
    if i > 0 {
      assert (i - 1) * F.extBytes + F.extBytes == len;
      assert Serializes(F, z, v, i - 1);
      EncodesUpTo(F, z, v, i - 1, len - F.extBytes);
      assert z[..i][..i - 1] == z[..i - 1];
    }
  }

  /** Element k of z serializes to its stretch of v. */
  ghost predicate Serializes<B, E>(F: Field<B, E>, z: seq<E>, v: Bytes, k: nat)
    requires k < |z|
  {
    k * F.extBytes + F.extBytes <= |v| && F.encode(z[k]) == v[k * F.extBytes..k * F.extBytes + F.extBytes]
  }

  lemma PhiGroup<B(!new), E(!new)>(s: Scheme<B, E>, v: Bytes, i: nat)
    requires ValidScheme(s) && Compresses(s.f, s.p.mu) && |v| == s.YBytes() && i < s.p.m / s.p.mu
    ensures Serializes(s.f, PhiOf(s, v), v, i)
  {
    hide FieldLaws;
    hide Pack;
    hide Basis;
    hide Coords;
    var mu := s.p.mu;
    GroupInside(s.p.m, mu, i);
    var c := Coords(s.f, v, s.p.m)[i * mu..i * mu + mu];
    assert Lift(s.f, v, s.p.m)[i * mu..i * mu + mu] == EmbedAll(s.f, c);
    hide Lift;
    GroupBytes(s.f, v, s.p.m, mu, i, i * mu, i * s.f.extBytes);
    assert CompressLaw(s.f, mu, c);
  }

  /** Serialized, phi of a lifted vector is the packed vector: the compression loses nothing. */
  lemma PhiEncodes<B(!new), E(!new)>(s: Scheme<B, E>, v: Bytes)
    requires ValidScheme(s) && Compresses(s.f, s.p.mu) && |v| == s.YBytes()
    ensures Encode(s.f, Phi(s, Lift(s.f, v, s.p.m))) == v
  {
    hide FieldLaws;
    hide Encode;
    hide Compresses;
    hide Serializes;
    var z, k := PhiOf(s, v), s.p.m / s.p.mu;
    forall i | 0 <= i < k ensures Serializes(s.f, z, v, i) {
      PhiGroup(s, v, i);
    }
    WholeVector(s.p.m, s.p.mu, s.f.perByte, s.f.extBytes, k);
    EncodesUpTo(s.f, z, v, k, |v|);
    assert z[..k] == z && v[..|v|] == v;
  }

  lemma WholeVector(m: nat, mu: nat, w: nat, size: nat, k: nat)
    requires (w == 1 || w == 8) && mu == w * size && mu > 0 && m % mu == 0 && k == m / mu
    ensures k * size == m / w
  {
    DivMulBound(m, mu);
    assert m == k * mu == (k * size) * w;
  }

  /** Packed vectors with the same phi are equal. */
  lemma PhiInjective<B(!new), E(!new)>(s: Scheme<B, E>, v: Bytes, v': Bytes)
    requires ValidScheme(s) && Compresses(s.f, s.p.mu) && |v| == |v'| == s.YBytes()
    requires Phi(s, Lift(s.f, v, s.p.m)) == Phi(s, Lift(s.f, v', s.p.m))
    ensures v == v'
  {
    PhiEncodes(s, v);
    PhiEncodes(s, v');
  }

  /** Without batching and at an invertible point, the recomputed alpha0 is the signer's exactly for solutions. */
  lemma UnbatchedAgreesIff<B(!new), E(!new)>(s: Scheme<B, E>, com: Bytes, q: System, x: Bytes, y: Bytes, x0: seq<E>, u0: seq<E>, u1: seq<E>, r: E, w: E)
    requires ValidScheme(s) && ValidSystem(s, q) && TriangularSystem(s, q) && Compresses(s.f, s.p.mu) && !s.p.batching
    requires |x| == s.XBytes() && |y| == s.YBytes() && |x0| == s.p.n && |u0| == |u1| == s.p.eta
    requires s.f.ext.Mul(w, s.f.ext.Mul(r, r)) == s.f.ext.one
    ensures RecomputedAlpha0(s, com, q, y, r, Line(s.f.ext, x0, Lift(s.f, x, s.p.n), r),
                             Line(s.f.ext, u0, u1, r), Alpha1(s, com, q, x, x0, u1))
            == Alpha0(s, com, q, x0, u0)
       <==> Solves(s, q, x, y)
  {
    AlphaAgreesIff(s, com, q, x, y, x0, u0, u1, r);
    ResidualOfSolution(s, q, x, y);
    ExtIsRing(s.f);
    var res := Residual(s, q, x, y);
    assert Batch(s, Gamma(s, com), EmbedAll(s.f, res)) == Phi(s, EmbedAll(s.f, res));
    PhiVanishes(s, res);
    hide FieldLaws;
    hide Char2Ring;
    hide Residual;
    hide Solves;
    hide Phi;
    hide Batch;
    hide Gamma;
    hide RecomputedAlpha0;
    hide Alpha0;
    hide Alpha1;
    InvertibleScale(s.f.ext, w, s.f.ext.Mul(r, r), Phi(s, EmbedAll(s.f, res)));
  }

  lemma InvertibleScale<T(!new)>(R: Ring<T>, w: T, k: T, v: seq<T>)
    requires Char2Ring(R) && R.Mul(w, k) == R.one
    ensures Scale(R, k, v) == VecZero(R, |v|) <==> v == VecZero(R, |v|)
  {
    hide Char2Ring;
    MulZero(R, k);
    MulZero(R, w);
    forall i | 0 <= i < |v| ensures R.Mul(k, v[i]) == R.zero <==> v[i] == R.zero {
      MulAssoc(R, w, k, v[i]);
      MulOne(R, v[i]);
    }
  }

  /** Only the zero vector is compressed to zero. */
  lemma PhiVanishes<B(!new), E(!new)>(s: Scheme<B, E>, c: seq<B>)
    requires ValidScheme(s) && Compresses(s.f, s.p.mu) && |c| == s.p.m
    ensures Phi(s, EmbedAll(s.f, c)) == VecZero(s.f.ext, s.p.m / s.p.mu) <==> c == VecZero(s.f.base, s.p.m)
  {
    var zero := VecZero(s.f.base, s.p.m);
    var v, z := Pack(s.f, c), Pack(s.f, zero);
    CoordsOfPack(s.f, c);
    CoordsOfPack(s.f, zero);
    PhiOfZero(s);
    hide FieldLaws;
    hide Pack;
    hide Phi;
    hide Compresses;
    if Phi(s, EmbedAll(s.f, c)) == VecZero(s.f.ext, s.p.m / s.p.mu) {
      PhiInjective(s, v, z);
    }
  }

  lemma PhiOfZero<B(!new), E(!new)>(s: Scheme<B, E>)
    requires ValidScheme(s)
    ensures Phi(s, EmbedAll(s.f, VecZero(s.f.base, s.p.m))) == VecZero(s.f.ext, s.p.m / s.p.mu)
  {
    EmbedZero(s.f);
    ExtIsRing(s.f);
    hide FieldLaws;
    hide Char2Ring;
    hide Basis;
    var R, mu, z := s.f.ext, s.p.mu, EmbedAll(s.f, VecZero(s.f.base, s.p.m));
    forall i | 0 <= i < s.p.m / mu ensures Phi(s, z)[i] == R.zero {
      GroupInside(s.p.m, mu, i);
      DotZeroTail(R, z[i * mu..i * mu + mu], Basis(s.f, mu), 0, mu);
    }
  }
}
