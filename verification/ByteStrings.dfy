/** Bytes, byte strings, and their exclusive-or. */
module ByteStrings {
  import opened Naturals

  /** A byte as its eight bits, least significant first. */
  datatype Byte = Byte(b0: bool, b1: bool, b2: bool, b3: bool, b4: bool, b5: bool, b6: bool, b7: bool)
  {
    /** The bitwise exclusive-or of two bytes. */
    function Plus(o: Byte): Byte {
      Byte(b0 != o.b0, b1 != o.b1, b2 != o.b2, b3 != o.b3, b4 != o.b4, b5 != o.b5, b6 != o.b6, b7 != o.b7)
    }

    /** The eight bits as a list. */
    function Bits(): (s: seq<bool>)
      ensures |s| == 8 && FromBits(s) == this
    {
      [b0, b1, b2, b3, b4, b5, b6, b7]
    }

    static function FromBits(s: seq<bool>): Byte
      requires |s| == 8
    {
      Byte(s[0], s[1], s[2], s[3], s[4], s[5], s[6], s[7])
    }

    function Bit(j: nat): bool
      requires j < 8
    {
      Bits()[j]
    }

    /** This byte with bit j replaced. */
    function SetBit(j: nat, v: bool): Byte
      requires j < 8
    {
      FromBits(Bits()[j := v])
    }

    /** This byte and-ed with the mask of its `left` lowest bits. */
    function KeepLow(left: nat): Byte {
      FromBits(seq(8, i requires 0 <= i < 8 => i < left && Bit(i)))
    }

    function ToNat(): (n: nat)
      ensures n < 256
    {
      Unit(b0) + 2 * Unit(b1) + 4 * Unit(b2) + 8 * Unit(b3) + 16 * Unit(b4) + 32 * Unit(b5) + 64 * Unit(b6) + 128 * Unit(b7)
    }

    static function Unit(b: bool): nat { if b then 1 else 0 }
  }

  lemma BitsFromBits(s: seq<bool>)
    requires |s| == 8
    ensures Byte.FromBits(s).Bits() == s
  {
  }

  const ZERO_BYTE := Byte(false, false, false, false, false, false, false, false)

  /** The low eight bits of n: what storing n in an unsigned byte keeps. */
  function Truncate(n: nat): Byte {
    Byte(BitAt(n, 1), BitAt(n, 2), BitAt(n, 4), BitAt(n, 8), BitAt(n, 16), BitAt(n, 32), BitAt(n, 64), BitAt(n, 128))
  }

  /** The bit of n whose place value is d. */
  predicate BitAt(n: nat, d: nat)
    requires d > 0
  {
    n / d % 2 == 1
  }

  function Quotient(n: nat, d: nat): nat
    requires d > 0
  {
    n / d
  }

  /** One step of the binary expansion. */
  lemma Halve(n: nat, d: nat, dd: nat)
    requires d > 0 && dd == 2 * d
    ensures Quotient(n, d) == 2 * Quotient(n, dd) + Byte.Unit(BitAt(n, d))
  {
    DivMulBound(n, d);
    DivMulBound(n / d, 2);
    var q := n / d / 2;
    assert q * (2 * d) == 2 * q * d;
    QuotientUnique(n, 2 * d, q);
  }

  lemma TruncateToNat(n: nat)
    ensures Truncate(n).ToNat() == n % 256
  {
    var q := LowByte(n, Truncate(n));
    hide Truncate;
    QuotientUnique(n, 256, q);
  }

  lemma LowByte(n: nat, b: Byte) returns (q: nat)
    requires b == Truncate(n)
    ensures n == q * 256 + b.ToNat()
  {
    assert n == Quotient(n, 1);
    hide Quotient;
    hide BitAt;
    hide Byte.Unit;
    hide Byte.ToNat;
    Halve(n, 1, 2);
    Halve(n, 2, 4);
    Halve(n, 4, 8);
    Halve(n, 8, 16);
    Halve(n, 16, 32);
    Halve(n, 32, 64);
    Halve(n, 64, 128);
    Halve(n, 128, 256);
    q := Quotient(n, 256);
    Doublings(n, Quotient(n, 2), Quotient(n, 4), Quotient(n, 8), Quotient(n, 16), Quotient(n, 32), Quotient(n, 64),
              Quotient(n, 128), q, b);
  }

  lemma Doublings(n: nat, h1: nat, h2: nat, h3: nat, h4: nat, h5: nat, h6: nat, h7: nat, h8: nat, b: Byte)
    requires n == 2 * h1 + Byte.Unit(b.b0) && h1 == 2 * h2 + Byte.Unit(b.b1)
    requires h2 == 2 * h3 + Byte.Unit(b.b2) && h3 == 2 * h4 + Byte.Unit(b.b3)
    requires h4 == 2 * h5 + Byte.Unit(b.b4) && h5 == 2 * h6 + Byte.Unit(b.b5)
    requires h6 == 2 * h7 + Byte.Unit(b.b6) && h7 == 2 * h8 + Byte.Unit(b.b7)
    ensures n == h8 * 256 + b.ToNat()
  {
    hide Byte.Unit;
  }

  type Bytes = seq<Byte>

  function Zeros(n: nat): (z: Bytes)
    ensures |z| == n
    ensures forall i | 0 <= i < n :: z[i] == ZERO_BYTE
  {
    seq(n, i => ZERO_BYTE)
  }

  /** Bytewise exclusive-or of two strings of equal length. */
  function Xor(a: Bytes, b: Bytes): (c: Bytes)
    requires |a| == |b|
    ensures |c| == |a|
  {
    seq(|a|, i requires 0 <= i < |a| => a[i].Plus(b[i]))
  }

  lemma XorComm(a: Bytes, b: Bytes)
    requires |a| == |b|
    ensures Xor(a, b) == Xor(b, a)
  {
  }

  lemma XorAssoc(a: Bytes, b: Bytes, c: Bytes)
    requires |a| == |b| == |c|
    ensures Xor(Xor(a, b), c) == Xor(a, Xor(b, c))
  {
  }

  lemma XorZero(a: Bytes)
    ensures Xor(a, Zeros(|a|)) == a
    ensures Xor(Zeros(|a|), a) == a
  {
  }

  lemma XorSelf(a: Bytes)
    ensures Xor(a, a) == Zeros(|a|)
  {
  }

  /** A string masked twice is itself again. */
  lemma XorCancel(a: Bytes, b: Bytes)
    requires |a| == |b|
    ensures Xor(Xor(a, b), b) == a
    ensures Xor(b, Xor(b, a)) == a
    ensures Xor(b, Xor(a, b)) == a
  {
  }
}
