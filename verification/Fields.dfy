/**
 * A base field and its extension, as MQOM uses them: base vectors stay packed in bytes,
 * extension vectors are sequences of elements.
 */
module Fields {
  import opened Algebra
  import opened ByteStrings

  datatype Field<!B, !E> = Field(
    base: Ring<B>,
    ext: Ring<E>,
    embed: B -> E,
    perByte: nat,                        // base elements in one byte
    digit: (Byte, nat) -> B,             // the j-th of them
    setDigit: (Byte, nat, B) -> Byte,    // the byte with the j-th of them replaced
    extBytes: nat,                       // bytes of one serialized extension element
    encode: E -> Bytes,
    decode: Bytes -> E,
    point: nat -> E,                     // get_evaluation_point
    basis: nat -> E)                     // ext_basis
  {
    function Digit(b: Byte, j: nat): B { digit(b, j) }

    function SetDigit(b: Byte, j: nat, v: B): Byte { setDigit(b, j, v) }

    function Embed(a: B): E { embed(a) }

    function Point(i: nat): E { point(i) }

    /** BYTE_SIZE_FIELD_BASE. */
    function BaseBytes(n: nat): nat
      requires perByte > 0
    {
      n / perByte
    }

    /** Element k of a packed base vector. */
    function Coord(v: Bytes, k: nat): B
      requires perByte > 0 && k / perByte < |v|
    {
      Digit(v[k / perByte], k % perByte)
    }
  }

  ghost predicate EmbedLaw<B, E>(F: Field<B, E>, a: B, b: B) {
    && F.Embed(F.base.Add(a, b)) == F.ext.Add(F.Embed(a), F.Embed(b))
    && F.Embed(F.base.Mul(a, b)) == F.ext.Mul(F.Embed(a), F.Embed(b))
  }

  ghost predicate DigitLaw<B, E>(F: Field<B, E>, a: Byte, b: Byte, j: nat) {
    j < F.perByte ==> F.Digit(a.Plus(b), j) == F.base.Add(F.Digit(a, j), F.Digit(b, j))
  }

  ghost predicate SetDigitLaw<B, E>(F: Field<B, E>, b: Byte, i: nat, v: B, j: nat) {
    i < F.perByte && j < F.perByte ==> F.Digit(F.SetDigit(b, i, v), j) == if j == i then v else F.Digit(b, j)
  }

  /** Masking the leftover bits of a byte clears the elements stored there. */
  ghost predicate MaskLaw<B, E>(F: Field<B, E>, b: Byte, left: nat, j: nat) {
    F.perByte == 8 && j < 8 ==>
      F.Digit(b.KeepLow(left), j) == if j < left then F.Digit(b, j) else F.base.zero
  }

  /** A byte is determined by the elements stored in it. */
  ghost predicate ByteLaw<B, E>(F: Field<B, E>, a: Byte, b: Byte) {
    (forall j: nat | j < F.perByte :: F.Digit(a, j) == F.Digit(b, j)) ==> a == b
  }

  ghost predicate CodecLaw<B, E>(F: Field<B, E>, a: E) {
    |F.encode(a)| == F.extBytes && F.decode(F.encode(a)) == a
  }

  /** Every string of the right length is the serialization of an element. */
  ghost predicate StringLaw<B, E>(F: Field<B, E>, s: Bytes) {
    |s| == F.extBytes ==> F.encode(F.decode(s)) == s
  }

  /** What the rest of the model assumes of the two fields. */
  ghost predicate FieldLaws<B(!new), E(!new)>(F: Field<B, E>) {
    && Char2Ring(F.base)
    && Char2Ring(F.ext)
    && (forall a: B, b: B :: EmbedLaw(F, a, b))
    && (F.perByte == 1 || F.perByte == 8)
    && (forall a: Byte, b: Byte, j: nat :: DigitLaw(F, a, b, j))
    && (forall b: Byte, i: nat, v: B, j: nat :: SetDigitLaw(F, b, i, v, j))
    && (forall b: Byte, left: nat, j: nat :: MaskLaw(F, b, left, j))
    && (forall a: Byte, b: Byte :: ByteLaw(F, a, b))
    && (forall a: E :: CodecLaw(F, a))
    && (forall s: Bytes :: StringLaw(F, s))
  }

  // ---- the base vector seen as coordinates ----

  lemma PackedIndex(perByte: nat, n: nat, k: nat)
    requires perByte == 1 || perByte == 8
    requires n % perByte == 0 && k < n
    ensures k / perByte < n / perByte
  {
  }

  function Coords<B, E>(F: Field<B, E>, v: Bytes, n: nat): (c: seq<B>)
    requires F.perByte == 1 || F.perByte == 8
    requires n % F.perByte == 0 && |v| == F.BaseBytes(n)
    ensures |c| == n
  {
    seq(n, k requires 0 <= k < n => PackedIndex(F.perByte, n, k); F.Coord(v, k))
  }

  function EmbedAll<B, E>(F: Field<B, E>, c: seq<B>): (r: seq<E>)
    ensures |r| == |c| && forall k | 0 <= k < |c| :: r[k] == F.Embed(c[k])
  {
    seq(|c|, k requires 0 <= k < |c| => F.Embed(c[k]))
  }

  /** A packed base vector as a vector over the extension: what the hybrid kernels read. */
  function Lift<B, E>(F: Field<B, E>, v: Bytes, n: nat): (r: seq<E>)
    requires F.perByte == 1 || F.perByte == 8
    requires n % F.perByte == 0 && |v| == F.BaseBytes(n)
    ensures |r| == n
  {
    EmbedAll(F, Coords(F, v, n))
  }

  /** field_base_vect_add is a bytewise exclusive-or, yet it adds coordinate by coordinate. */
  lemma CoordsXor<B(!new), E(!new)>(F: Field<B, E>, a: Bytes, b: Bytes, n: nat)
    requires FieldLaws(F)
    requires n % F.perByte == 0 && |a| == |b| == F.BaseBytes(n)
    ensures Coords(F, Xor(a, b), n) == VecAdd(F.base, Coords(F, a, n), Coords(F, b, n))
  {
    forall k | 0 <= k < n
      ensures Coords(F, Xor(a, b), n)[k] == VecAdd(F.base, Coords(F, a, n), Coords(F, b, n))[k]
    {
      PackedIndex(F.perByte, n, k);
      assert DigitLaw(F, a[k / F.perByte], b[k / F.perByte], k % F.perByte);
    }
  }

  lemma EmbedAdd<B(!new), E(!new)>(F: Field<B, E>, a: seq<B>, b: seq<B>)
    requires FieldLaws(F) && |a| == |b|
    ensures EmbedAll(F, VecAdd(F.base, a, b)) == VecAdd(F.ext, EmbedAll(F, a), EmbedAll(F, b))
  {
    forall k | 0 <= k < |a|
      ensures EmbedAll(F, VecAdd(F.base, a, b))[k] == VecAdd(F.ext, EmbedAll(F, a), EmbedAll(F, b))[k]
    {
      assert EmbedLaw(F, a[k], b[k]);
    }
  }

  lemma LiftXor<B(!new), E(!new)>(F: Field<B, E>, a: Bytes, b: Bytes, n: nat)
    requires FieldLaws(F)
    requires n % F.perByte == 0 && |a| == |b| == F.BaseBytes(n)
    ensures Lift(F, Xor(a, b), n) == VecAdd(F.ext, Lift(F, a, n), Lift(F, b, n))
  {
    CoordsXor(F, a, b, n);
    EmbedAdd(F, Coords(F, a, n), Coords(F, b, n));
  }

  lemma EmbedZero<B(!new), E(!new)>(F: Field<B, E>)
    requires FieldLaws(F)
    ensures F.Embed(F.base.zero) == F.ext.zero
  {
    AddSelf(F.base, F.base.zero);
    assert EmbedLaw(F, F.base.zero, F.base.zero);
    AddSelf(F.ext, F.Embed(F.base.zero));
  }

  lemma {:induction false} EmbedDot<B(!new), E(!new)>(F: Field<B, E>, a: seq<B>, b: seq<B>, n: nat)
    requires FieldLaws(F) && n <= |a| && n <= |b|
    ensures F.Embed(Dot(F.base, a, b, n)) == Dot(F.ext, EmbedAll(F, a), EmbedAll(F, b), n)
  {
    if n == 0 {
      EmbedZero(F);
    } else {
      EmbedDot(F, a, b, n - 1);
      assert EmbedLaw(F, Dot(F.base, a, b, n - 1), F.base.Mul(a[n - 1], b[n - 1]));
      assert EmbedLaw(F, a[n - 1], b[n - 1]);
    }
  }

  // ---- packing ----

  /** A byte whose first k elements are those of ds. */
  function PackByte<B, E>(F: Field<B, E>, ds: seq<B>, k: nat): Byte
    requires k <= |ds|
  {
    if k == 0 then ZERO_BYTE else F.SetDigit(PackByte(F, ds, k - 1), k - 1, ds[k - 1])
  }

  lemma {:induction false} PackByteDigit<B(!new), E(!new)>(F: Field<B, E>, ds: seq<B>, k: nat, j: nat)
    requires FieldLaws(F) && k <= |ds| == F.perByte && j < k
    ensures F.Digit(PackByte(F, ds, k), j) == ds[j]
  {
    assert SetDigitLaw(F, PackByte(F, ds, k - 1), k - 1, ds[k - 1], j);
    if j < k - 1 {
      PackByteDigit(F, ds, k - 1, j);
    }
  }

  /** The packed form of a coordinate vector. */
  function Pack<B, E>(F: Field<B, E>, c: seq<B>): (v: Bytes)
    requires F.perByte == 1 || F.perByte == 8
    requires |c| % F.perByte == 0
    ensures |v| == F.BaseBytes(|c|)
  {
    seq(F.BaseBytes(|c|), i requires 0 <= i < F.BaseBytes(|c|) =>
      PackByte(F, c[i * F.perByte..i * F.perByte + F.perByte], F.perByte))
  }

  lemma PackSlot<B(!new), E(!new)>(F: Field<B, E>, c: seq<B>, i: nat, j: nat, k: nat)
    requires FieldLaws(F) && |c| % F.perByte == 0 && i < F.BaseBytes(|c|) && j < F.perByte
    requires k == i * F.perByte + j && k < |c|
    ensures F.Digit(Pack(F, c)[i], j) == c[k]
  {
    hide FieldLaws;
    hide PackByte;
    assert F.perByte == 1 || F.perByte == 8 by { PerByte(F); }
    var at := i * F.perByte;
    assert at + F.perByte <= |c|;
    var ds := c[at..at + F.perByte];
    PackByteDigit(F, ds, F.perByte, j);
    assert ds[j] == c[k];
  }

  lemma PerByte<B(!new), E(!new)>(F: Field<B, E>)
    requires FieldLaws(F)
    ensures F.perByte == 1 || F.perByte == 8
  {
  }

  lemma CoordsOfPack<B(!new), E(!new)>(F: Field<B, E>, c: seq<B>)
    requires FieldLaws(F) && |c| % F.perByte == 0
    ensures Coords(F, Pack(F, c), |c|) == c
  {
    hide Pack;
    hide FieldLaws;
    PerByte(F);
    forall k | 0 <= k < |c| ensures Coords(F, Pack(F, c), |c|)[k] == c[k] {
      PackedIndex(F.perByte, |c|, k);
      PackSlot(F, c, k / F.perByte, k % F.perByte, k);
    }
  }

  /** Packed vectors with the same coordinates are the same bytes. */
  lemma PackUnique<B(!new), E(!new)>(F: Field<B, E>, v: Bytes, w: Bytes, n: nat)
    requires FieldLaws(F) && n % F.perByte == 0 && |v| == |w| == F.BaseBytes(n)
    requires Coords(F, v, n) == Coords(F, w, n)
    ensures v == w
  {
    forall i | 0 <= i < |v| ensures v[i] == w[i] {
      forall j: nat | j < F.perByte ensures F.Digit(v[i], j) == F.Digit(w[i], j) {
        SlotIndex(F.perByte, n, i, j);
        assert Coords(F, v, n)[i * F.perByte + j] == Coords(F, w, n)[i * F.perByte + j];
      }
      assert ByteLaw(F, v[i], w[i]);
    }
  }

  lemma SlotIndex(perByte: nat, n: nat, i: nat, j: nat)
    requires perByte == 1 || perByte == 8
    requires n % perByte == 0 && i < n / perByte && j < perByte
    ensures i * perByte + j < n && (i * perByte + j) / perByte == i && (i * perByte + j) % perByte == j
  {
  }

  // ---- serialization of extension vectors ----

  function Encode<B, E>(F: Field<B, E>, v: seq<E>): Bytes {
    if |v| == 0 then [] else Encode(F, v[..|v| - 1]) + F.encode(v[|v| - 1])
  }

  function Decode<B, E>(F: Field<B, E>, s: Bytes, n: nat): (v: seq<E>)
    requires |s| >= n * F.extBytes
    ensures |v| == n
  {
    if n == 0 then []
    else
      assert (n - 1) * F.extBytes + F.extBytes == n * F.extBytes;
      Decode(F, s, n - 1) + [F.decode(s[(n - 1) * F.extBytes..(n - 1) * F.extBytes + F.extBytes])]
  }

  lemma {:induction false} EncodeLength<B(!new), E(!new)>(F: Field<B, E>, v: seq<E>)
    requires FieldLaws(F)
    ensures |Encode(F, v)| == |v| * F.extBytes
  {
    if |v| > 0 {
      EncodeLength(F, v[..|v| - 1]);
      assert CodecLaw(F, v[|v| - 1]);
    }
  }

  /** Decoding looks at the first n elements only. */
  lemma {:induction false} DecodePrefix<B, E>(F: Field<B, E>, s: Bytes, t: Bytes, n: nat)
    requires |s| >= n * F.extBytes
    ensures |s + t| >= n * F.extBytes
    ensures Decode(F, s + t, n) == Decode(F, s, n)
  {
    if n > 0 {
      assert (n - 1) * F.extBytes + F.extBytes == n * F.extBytes;
      DecodePrefix(F, s, t, n - 1);
      var lo, hi := (n - 1) * F.extBytes, (n - 1) * F.extBytes + F.extBytes;
      assert (s + t)[lo..hi] == s[lo..hi];
    }
  }

  /** Parsing what was serialized gives back the vector. */
  lemma {:induction false} DecodeEncode<B(!new), E(!new)>(F: Field<B, E>, v: seq<E>)
    requires FieldLaws(F)
    ensures |Encode(F, v)| == |v| * F.extBytes
    ensures Decode(F, Encode(F, v), |v|) == v
  {
    EncodeLength(F, v);
    if |v| > 0 {
      var n := |v|;
      var u, last := v[..n - 1], F.encode(v[n - 1]);
      DecodeEncode(F, u);
      assert CodecLaw(F, v[n - 1]);
      DecodePrefix(F, Encode(F, u), last, n - 1);
      assert Encode(F, v) == Encode(F, u) + last;
      assert (n - 1) * F.extBytes + F.extBytes == n * F.extBytes;
      assert Encode(F, v)[(n - 1) * F.extBytes..(n - 1) * F.extBytes + F.extBytes] == last;
    }
  }

  /** Serializing what was parsed gives back the bytes. */
  lemma {:induction false} EncodeDecode<B(!new), E(!new)>(F: Field<B, E>, s: Bytes, n: nat)
    requires FieldLaws(F) && |s| >= n * F.extBytes
    ensures Encode(F, Decode(F, s, n)) == s[..n * F.extBytes]
  {
    if n > 0 {
      var lo := (n - 1) * F.extBytes;
      assert lo + F.extBytes == n * F.extBytes;
      EncodeDecode(F, s, n - 1);
      assert StringLaw(F, s[lo..lo + F.extBytes]);
      assert Decode(F, s, n)[..n - 1] == Decode(F, s, n - 1);
    }
  }
}
