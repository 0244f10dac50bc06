/**
 * The symbolic parameters of an MQOM instance, the block cipher and XOF it is given,
 * and the salt tweak and seed derivation shared by its components.
 */
module Common {
  import opened ByteStrings
  import opened Naturals

  datatype Option<+T> = None | Some(value: T)

  /** An expanded key; it is determined by the key it was made from. */
  datatype EncCtx = EncCtx(key: Bytes)

  datatype Params = Params(
    seedSize: nat,
    saltSize: nat,
    log: nat,                              // NB_EVALS_LOG
    tau: nat,                              // number of repetitions
    n: nat,                                // unknowns
    m: nat,                                // equations
    mu: nat,
    eta: nat,
    w: nat,                                // grinding bits
    batching: bool,                        // WITH_STATISTICAL_BATCHING
    xofX4: bool,                           // USE_XOF_X4
    cipher: (EncCtx, Bytes, nat) -> Byte,  // byte i of the encryption of a block
    stream: (Bytes, nat) -> Byte)          // byte i of the XOF output for an input
  {
    function NbEvals(): (k: nat)
      ensures k >= 1
    {
      Pow2(log)
    }

    function DigestSize(): nat { 2 * seedSize }

    function KeySched(key: Bytes): EncCtx { EncCtx(key) }

    /** One block under an expanded key. */
    function Encrypt(ctx: EncCtx, pt: Bytes): (ct: Bytes)
      ensures |ct| == seedSize
    {
      seq(seedSize, i requires 0 <= i < seedSize => cipher(ctx, pt, i))
    }

    /** Bytes [from, from + len) of the XOF output on `input`. */
    function Squeeze(input: Bytes, from: nat, len: nat): (out: Bytes)
      ensures |out| == len
    {
      seq(len, i requires 0 <= i < len => stream(input, from + i))
    }

    /** A digest of `data` in the domain given by the first byte absorbed. */
    function Hash(domain: nat, data: Bytes): (h: Bytes)
      ensures |h| == DigestSize()
    {
      Squeeze([Truncate(domain)] + data, 0, DigestSize())
    }

    ghost predicate Valid() {
      && seedSize > 0 && seedSize % 8 == 0
      && saltSize >= 3
      && log >= 1
    }
  }

  /** The salt with the selector, repetition and counter mixed into its first three bytes. */
  function TweakSalt(salt: Bytes, sel: nat, e: nat, j: nat): (t: Bytes)
    requires |salt| >= 3
    ensures |t| == |salt|
  {
    MaskHead(salt, sel + 4 * (e % 256), j, j / 256)
  }

  /** The first three bytes masked with the low bytes of three numbers. */
  function MaskHead(s: Bytes, x: nat, y: nat, z: nat): (t: Bytes)
    requires |s| >= 3
    ensures |t| == |s|
  {
    s[0 := s[0].Plus(Truncate(x))][1 := s[1].Plus(Truncate(y))][2 := s[2].Plus(Truncate(z))]
  }

  /** (l, r) becomes (l + r, l). */
  function LinOrtho(seed: Bytes): (r: Bytes)
    requires |seed| % 2 == 0
    ensures |r| == |seed|
  {
    var half := |seed| / 2;
    Xor(seed[half..], seed[..half]) + seed[..half]
  }

  /** Encryption of the seed, masked with LinOrtho of the seed. */
  function Derive(p: Params, ctx: EncCtx, seed: Bytes): (r: Bytes)
    requires p.Valid() && |seed| == p.seedSize
    ensures |r| == p.seedSize
  {
    Xor(p.Encrypt(ctx, seed), LinOrtho(seed))
  }

  /** Distinct uses of one salt get distinct tweaked salts: (sel, e, j) can be read back from it. */
  lemma TweakSaltInjective(salt: Bytes, sel: nat, e: nat, j: nat, sel': nat, e': nat, j': nat)
    requires |salt| >= 3
    requires sel < 4 && sel' < 4 && e < 64 && e' < 64 && j < 65536 && j' < 65536
    requires TweakSalt(salt, sel, e, j) == TweakSalt(salt, sel', e', j')
    ensures sel == sel' && e == e' && j == j'
  {
    hide MaskHead;
    assert e % 256 == e && e' % 256 == e';
    MaskHeadInjective(salt, sel + 4 * e, j, j / 256, sel' + 4 * e', j', j' / 256);
    LowByteInjective(sel + 4 * e, sel' + 4 * e');
    TwoBytesInjective(j, j');
  }

  lemma LowByteInjective(x: nat, y: nat)
    requires x < 256 && y < 256 && x % 256 == y % 256
    ensures x == y
  {
  }

  lemma TwoBytesInjective(x: nat, y: nat)
    requires x < 65536 && y < 65536
    requires x % 256 == y % 256 && x / 256 % 256 == y / 256 % 256
    ensures x == y
  {
  }

  lemma MaskHeadInjective(s: Bytes, x: nat, y: nat, z: nat, x': nat, y': nat, z': nat)
    requires |s| >= 3
    requires MaskHead(s, x, y, z) == MaskHead(s, x', y', z')
    ensures x % 256 == x' % 256 && y % 256 == y' % 256 && z % 256 == z' % 256
  {
    HeadsEqual(s, s[0].Plus(Truncate(x)), s[1].Plus(Truncate(y)), s[2].Plus(Truncate(z)),
               s[0].Plus(Truncate(x')), s[1].Plus(Truncate(y')), s[2].Plus(Truncate(z')));
    MaskInjective(s[0], x, x');
    MaskInjective(s[1], y, y');
    MaskInjective(s[2], z, z');
  }

  lemma HeadsEqual<T>(s: seq<T>, a: T, b: T, c: T, a': T, b': T, c': T)
    requires |s| >= 3
    requires s[0 := a][1 := b][2 := c] == s[0 := a'][1 := b'][2 := c']
    ensures a == a' && b == b' && c == c'
  {
    var t, t' := s[0 := a][1 := b][2 := c], s[0 := a'][1 := b'][2 := c'];
    assert t[0] == t'[0] && t[1] == t'[1] && t[2] == t'[2];
  }

  lemma MaskInjective(a: Byte, x: nat, y: nat)
    requires a.Plus(Truncate(x)) == a.Plus(Truncate(y))
    ensures x % 256 == y % 256
  {
    PlusInjective(a, Truncate(x), Truncate(y));
    hide Truncate;
    hide Byte.ToNat;
    TruncateToNat(x);
    TruncateToNat(y);
  }

  lemma PlusInjective(a: Byte, b: Byte, c: Byte)
    requires a.Plus(b) == a.Plus(c)
    ensures b == c
  {
    assert a.Plus(a.Plus(b)) == b && a.Plus(a.Plus(c)) == c;
  }

  // ---- buffers ----

  /** `before` with `data` written at offset `at`. */
  function Splice<T>(before: seq<T>, at: nat, data: seq<T>): (s: seq<T>)
    requires at + |data| <= |before|
    ensures |s| == |before|
  {
    before[..at] + data + before[at + |data|..]
  }

  lemma SpliceAppend<T>(before: seq<T>, at: nat, a: seq<T>, b: seq<T>)
    requires at + |a| + |b| <= |before|
    ensures Splice(Splice(before, at, a), at + |a|, b) == Splice(before, at, a + b)
  {
  }

  /** memcpy into a buffer. */
  method Store<T>(out: array<T>, at: nat, data: seq<T>)
    requires at + |data| <= out.Length
    modifies out
    ensures out[..] == Splice(old(out[..]), at, data)
  {
    for i := 0 to |data|
      invariant out[..at] == old(out[..at])
      invariant out[at..at + i] == data[..i]
      invariant out[at + |data|..] == old(out[at + |data|..])
    {
      out[at + i] := data[i];
    }
    assert out[..] == out[..at] + out[at..at + |data|] + out[at + |data|..];
  }
}
