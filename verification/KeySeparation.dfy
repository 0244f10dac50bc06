/**
 * Which key encrypts what: the bytes of every tweaked salt, the keys of different uses of a
 * salt told apart, and the derived seeds spelled out over the cipher.
 */
module KeySeparation {
  import opened ByteStrings
  import opened Naturals
  import opened Common
  import opened TreePaths
  import opened GgmTree
  import opened Layout
  import opened Schemes
  import opened Blc
  import Prg
  import ExpandMq

  // ---- the bytes of a tweaked salt ----

  lemma PlusTwice(a: Byte, b: Byte)
    ensures a.Plus(b).Plus(a) == b
  {
  }

  /** Selector and repetition go to the first byte, the low byte of the counter to the second, the high one to the third. */
  lemma TweakBytes(salt: Bytes, sel: nat, e: nat, j: nat)
    requires |salt| >= 3 && sel < 4 && e < 64 && j < 65536
    ensures var t := TweakSalt(salt, sel, e, j);
            && |t| == |salt| && t[3..] == salt[3..]
            && t[0].Plus(salt[0]).ToNat() == sel + 4 * e
            && t[1].Plus(salt[1]).ToNat() + 256 * t[2].Plus(salt[2]).ToNat() == j
  {
    assert e % 256 == e;
    LowBytes(sel + 4 * e, j);
    hide Truncate;
    hide Byte.ToNat;
    PlusTwice(salt[0], Truncate(sel + 4 * e));
    PlusTwice(salt[1], Truncate(j));
    PlusTwice(salt[2], Truncate(j / 256));
    hide Byte.Plus;
  }

  lemma LowBytes(x: nat, j: nat)
    requires x < 256 && j < 65536
    ensures Truncate(x).ToNat() == x && Truncate(j).ToNat() + 256 * Truncate(j / 256).ToNat() == j
  {
    hide Truncate;
    hide Byte.ToNat;
    TruncateToNat(x);
    TruncateToNat(j);
    TruncateToNat(j / 256);
  }

  // ---- what the keys are used for ----

  /** Derivation from level j of the tree, either half of a leaf commitment, or a block of an expansion. */
  datatype KeyUse = Derivation(level: nat) | FirstHalf | SecondHalf | ExpansionBlock(b: nat)
  {
    predicate InRange() {
      match this
      case Derivation(level) => 1 <= level <= 65536
      case ExpansionBlock(b) => b < 65536
      case _ => true
    }
  }

  /** The key the procedures use. */
  function KeyOf(p: Params, salt: Bytes, e: nat, use: KeyUse): EncCtx
    requires |salt| >= 3 && use.InRange()
  {
    match use
    case Derivation(level) => LevelCtx(p, salt, e, level)
    case FirstHalf => CommitCtx1(p, salt, e)
    case SecondHalf => CommitCtx2(p, salt, e)
    case ExpansionBlock(b) => Prg.BlockCtx(p, salt, e, b)
  }

  function Selector(use: KeyUse): nat {
    match use
    case Derivation(_) => 2
    case FirstHalf => 0
    case SecondHalf => 1
    case ExpansionBlock(_) => 3
  }

  function Counter(use: KeyUse): nat
    requires use.InRange()
  {
    match use
    case Derivation(level) => level - 1
    case ExpansionBlock(b) => b
    case _ => 0
  }

  /** Masking with one sets the lowest bit of a multiple of four. */
  lemma SelectorOne(e: nat)
    requires e < 64
    ensures Truncate(4 * e).Plus(Truncate(1)) == Truncate(4 * e + 1)
  {
    var a, b := Truncate(4 * e), Truncate(4 * e + 1);
    assert (4 * e) / 2 == 2 * e && (4 * e + 1) / 2 == 2 * e;
    Quarter(e, 4);
    Quarter(e, 8);
    Quarter(e, 16);
    Quarter(e, 32);
    Quarter(e, 64);
    Quarter(e, 128);
  }

  lemma Quarter(e: nat, d: nat)
    requires d > 0 && d % 4 == 0
    ensures (4 * e + 1) / d == (4 * e) / d
  {
    var k := d / 4;
    DivMulBound(e, k);
    var q := e / k;
    assert q * d == 4 * (q * k);
    QuotientUnique(4 * e, d, q);
    QuotientUnique(4 * e + 1, d, q);
  }

  /** Every key is that of a tweaked salt. */
  lemma KeyIsTweak(p: Params, salt: Bytes, e: nat, use: KeyUse)
    requires |salt| >= 3 && use.InRange() && e < 64
    ensures KeyOf(p, salt, e, use) == EncCtx(TweakSalt(salt, Selector(use), e, Counter(use)))
  {
    hide Truncate;
    assert e % 256 == e;
    if use.SecondHalf? {
      SelectorOne(e);
      var t, u := TweakSalt(salt, 0, e, 0), TweakSalt(salt, 1, e, 0);
      PlusAssoc(salt[0], Truncate(4 * e), Truncate(1));
      hide Byte.Plus;
      assert t[0 := t[0].Plus(Truncate(1))] == u;
    }
  }

  lemma PlusAssoc(a: Byte, b: Byte, c: Byte)
    ensures a.Plus(b).Plus(c) == a.Plus(b.Plus(c))
  {
  }

  /** No key serves two purposes: level, repetition, half and block can be read off it. */
  lemma KeysSeparate(p: Params, salt: Bytes, e: nat, use: KeyUse, e': nat, use': KeyUse)
    requires |salt| >= 3 && use.InRange() && use'.InRange() && e < 64 && e' < 64
    requires KeyOf(p, salt, e, use) == KeyOf(p, salt, e', use')
    ensures e == e' && use == use'
  {
    KeyIsTweak(p, salt, e, use);
    KeyIsTweak(p, salt, e', use');
    hide TweakSalt;
    TweakSaltInjective(salt, Selector(use), e, Counter(use), Selector(use'), e', Counter(use'));
  }

  // ---- derived seeds over the cipher ----

  /** Byte i of a seed encrypted and masked by its halves, swapped and the first added to the second. */
  function CipherByte(p: Params, key: Bytes, seed: Bytes, i: nat): Byte
    requires p.Valid() && |seed| == p.seedSize && i < p.seedSize
  {
    var half := p.seedSize / 2;
    p.cipher(EncCtx(key), seed, i).Plus(if i < half then seed[half + i].Plus(seed[i]) else seed[i - half])
  }

  lemma HalvesSwapped(seed: Bytes, half: nat, i: nat)
    requires |seed| == 2 * half && i < |seed|
    ensures LinOrtho(seed)[i] == if i < half then seed[half + i].Plus(seed[i]) else seed[i - half]
  {
    hide Byte.Plus;
    assert |seed| / 2 == half;
  }

  lemma DeriveByte(p: Params, key: Bytes, seed: Bytes, i: nat)
    requires p.Valid() && |seed| == p.seedSize && i < p.seedSize
    ensures Derive(p, EncCtx(key), seed)[i] == CipherByte(p, key, seed, i)
  {
    hide Byte.Plus;
    HalvesSwapped(seed, p.seedSize / 2, i);
    hide LinOrtho;
  }

  /** Any string that spells the tweaked salt is the key. */
  ghost predicate SpellsKey(key: Bytes, salt: Bytes, sel: nat, e: nat, j: nat)
    requires |salt| >= 3
  {
    && |key| == |salt| && key[3..] == salt[3..]
    && key[0].Plus(salt[0]).ToNat() == sel + 4 * e
    && key[1].Plus(salt[1]).ToNat() + 256 * key[2].Plus(salt[2]).ToNat() == j
  }

  /** What a key encrypts and masks a seed to, byte by byte. */
  ghost predicate Encrypted(p: Params, salt: Bytes, sel: nat, e: nat, j: nat, seed: Bytes, out: Bytes)
    requires p.Valid() && |salt| >= 3 && |seed| == |out| == p.seedSize
  {
    exists key: Bytes :: SpellsKey(key, salt, sel, e, j) &&
      forall i | 0 <= i < p.seedSize :: out[i] == CipherByte(p, key, seed, i)
  }

  lemma DerivedEncrypts(p: Params, salt: Bytes, e: nat, use: KeyUse, seed: Bytes)
    requires p.Valid() && |salt| >= 3 && |seed| == p.seedSize && use.InRange() && e < 64
    ensures Encrypted(p, salt, Selector(use), e, Counter(use), seed, Derive(p, KeyOf(p, salt, e, use), seed))
  {
    KeyIsTweak(p, salt, e, use);
    TweakBytes(salt, Selector(use), e, Counter(use));
    hide KeyOf;
    hide Derive;
    hide Byte.Plus;
    hide Byte.ToNat;
    hide TweakSalt;
    var key := TweakSalt(salt, Selector(use), e, Counter(use));
    assert SpellsKey(key, salt, Selector(use), e, Counter(use));
    hide CipherByte;
    forall i | 0 <= i < p.seedSize ensures Derive(p, EncCtx(key), seed)[i] == CipherByte(p, key, seed, i) {
      DeriveByte(p, key, seed, i);
    }
  }

  /** The left child of a node of level j is the node encrypted with selector 2 and counter j - 1. */
  lemma LeftChild(t: Tree, j: nat, k: nat, l: nat)
    requires t.Valid() && 1 <= j <= 65536 && Pow2(j) <= k < 2 * Pow2(j) && l == 2 * k && t.e < 64
    ensures Encrypted(t.p, t.salt, 2, t.e, j - 1, t.Node(k), t.Node(l))
  {
    LevelOf(k, j);
    Pow2Increasing(1, j);
    assert l / 2 == k && l % 2 == 0 && l > 2;
    DerivedEncrypts(t.p, t.salt, t.e, Derivation(j), t.Node(k));
    hide Derive;
    hide LevelCtx;
    hide Xor;
  }

  /** The commitment to a leaf: the leaf encrypted with selector 0, then with selector 1. */
  lemma CommitmentHalves(p: Params, salt: Bytes, e: nat, seed: Bytes)
    requires p.Valid() && |salt| >= 3 && |seed| == p.seedSize && e < 64
    ensures var c := SeedCommit(p, salt, e, seed);
            && Encrypted(p, salt, 0, e, 0, seed, c[..p.seedSize])
            && Encrypted(p, salt, 1, e, 0, seed, c[p.seedSize..])
  {
    DerivedEncrypts(p, salt, e, FirstHalf, seed);
    DerivedEncrypts(p, salt, e, SecondHalf, seed);
    hide Derive;
    hide CommitCtx1;
    hide CommitCtx2;
    hide Encrypted;
    var c := SeedCommit(p, salt, e, seed);
    assert c[..p.seedSize] == Derive(p, CommitCtx1(p, salt, e), seed);
    assert c[p.seedSize..] == Derive(p, CommitCtx2(p, salt, e), seed);
  }

  lemma BlockSlice(p: Params, salt: Bytes, e: nat, seed: Bytes, nbytes: nat, b: nat, at: nat)
    requires p.Valid() && |salt| >= 3 && |seed| == p.seedSize
    requires at == b * p.seedSize && at + p.seedSize <= nbytes
    ensures Prg.Expansion(p, salt, e, seed, nbytes)[at..at + p.seedSize] == Prg.Block(p, salt, e, seed, b)
  {
    hide Prg.Expansion;
    hide Prg.Block;
    var x, y := Prg.Expansion(p, salt, e, seed, nbytes), Prg.Block(p, salt, e, seed, b);
    forall k | 0 <= k < p.seedSize ensures x[at + k] == y[k] {
      Prg.ExpansionByte(p, salt, e, seed, nbytes, b, k);
    }
  }

  /** Whole block b of an expansion: the seed encrypted with selector 3 and counter b. */
  lemma ExpansionBlocks(p: Params, salt: Bytes, e: nat, seed: Bytes, nbytes: nat, b: nat, at: nat)
    requires p.Valid() && |salt| >= 3 && |seed| == p.seedSize && e < 64 && b < 65536
    requires at == b * p.seedSize && at + p.seedSize <= nbytes
    ensures Encrypted(p, salt, 3, e, b, seed, Prg.Expansion(p, salt, e, seed, nbytes)[at..at + p.seedSize])
  {
    hide Encrypted;
    hide Derive;
    hide Prg.Expansion;
    BlockSlice(p, salt, e, seed, nbytes, b, at);
    DerivedEncrypts(p, salt, e, ExpansionBlock(b), seed);
  }

  /** Root seed e is the master seed encrypted under the zero salt with selector 3 and counter e. */
  lemma RootSeedIsBlock(p: Params, mseed: Bytes, e: nat)
    requires p.Valid() && |mseed| == p.seedSize && e < p.tau && e < 65536
    ensures Encrypted(p, Zeros(p.saltSize), 3, 0, e, mseed, RootSeeds(p, mseed)[e])
  {
    hide Encrypted;
    hide Prg.Expansion;
    PieceInside(p.seedSize, e, p.tau);
    assert (e + 1) * p.seedSize == e * p.seedSize + p.seedSize;
    ExpansionBlocks(p, Zeros(p.saltSize), 0, mseed, p.tau * p.seedSize, e, e * p.seedSize);
  }

  /** A tree starts with its root seed, encrypted from the master seed, and that seed plus the head of x. */
  lemma FirstLevel<B, E>(s: Scheme<B, E>, c: Secret, e: nat)
    requires ValidSecret(s, c) && e < s.p.tau && e < 65536
    ensures Encrypted(s.p, Zeros(s.p.saltSize), 3, 0, e, c.mseed, TreeOf(s, c, e).Node(2))
    ensures TreeOf(s, c, e).Node(3) == Xor(TreeOf(s, c, e).Node(2), c.x[..s.p.seedSize])
  {
    hide Encrypted;
    hide Xor;
    RootSeedIsBlock(s.p, c.mseed, e);
    hide RootSeeds;
    assert 3 / 2 == 1 && 3 % 2 == 1 && 2 % 2 == 0;
  }

  /** The stream of an equation: its seed encrypted under the zero salt, block after block. */
  lemma EquationBlocks(p: Params, perByte: nat, mseedEq: Bytes, i: nat, b: nat, at: nat)
    requires p.Valid() && perByte > 0 && p.n > 0 && b < 65536
    requires at == b * p.seedSize && at + p.seedSize <= ExpandMq.StreamBytes(perByte, p.n)
    ensures Encrypted(p, Zeros(p.saltSize), 3, 0, b, ExpandMq.EquationSeed(p, mseedEq, i),
                      ExpandMq.EquationStream(p, perByte, mseedEq, i)[at..at + p.seedSize])
  {
    hide Encrypted;
    hide Prg.Expansion;
    hide ExpandMq.EquationSeed;
    hide ExpandMq.StreamBytes;
    ExpansionBlocks(p, Zeros(p.saltSize), 0, ExpandMq.EquationSeed(p, mseedEq, i), ExpandMq.StreamBytes(perByte, p.n), b, at);
  }
}
