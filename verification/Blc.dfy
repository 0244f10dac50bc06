/**
 * The batched line commitment: what the signer commits to, what it opens, what the
 * verifier recomputes, and why the two meet.
 */
module Blc {
  import opened ByteStrings
  import opened Naturals
  import opened Layout
  import opened Algebra
  import opened Fields
  import opened Common
  import opened Schemes
  import opened GgmTree
  import opened TreePaths
  import Prg

  // ---- one leaf ----

  function CommitCtx1(p: Params, salt: Bytes, e: nat): EncCtx
    requires |salt| >= 3
  {
    p.KeySched(TweakSalt(salt, 0, e, 0))
  }

  function CommitCtx2(p: Params, salt: Bytes, e: nat): EncCtx
    requires |salt| >= 3
  {
    var t := TweakSalt(salt, 0, e, 0);
    p.KeySched(t[0 := t[0].Plus(Truncate(1))])
  }

  /** The commitment to a leaf seed. */
  function SeedCommit(p: Params, salt: Bytes, e: nat, seed: Bytes): (c: Bytes)
    requires p.Valid() && |salt| >= 3 && |seed| == p.seedSize
    ensures |c| == p.DigestSize()
  {
    Derive(p, CommitCtx1(p, salt, e), seed) + Derive(p, CommitCtx2(p, salt, e), seed)
  }

  /** Bytes expanded from a leaf seed besides the seed itself. */
  function PrgBytes<B, E>(s: Scheme<B, E>): nat
    requires Sized(s)
  {
    s.XBytes() + s.EtaBytes() - s.p.seedSize
  }

  /** The seed followed by its expansion. */
  function LeafBytes<B, E>(s: Scheme<B, E>, salt: Bytes, e: nat, seed: Bytes): (r: Bytes)
    requires Sized(s) && |salt| >= 3 && |seed| == s.p.seedSize
    ensures |r| == s.XBytes() + s.EtaBytes()
    ensures r[..s.p.seedSize] == seed
  {
    seed + Prg.Expansion(s.p, salt, e, seed, PrgBytes(s))
  }

  /** The share of x in a leaf: a packed base vector that starts with the seed. */
  function BarX<B, E>(s: Scheme<B, E>, salt: Bytes, e: nat, seed: Bytes): (r: Bytes)
    requires Sized(s) && |salt| >= 3 && |seed| == s.p.seedSize
    ensures |r| == s.XBytes() && r[..s.p.seedSize] == seed
  {
    LeafBytes(s, salt, e, seed)[..s.XBytes()]
  }

  /** The share of the mask u in a leaf. */
  function BarU<B, E>(s: Scheme<B, E>, salt: Bytes, e: nat, seed: Bytes): (r: seq<E>)
    requires Sized(s) && |salt| >= 3 && |seed| == s.p.seedSize
    ensures |r| == s.p.eta
  {
    Decode(s.f, LeafBytes(s, salt, e, seed)[s.XBytes()..], s.p.eta)
  }

  // ---- sums over the first i leaves ----

  ghost predicate Seeds(p: Params, leaves: seq<Bytes>) {
    AllLength(leaves, p.seedSize)
  }

  function SumX<B, E>(s: Scheme<B, E>, salt: Bytes, e: nat, leaves: seq<Bytes>, i: nat): (r: Bytes)
    requires Sized(s) && |salt| >= 3 && Seeds(s.p, leaves) && i <= |leaves|
    ensures |r| == s.XBytes()
  {
    if i == 0 then Zeros(s.XBytes()) else Xor(SumX(s, salt, e, leaves, i - 1), BarX(s, salt, e, leaves[i - 1]))
  }

  function SumU<B, E>(s: Scheme<B, E>, salt: Bytes, e: nat, leaves: seq<Bytes>, i: nat): (r: seq<E>)
    requires Sized(s) && |salt| >= 3 && Seeds(s.p, leaves) && i <= |leaves|
    ensures |r| == s.p.eta
  {
    if i == 0 then VecZero(s.f.ext, s.p.eta)
    else VecAdd(s.f.ext, SumU(s, salt, e, leaves, i - 1), BarU(s, salt, e, leaves[i - 1]))
  }

  function WeightedU<B, E>(s: Scheme<B, E>, salt: Bytes, e: nat, leaves: seq<Bytes>, i: nat): (r: seq<E>)
    requires Sized(s) && |salt| >= 3 && Seeds(s.p, leaves) && i <= |leaves|
    ensures |r| == s.p.eta
  {
    if i == 0 then VecZero(s.f.ext, s.p.eta)
    else VecAdd(s.f.ext, WeightedU(s, salt, e, leaves, i - 1),
                Scale(s.f.ext, s.f.Point(i - 1), BarU(s, salt, e, leaves[i - 1])))
  }

  function WeightedX<B, E>(s: Scheme<B, E>, salt: Bytes, e: nat, leaves: seq<Bytes>, i: nat): (r: seq<E>)
    requires Sized(s) && |salt| >= 3 && Seeds(s.p, leaves) && i <= |leaves|
    ensures |r| == s.p.n
  {
    if i == 0 then VecZero(s.f.ext, s.p.n)
    else VecAdd(s.f.ext, WeightedX(s, salt, e, leaves, i - 1),
                Scale(s.f.ext, s.f.Point(i - 1), Lift(s.f, BarX(s, salt, e, leaves[i - 1]), s.p.n)))
  }

  /** The verifier's running sums: weights r + w, the hidden leaf skipped, started from `start`. */
  function EvalX<B, E>(s: Scheme<B, E>, salt: Bytes, e: nat, leaves: seq<Bytes>, iStar: nat, start: seq<E>, i: nat): (r: seq<E>)
    requires Sized(s) && |salt| >= 3 && Seeds(s.p, leaves) && i <= |leaves| && |start| == s.p.n
    ensures |r| == s.p.n
  {
    if i == 0 then start
    else
      var before := EvalX(s, salt, e, leaves, iStar, start, i - 1);
      if i - 1 == iStar then before
      else VecAdd(s.f.ext, before,
                  Scale(s.f.ext, s.f.ext.Add(s.f.Point(iStar), s.f.Point(i - 1)),
                        Lift(s.f, BarX(s, salt, e, leaves[i - 1]), s.p.n)))
  }

  function EvalU<B, E>(s: Scheme<B, E>, salt: Bytes, e: nat, leaves: seq<Bytes>, iStar: nat, i: nat): (r: seq<E>)
    requires Sized(s) && |salt| >= 3 && Seeds(s.p, leaves) && i <= |leaves|
    ensures |r| == s.p.eta
  {
    if i == 0 then VecZero(s.f.ext, s.p.eta)
    else
      var before := EvalU(s, salt, e, leaves, iStar, i - 1);
      if i - 1 == iStar then before
      else VecAdd(s.f.ext, before,
                  Scale(s.f.ext, s.f.ext.Add(s.f.Point(iStar), s.f.Point(i - 1)), BarU(s, salt, e, leaves[i - 1])))
  }

  /** Both shares, u serialized, are all the bytes of a leaf: the seed and then its expansion. */
  lemma SharesTile<B(!new), E(!new)>(s: Scheme<B, E>, salt: Bytes, e: nat, seed: Bytes)
    requires ValidScheme(s) && |salt| >= 3 && |seed| == s.p.seedSize
    ensures BarX(s, salt, e, seed) + Encode(s.f, BarU(s, salt, e, seed))
         == seed + Prg.Expansion(s.p, salt, e, seed, s.XBytes() + s.EtaBytes() - s.p.seedSize)
  {
    hide FieldLaws;
    hide Prg.Expansion;
    hide Decode;
    hide Encode;
    var all := LeafBytes(s, salt, e, seed);
    EncodeDecode(s.f, all[s.XBytes()..], s.p.eta);
    assert all[s.XBytes()..][..s.EtaBytes()] == all[s.XBytes()..];
  }

  /** The evaluation points of the first i leaves. */
  function Points<B, E>(s: Scheme<B, E>, i: nat): (w: seq<E>)
    ensures |w| == i
  {
    seq(i, k requires 0 <= k < i => s.f.Point(k))
  }

  /** Coordinate k of the share of x of every leaf. */
  function SharesOfX<B, E>(s: Scheme<B, E>, salt: Bytes, e: nat, leaves: seq<Bytes>, k: nat): (c: seq<E>)
    requires Sized(s) && |salt| >= 3 && Seeds(s.p, leaves) && k < s.p.n
    ensures |c| == |leaves|
  {
    seq(|leaves|, i requires 0 <= i < |leaves| => Lift(s.f, BarX(s, salt, e, leaves[i]), s.p.n)[k])
  }

  /** Coordinate k of the share of u of every leaf. */
  function SharesOfU<B, E>(s: Scheme<B, E>, salt: Bytes, e: nat, leaves: seq<Bytes>, k: nat): (c: seq<E>)
    requires Sized(s) && |salt| >= 3 && Seeds(s.p, leaves) && k < s.p.eta
    ensures |c| == |leaves|
  {
    seq(|leaves|, i requires 0 <= i < |leaves| => BarU(s, salt, e, leaves[i])[k])
  }

  /** Every coordinate of the signer's offset for x is the inner product of the points and the shares. */
  lemma {:induction false} WeightedXIsDot<B, E>(s: Scheme<B, E>, salt: Bytes, e: nat, leaves: seq<Bytes>, i: nat, k: nat)
    requires Sized(s) && |salt| >= 3 && Seeds(s.p, leaves) && i <= |leaves| && k < s.p.n
    ensures WeightedX(s, salt, e, leaves, i)[k] == Dot(s.f.ext, Points(s, |leaves|), SharesOfX(s, salt, e, leaves, k), i)
  {
    hide BarX;
    hide Lift;
    if i > 0 {
      WeightedXIsDot(s, salt, e, leaves, i - 1, k);
    }
  }

  /** So is that for u. */
  lemma {:induction false} WeightedUIsDot<B, E>(s: Scheme<B, E>, salt: Bytes, e: nat, leaves: seq<Bytes>, i: nat, k: nat)
    requires Sized(s) && |salt| >= 3 && Seeds(s.p, leaves) && i <= |leaves| && k < s.p.eta
    ensures WeightedU(s, salt, e, leaves, i)[k] == Dot(s.f.ext, Points(s, |leaves|), SharesOfU(s, salt, e, leaves, k), i)
  {
    hide BarU;
    if i > 0 {
      WeightedUIsDot(s, salt, e, leaves, i - 1, k);
    }
  }

  /** The slope of the line for u is the sum of the shares. */
  lemma {:induction false} SumUIsDot<B(!new), E(!new)>(s: Scheme<B, E>, salt: Bytes, e: nat, leaves: seq<Bytes>, i: nat, k: nat)
    requires ValidScheme(s) && |salt| >= 3 && Seeds(s.p, leaves) && i <= |leaves| && k < s.p.eta
    ensures SumU(s, salt, e, leaves, i)[k]
         == Dot(s.f.ext, seq(|leaves|, j => s.f.ext.one), SharesOfU(s, salt, e, leaves, k), i)
  {
    hide BarU;
    hide FieldLaws;
    if i > 0 {
      SumUIsDot(s, salt, e, leaves, i - 1, k);
      ExtRing(s);
      MulOne(s.f.ext, SharesOfU(s, salt, e, leaves, k)[i - 1]);
    }
  }

  /** Skipping the hidden leaf loses nothing: its weight r + w is zero. */
  lemma {:induction false} EvalULine<B(!new), E(!new)>(s: Scheme<B, E>, salt: Bytes, e: nat, leaves: seq<Bytes>, known: seq<Bytes>, iStar: nat, i: nat)
    requires ValidScheme(s) && |salt| >= 3 && Seeds(s.p, leaves) && Seeds(s.p, known) && |leaves| == |known| && i <= |leaves|
    requires forall k | 0 <= k < |leaves| && k != iStar :: known[k] == leaves[k]
    ensures EvalU(s, salt, e, known, iStar, i)
         == Line(s.f.ext, WeightedU(s, salt, e, leaves, i), SumU(s, salt, e, leaves, i), s.f.Point(iStar))
  {
    hide BarU;
    hide FieldLaws;
    hide Char2Ring;
    var R, r := s.f.ext, s.f.Point(iStar);
    ExtRing(s);
    if i == 0 {
      LineOfZeros(R, s.p.eta, r);
    } else {
      EvalULine(s, salt, e, leaves, known, iStar, i - 1);
      var b := BarU(s, salt, e, leaves[i - 1]);
      if i - 1 == iStar {
        LineHidden(R, WeightedU(s, salt, e, leaves, i - 1), SumU(s, salt, e, leaves, i - 1), b, r);
      } else {
        LineExtend(R, WeightedU(s, salt, e, leaves, i - 1), SumU(s, salt, e, leaves, i - 1), b, s.f.Point(i - 1), r);
      }
    }
  }

  lemma ExtRing<B(!new), E(!new)>(s: Scheme<B, E>)
    requires ValidScheme(s)
    ensures Char2Ring(s.f.ext)
  {
  }

  lemma LineOfZeros<T(!new)>(R: Ring<T>, n: nat, r: T)
    requires Char2Ring(R)
    ensures Line(R, VecZero(R, n), VecZero(R, n), r) == VecZero(R, n)
  {
    MulZero(R, r);
    AddSelf(R, R.zero);
  }

  /** The verifier's x sum is its start plus the signer's line with the plain sum of shares as slope. */
  lemma {:induction false} EvalXLine<B(!new), E(!new)>(s: Scheme<B, E>, salt: Bytes, e: nat, leaves: seq<Bytes>, known: seq<Bytes>, iStar: nat, start: seq<E>, i: nat)
    requires ValidScheme(s) && |salt| >= 3 && Seeds(s.p, leaves) && Seeds(s.p, known) && |leaves| == |known| && i <= |leaves|
    requires forall k | 0 <= k < |leaves| && k != iStar :: known[k] == leaves[k]
    requires |start| == s.p.n
    ensures EvalX(s, salt, e, known, iStar, start, i)
         == VecAdd(s.f.ext, start, Line(s.f.ext, WeightedX(s, salt, e, leaves, i),
                                        Lift(s.f, SumX(s, salt, e, leaves, i), s.p.n), s.f.Point(iStar)))
  {
    hide BarX;
    hide Lift;
    hide Xor;
    hide FieldLaws;
    hide Char2Ring;
    var R, r := s.f.ext, s.f.Point(iStar);
    ExtRing(s);
    if i == 0 {
      LiftZeros(s);
      LineOfZeros(R, s.p.n, r);
      VecAddZero(R, start);
    } else {
      EvalXLine(s, salt, e, leaves, known, iStar, start, i - 1);
      var share := BarX(s, salt, e, leaves[i - 1]);
      var a, c, b := WeightedX(s, salt, e, leaves, i - 1), Lift(s.f, SumX(s, salt, e, leaves, i - 1), s.p.n), Lift(s.f, share, s.p.n);
      LiftXor(s.f, SumX(s, salt, e, leaves, i - 1), share, s.p.n);
      if i - 1 == iStar {
        LineHidden(R, a, c, b, r);
      } else {
        StartedLine(R, start, a, c, b, s.f.Point(i - 1), r);
      }
    }
  }

  lemma StartedLine<T(!new)>(R: Ring<T>, start: seq<T>, a: seq<T>, c: seq<T>, b: seq<T>, w: T, r: T)
    requires Char2Ring(R) && |start| == |a| == |c| == |b|
    ensures VecAdd(R, start, Line(R, VecAdd(R, a, Scale(R, w, b)), VecAdd(R, c, b), r))
         == VecAdd(R, VecAdd(R, start, Line(R, a, c, r)), Scale(R, R.Add(r, w), b))
  {
    LineExtend(R, a, c, b, w, r);
    VecAddAssoc(R, start, Line(R, a, c, r), Scale(R, R.Add(r, w), b));
  }

  lemma LiftZeros<B(!new), E(!new)>(s: Scheme<B, E>)
    requires ValidScheme(s)
    ensures Lift(s.f, Zeros(s.XBytes()), s.p.n) == VecZero(s.f.ext, s.p.n)
  {
    var z := Zeros(s.XBytes());
    XorSelf(z);
    LiftXor(s.f, z, z, s.p.n);
    var l := Lift(s.f, z, s.p.n);
    forall k | 0 <= k < s.p.n ensures l[k] == s.f.ext.zero {
      AddSelf(s.f.ext, l[k]);
      assert l == VecAdd(s.f.ext, l, l);
    }
  }

  // ---- the signer ----

  /** What the signer commits with. */
  datatype Secret = Secret(mseed: Bytes, salt: Bytes, x: Bytes)

  ghost predicate ValidSecret<B, E>(s: Scheme<B, E>, c: Secret) {
    && Sized(s)
    && |c.mseed| == s.p.seedSize && |c.salt| == s.p.saltSize && |c.x| == s.XBytes()
  }

  function RootSeeds(p: Params, mseed: Bytes): (r: seq<Bytes>)
    requires p.Valid() && |mseed| == p.seedSize
    ensures |r| == p.tau && AllLength(r, p.seedSize)
  {
    Pieces(Prg.Expansion(p, Zeros(p.saltSize), 0, mseed, p.tau * p.seedSize), p.seedSize, p.tau)
  }

  /** The tree of repetition e; its delta is the first seedSize bytes of x. */
  function TreeOf<B, E>(s: Scheme<B, E>, c: Secret, e: nat): (t: Tree)
    requires ValidSecret(s, c) && e < s.p.tau
    ensures t.Valid() && t.p == s.p && t.salt == c.salt && t.e == e && t.delta == c.x[..s.p.seedSize]
  {
    Tree(s.p, c.salt, RootSeeds(s.p, c.mseed)[e], c.x[..s.p.seedSize], e)
  }

  function LeavesOf<B, E>(s: Scheme<B, E>, c: Secret, e: nat): (r: seq<Bytes>)
    requires ValidSecret(s, c) && e < s.p.tau
    ensures |r| == s.p.NbEvals() && Seeds(s.p, r)
  {
    TreeOf(s, c, e).Leaves()
  }

  /** x corrected by the sum of all shares. */
  function DeltaX<B, E>(s: Scheme<B, E>, c: Secret, e: nat): (r: Bytes)
    requires ValidSecret(s, c) && e < s.p.tau
    ensures |r| == s.XBytes()
  {
    Xor(c.x, SumX(s, c.salt, e, LeavesOf(s, c, e), s.p.NbEvals()))
  }

  /** The part of the correction that is sent. */
  function PartialDelta<B, E>(s: Scheme<B, E>, c: Secret, e: nat): (r: Bytes)
    requires ValidSecret(s, c) && e < s.p.tau
    ensures |r| == s.XBytes() - s.p.seedSize
  {
    DeltaX(s, c, e)[s.p.seedSize..]
  }

  function LeafComs(p: Params, salt: Bytes, e: nat, leaves: seq<Bytes>): (r: seq<Bytes>)
    requires p.Valid() && |salt| >= 3 && Seeds(p, leaves)
    ensures |r| == |leaves| && AllLength(r, p.DigestSize())
  {
    seq(|leaves|, i requires 0 <= i < |leaves| => SeedCommit(p, salt, e, leaves[i]))
  }

  /** The digest of all leaf commitments of one repetition. */
  function HashComs(p: Params, coms: seq<Bytes>): (h: Bytes)
    ensures |h| == p.DigestSize()
  {
    p.Hash(6, Concat(coms))
  }

  function Com1(p: Params, hashes: seq<Bytes>, deltas: seq<Bytes>): (h: Bytes)
    ensures |h| == p.DigestSize()
  {
    p.Hash(7, Concat(hashes) + Concat(deltas))
  }

  function SignerHashes<B, E>(s: Scheme<B, E>, c: Secret): (r: seq<Bytes>)
    requires ValidSecret(s, c)
    ensures |r| == s.p.tau
  {
    seq(s.p.tau, e requires 0 <= e < s.p.tau => HashComs(s.p, LeafComs(s.p, c.salt, e, LeavesOf(s, c, e))))
  }

  function SignerDeltas<B, E>(s: Scheme<B, E>, c: Secret): (r: seq<Bytes>)
    requires ValidSecret(s, c)
    ensures |r| == s.p.tau && AllLength(r, s.XBytes() - s.p.seedSize)
  {
    seq(s.p.tau, e requires 0 <= e < s.p.tau => PartialDelta(s, c, e))
  }

  function SignerCom1<B, E>(s: Scheme<B, E>, c: Secret): (h: Bytes)
    requires ValidSecret(s, c)
    ensures |h| == s.p.DigestSize()
  {
    Com1(s.p, SignerHashes(s, c), SignerDeltas(s, c))
  }

  function X0<B, E>(s: Scheme<B, E>, c: Secret, e: nat): (r: seq<E>)
    requires ValidSecret(s, c) && e < s.p.tau
    ensures |r| == s.p.n
  {
    WeightedX(s, c.salt, e, LeavesOf(s, c, e), s.p.NbEvals())
  }

  function U0<B, E>(s: Scheme<B, E>, c: Secret, e: nat): (r: seq<E>)
    requires ValidSecret(s, c) && e < s.p.tau
    ensures |r| == s.p.eta
  {
    WeightedU(s, c.salt, e, LeavesOf(s, c, e), s.p.NbEvals())
  }

  function U1<B, E>(s: Scheme<B, E>, c: Secret, e: nat): (r: seq<E>)
    requires ValidSecret(s, c) && e < s.p.tau
    ensures |r| == s.p.eta
  {
    SumU(s, c.salt, e, LeavesOf(s, c, e), s.p.NbEvals())
  }

  /** The shares start with the leaf seeds, so their sum starts with the sum of the leaves. */
  lemma {:induction false} SumXHead<B, E>(s: Scheme<B, E>, c: Secret, e: nat, i: nat)
    requires ValidSecret(s, c) && e < s.p.tau && i <= s.p.NbEvals()
    ensures SumX(s, c.salt, e, LeavesOf(s, c, e), i)[..s.p.seedSize] == NodeXor(TreeOf(s, c, e), s.p.NbEvals(), i)
  {
    hide BarX;
    hide Xor;
    hide Tree.Node;
    hide TreeOf;
    var k := s.p.seedSize;
    if i == 0 {
      assert Zeros(s.XBytes())[..k] == Zeros(k);
    } else {
      SumXHead(s, c, e, i - 1);
      var leaf := LeavesOf(s, c, e)[i - 1];
      XorHead(SumX(s, c.salt, e, LeavesOf(s, c, e), i - 1), BarX(s, c.salt, e, leaf), k);
      assert leaf == TreeOf(s, c, e).Node(s.p.NbEvals() + i - 1);
    }
  }

  lemma XorHead(a: Bytes, b: Bytes, k: nat)
    requires |a| == |b| && k <= |a|
    ensures Xor(a, b)[..k] == Xor(a[..k], b[..k])
  {
  }

  /** The correction of x is zero on its first seedSize bytes, in every repetition. */
  lemma DeltaXHead<B, E>(s: Scheme<B, E>, c: Secret, e: nat)
    requires ValidSecret(s, c) && e < s.p.tau
    ensures DeltaX(s, c, e) == Zeros(s.p.seedSize) + PartialDelta(s, c, e)
  {
    hide Xor;
    hide SumX;
    hide NodeXor;
    hide LeavesOf;
    var k := s.p.seedSize;
    var sum := SumX(s, c.salt, e, LeavesOf(s, c, e), s.p.NbEvals());
    SumXHead(s, c, e, s.p.NbEvals());
    LevelXor(TreeOf(s, c, e), s.p.log);
    XorHead(c.x, sum, k);
    XorSelf(c.x[..k]);
    var d := DeltaX(s, c, e);
    assert d == d[..k] + d[k..];
  }

  // ---- opening and evaluation ----

  ghost predicate ValidChallenge(p: Params, iStar: seq<nat>) {
    |iStar| == p.tau && forall e | 0 <= e < p.tau :: iStar[e] < p.NbEvals()
  }

  function PathBytes<B, E>(s: Scheme<B, E>, c: Secret, e: nat, iStar: nat): (r: Bytes)
    requires ValidSecret(s, c) && e < s.p.tau && iStar < s.p.NbEvals()
    ensures |r| == s.p.log * s.p.seedSize
  {
    ConcatLength(TreeOf(s, c, e).Path(iStar), s.p.seedSize);
    Concat(TreeOf(s, c, e).Path(iStar))
  }

  function OpenedPaths<B, E>(s: Scheme<B, E>, c: Secret, iStar: seq<nat>): (r: seq<Bytes>)
    requires ValidSecret(s, c) && ValidChallenge(s.p, iStar)
    ensures |r| == s.p.tau && AllLength(r, s.p.log * s.p.seedSize)
  {
    seq(s.p.tau, e requires 0 <= e < s.p.tau => PathBytes(s, c, e, iStar[e]))
  }

  function OpenedComs<B, E>(s: Scheme<B, E>, c: Secret, iStar: seq<nat>): (r: seq<Bytes>)
    requires ValidSecret(s, c) && ValidChallenge(s.p, iStar)
    ensures |r| == s.p.tau && AllLength(r, s.p.DigestSize())
  {
    seq(s.p.tau, e requires 0 <= e < s.p.tau =>
      SeedCommit(s.p, c.salt, e, LeavesOf(s, c, e)[iStar[e]]))
  }

  function OpeningSize<B, E>(s: Scheme<B, E>): nat
    requires Sized(s)
  {
    s.p.tau * (s.XBytes() - s.p.seedSize + s.p.log * s.p.seedSize + s.p.DigestSize())
  }

  /** All paths, then all commitments to hidden leaves, then all corrections. */
  function Opening<B, E>(s: Scheme<B, E>, c: Secret, iStar: seq<nat>): (r: Bytes)
    requires ValidSecret(s, c) && ValidChallenge(s.p, iStar)
  {
    Concat(OpenedPaths(s, c, iStar)) + Concat(OpenedComs(s, c, iStar)) + Concat(SignerDeltas(s, c))
  }

  function ComOffset(p: Params): nat { p.tau * (p.log * p.seedSize) }

  function DeltaOffset(p: Params): nat { p.tau * (p.log * p.seedSize) + p.tau * p.DigestSize() }

  lemma OffsetsFit<B, E>(s: Scheme<B, E>)
    requires Sized(s)
    ensures DeltaOffset(s.p) + s.p.tau * (s.XBytes() - s.p.seedSize) == OpeningSize(s)
    ensures DeltaOffset(s.p) == s.p.tau * (s.p.seedSize * s.p.log + s.p.DigestSize())
    ensures ComOffset(s.p) == s.p.tau * s.p.seedSize * s.p.log
  {
  }

  /** The three sections of an opening as the verifier slices it. */
  function ReadPaths<B, E>(s: Scheme<B, E>, opening: Bytes): (r: seq<Bytes>)
    requires Sized(s) && |opening| == OpeningSize(s)
    ensures |r| == s.p.tau && AllLength(r, s.p.log * s.p.seedSize)
  {
    OffsetsFit(s);
    Pieces(opening, s.p.log * s.p.seedSize, s.p.tau)
  }

  function ReadComs<B, E>(s: Scheme<B, E>, opening: Bytes): (r: seq<Bytes>)
    requires Sized(s) && |opening| == OpeningSize(s)
    ensures |r| == s.p.tau && AllLength(r, s.p.DigestSize())
  {
    OffsetsFit(s);
    Pieces(opening[ComOffset(s.p)..], s.p.DigestSize(), s.p.tau)
  }

  function ReadDeltas<B, E>(s: Scheme<B, E>, opening: Bytes): (r: seq<Bytes>)
    requires Sized(s) && |opening| == OpeningSize(s)
    ensures |r| == s.p.tau && AllLength(r, s.XBytes() - s.p.seedSize)
  {
    OffsetsFit(s);
    Pieces(opening[DeltaOffset(s.p)..], s.XBytes() - s.p.seedSize, s.p.tau)
  }

  /** An opening is read back section by section. */
  lemma OpeningReads<B, E>(s: Scheme<B, E>, c: Secret, iStar: seq<nat>)
    requires ValidSecret(s, c) && ValidChallenge(s.p, iStar)
    ensures |Opening(s, c, iStar)| == OpeningSize(s)
    ensures ReadPaths(s, Opening(s, c, iStar)) == OpenedPaths(s, c, iStar)
    ensures ReadComs(s, Opening(s, c, iStar)) == OpenedComs(s, c, iStar)
    ensures ReadDeltas(s, Opening(s, c, iStar)) == SignerDeltas(s, c)
  {
    hide OpenedPaths;
    hide OpenedComs;
    hide SignerDeltas;
    hide Pieces;
    hide Concat;
    var a, b, d := OpenedPaths(s, c, iStar), OpenedComs(s, c, iStar), SignerDeltas(s, c);
    OffsetsFit(s);
    ConcatLength(a, s.p.log * s.p.seedSize);
    ConcatLength(b, s.p.DigestSize());
    ConcatLength(d, s.XBytes() - s.p.seedSize);
    var o := Opening(s, c, iStar);
    assert o == Concat(a) + (Concat(b) + Concat(d));
    PiecesOfConcat(a, s.p.log * s.p.seedSize, Concat(b) + Concat(d));
    assert o[ComOffset(s.p)..] == Concat(b) + Concat(d);
    PiecesOfConcat(b, s.p.DigestSize(), Concat(d));
    assert o[DeltaOffset(s.p)..] == Concat(d) + [];
    PiecesOfConcat(d, s.XBytes() - s.p.seedSize, []);
  }

  /** The leaves the verifier rebuilds from one opened path. */
  function KnownLeaves<B, E>(s: Scheme<B, E>, salt: Bytes, e: nat, path: Bytes, iStar: nat): (r: seq<Bytes>)
    requires Sized(s) && |salt| == s.p.saltSize && |path| == s.p.log * s.p.seedSize && iStar < s.p.NbEvals()
    ensures |r| == s.p.NbEvals() && Seeds(s.p, r)
  {
    Punctured(s.p, salt, e, Pieces(path, s.p.seedSize, s.p.log), s.p.NbEvals() + iStar).Leaves()
  }

  /** The leaf commitments, the one of the hidden leaf taken from the opening. */
  function KnownComs<B, E>(s: Scheme<B, E>, salt: Bytes, e: nat, known: seq<Bytes>, com: Bytes, iStar: nat): (r: seq<Bytes>)
    requires Sized(s) && |salt| == s.p.saltSize && Seeds(s.p, known) && iStar < |known| && |com| == s.p.DigestSize()
    ensures |r| == |known| && AllLength(r, s.p.DigestSize())
  {
    LeafComs(s.p, salt, e, known)[iStar := com]
  }

  /** r times the correction, whose first seedSize bytes are taken to be zero. */
  function EvalStart<B, E>(s: Scheme<B, E>, delta: Bytes, iStar: nat): (r: seq<E>)
    requires Sized(s) && |delta| == s.XBytes() - s.p.seedSize
    ensures |r| == s.p.n
  {
    Scale(s.f.ext, s.f.Point(iStar), Lift(s.f, Zeros(s.p.seedSize) + delta, s.p.n))
  }

  function VerifierX<B, E>(s: Scheme<B, E>, salt: Bytes, opening: Bytes, iStar: seq<nat>, e: nat): (r: seq<E>)
    requires Sized(s) && |salt| == s.p.saltSize && |opening| == OpeningSize(s) && ValidChallenge(s.p, iStar) && e < s.p.tau
    ensures |r| == s.p.n
  {
    EvalX(s, salt, e, KnownLeaves(s, salt, e, ReadPaths(s, opening)[e], iStar[e]), iStar[e],
          EvalStart(s, ReadDeltas(s, opening)[e], iStar[e]), s.p.NbEvals())
  }

  function VerifierU<B, E>(s: Scheme<B, E>, salt: Bytes, opening: Bytes, iStar: seq<nat>, e: nat): (r: seq<E>)
    requires Sized(s) && |salt| == s.p.saltSize && |opening| == OpeningSize(s) && ValidChallenge(s.p, iStar) && e < s.p.tau
    ensures |r| == s.p.eta
  {
    EvalU(s, salt, e, KnownLeaves(s, salt, e, ReadPaths(s, opening)[e], iStar[e]), iStar[e], s.p.NbEvals())
  }

  function VerifierHash<B, E>(s: Scheme<B, E>, salt: Bytes, opening: Bytes, iStar: seq<nat>, e: nat): (h: Bytes)
    requires Sized(s) && |salt| == s.p.saltSize && |opening| == OpeningSize(s) && ValidChallenge(s.p, iStar) && e < s.p.tau
    ensures |h| == s.p.DigestSize()
  {
    HashComs(s.p, KnownComs(s, salt, e, KnownLeaves(s, salt, e, ReadPaths(s, opening)[e], iStar[e]),
                            ReadComs(s, opening)[e], iStar[e]))
  }

  function VerifierHashes<B, E>(s: Scheme<B, E>, salt: Bytes, opening: Bytes, iStar: seq<nat>): (r: seq<Bytes>)
    requires Sized(s) && |salt| == s.p.saltSize && |opening| == OpeningSize(s) && ValidChallenge(s.p, iStar)
    ensures |r| == s.p.tau
  {
    seq(s.p.tau, e requires 0 <= e < s.p.tau => VerifierHash(s, salt, opening, iStar, e))
  }

  /** The commitment the verifier recomputes. */
  function VerifierCom1<B, E>(s: Scheme<B, E>, salt: Bytes, opening: Bytes, iStar: seq<nat>): (h: Bytes)
    requires Sized(s) && |salt| == s.p.saltSize && |opening| == OpeningSize(s) && ValidChallenge(s.p, iStar)
    ensures |h| == s.p.DigestSize()
  {
    Com1(s.p, VerifierHashes(s, salt, opening, iStar), ReadDeltas(s, opening))
  }

  // ---- an honest opening ----

  /** From an honest path the verifier gets the signer's leaves, except the hidden one. */
  lemma HonestKnownLeaves<B, E>(s: Scheme<B, E>, c: Secret, e: nat, iStar: nat)
    requires ValidSecret(s, c) && e < s.p.tau && iStar < s.p.NbEvals()
    ensures KnownLeaves(s, c.salt, e, PathBytes(s, c, e, iStar), iStar) == LeavesOf(s, c, e)[iStar := Zeros(s.p.seedSize)]
  {
    hide TreeOf;
    hide Tree.Node;
    hide Punctured.Leaves;
    hide Tree.Leaves;
    var t := TreeOf(s, c, e);
    PiecesOfConcat(t.Path(iStar), s.p.seedSize, []);
    assert PathBytes(s, c, e, iStar) + [] == PathBytes(s, c, e, iStar);
    HonestLeaves(t, iStar);
  }

  lemma ReadEntry<B, E>(s: Scheme<B, E>, c: Secret, iStar: seq<nat>, e: nat)
    requires ValidSecret(s, c) && ValidChallenge(s.p, iStar) && e < s.p.tau
    ensures |Opening(s, c, iStar)| == OpeningSize(s)
    ensures ReadPaths(s, Opening(s, c, iStar))[e] == PathBytes(s, c, e, iStar[e])
    ensures ReadComs(s, Opening(s, c, iStar))[e] == SeedCommit(s.p, c.salt, e, LeavesOf(s, c, e)[iStar[e]])
    ensures ReadDeltas(s, Opening(s, c, iStar))[e] == PartialDelta(s, c, e)
  {
    hide PathBytes;
    hide SeedCommit;
    hide PartialDelta;
    hide Opening;
    hide ReadPaths;
    hide ReadComs;
    hide ReadDeltas;
    OpeningReads(s, c, iStar);
  }

  lemma HonestHash<B, E>(s: Scheme<B, E>, c: Secret, iStar: seq<nat>, e: nat)
    requires ValidSecret(s, c) && ValidChallenge(s.p, iStar) && e < s.p.tau
    ensures |Opening(s, c, iStar)| == OpeningSize(s)
    ensures VerifierHash(s, c.salt, Opening(s, c, iStar), iStar, e) == SignerHashes(s, c)[e]
  {
    hide PathBytes;
    hide SeedCommit;
    hide PartialDelta;
    hide Opening;
    hide ReadPaths;
    hide ReadComs;
    hide ReadDeltas;
    hide KnownLeaves;
    hide LeavesOf;
    hide HashComs;
    ReadEntry(s, c, iStar, e);
    HonestKnownLeaves(s, c, e, iStar[e]);
    var leaves, i := LeavesOf(s, c, e), iStar[e];
    var known := leaves[i := Zeros(s.p.seedSize)];
    assert KnownComs(s, c.salt, e, known, SeedCommit(s.p, c.salt, e, leaves[i]), i) == LeafComs(s.p, c.salt, e, leaves);
  }

  /** The verifier recomputes exactly the signer's commitment, for every challenge. */
  lemma HonestCom1<B, E>(s: Scheme<B, E>, c: Secret, iStar: seq<nat>)
    requires ValidSecret(s, c) && ValidChallenge(s.p, iStar)
    ensures |Opening(s, c, iStar)| == OpeningSize(s)
    ensures VerifierCom1(s, c.salt, Opening(s, c, iStar), iStar) == SignerCom1(s, c)
  {
    hide Opening;
    hide SignerHashes;
    hide SignerDeltas;
    hide ReadDeltas;
    hide VerifierHash;
    hide Com1;
    OpeningReads(s, c, iStar);
    forall e | 0 <= e < s.p.tau
      ensures VerifierHashes(s, c.salt, Opening(s, c, iStar), iStar)[e] == SignerHashes(s, c)[e]
    {
      HonestHash(s, c, iStar, e);
    }
    assert VerifierHashes(s, c.salt, Opening(s, c, iStar), iStar) == SignerHashes(s, c);
  }

  /** r delta_x + (X0 + r acc) = X0 + r x when delta_x = x + acc. */
  lemma CorrectedLine<B(!new), E(!new)>(s: Scheme<B, E>, x: Bytes, acc: Bytes, x0: seq<E>, r: E)
    requires ValidScheme(s) && |x| == |acc| == s.XBytes() && |x0| == s.p.n
    ensures VecAdd(s.f.ext, Scale(s.f.ext, r, Lift(s.f, Xor(x, acc), s.p.n)), Line(s.f.ext, x0, Lift(s.f, acc, s.p.n), r))
         == Line(s.f.ext, x0, Lift(s.f, x, s.p.n), r)
  {
    hide Char2Ring;
    hide Xor;
    hide Lift;
    var R := s.f.ext;
    var lx, la := Lift(s.f, x, s.p.n), Lift(s.f, acc, s.p.n);
    LiftXor(s.f, x, acc, s.p.n);
    forall k | 0 <= k < s.p.n
      ensures R.Add(R.Mul(r, R.Add(lx[k], la[k])), R.Add(x0[k], R.Mul(r, la[k]))) == R.Add(x0[k], R.Mul(r, lx[k]))
    {
      CorrectionCancels(R, r, lx[k], la[k], x0[k]);
    }
  }

  lemma CorrectionCancels<T(!new)>(R: Ring<T>, r: T, x: T, a: T, o: T)
    requires Char2Ring(R)
    ensures R.Add(R.Mul(r, R.Add(x, a)), R.Add(o, R.Mul(r, a))) == R.Add(o, R.Mul(r, x))
  {
    Distribute(R, r, x, a);
    AddComm(R, o, R.Mul(r, a));
    AddAssoc(R, R.Mul(r, x), R.Mul(r, a), R.Add(R.Mul(r, a), o));
    AddCancel(R, o, R.Mul(r, a));
    AddComm(R, R.Mul(r, x), o);
  }

  /** The verifier evaluates the signer's lines: x0 + r x and u0 + r u1, in every repetition. */
  lemma HonestLines<B(!new), E(!new)>(s: Scheme<B, E>, c: Secret, iStar: seq<nat>, e: nat)
    requires ValidScheme(s) && ValidSecret(s, c) && ValidChallenge(s.p, iStar) && e < s.p.tau
    ensures |Opening(s, c, iStar)| == OpeningSize(s)
    ensures VerifierX(s, c.salt, Opening(s, c, iStar), iStar, e)
         == Line(s.f.ext, X0(s, c, e), Lift(s.f, c.x, s.p.n), s.f.Point(iStar[e]))
    ensures VerifierU(s, c.salt, Opening(s, c, iStar), iStar, e)
         == Line(s.f.ext, U0(s, c, e), U1(s, c, e), s.f.Point(iStar[e]))
  {
    hide PathBytes;
    hide SeedCommit;
    hide PartialDelta;
    hide Opening;
    hide ReadPaths;
    hide ReadComs;
    hide ReadDeltas;
    hide KnownLeaves;
    hide LeavesOf;
    hide Xor;
    hide Lift;
    hide FieldLaws;
    hide SumX;
    hide SumU;
    hide WeightedX;
    hide WeightedU;
    hide EvalX;
    hide EvalU;
    hide Line;
    var i, leaves, nb := iStar[e], LeavesOf(s, c, e), s.p.NbEvals();
    var known := leaves[i := Zeros(s.p.seedSize)];
    ReadEntry(s, c, iStar, e);
    HonestKnownLeaves(s, c, e, i);
    EvalULine(s, c.salt, e, leaves, known, i, nb);
    DeltaXHead(s, c, e);
    var start := Scale(s.f.ext, s.f.Point(i), Lift(s.f, DeltaX(s, c, e), s.p.n));
    EvalXLine(s, c.salt, e, leaves, known, i, start, nb);
    CorrectedLine(s, c.x, SumX(s, c.salt, e, leaves, nb), X0(s, c, e), s.f.Point(i));
  }
}
