/**
 * The loops of the batched line commitment: commit, open and evaluate, with the leaf
 * commitments of several repetitions waiting in a ring of buffers for the batched XOF.
 */
module BlcProcedures {
  import opened ByteStrings
  import opened Naturals
  import opened Layout
  import opened Algebra
  import opened Fields
  import opened Common
  import opened Schemes
  import opened GgmTree
  import opened Blc
  import Trees = GgmTreeProcedures
  import Prg

  // ---- commitments to leaves ----

  method CommitKeys(p: Params, salt: Bytes, e: nat) returns (ctx1: EncCtx, ctx2: EncCtx)
    requires |salt| >= 3
    ensures ctx1 == CommitCtx1(p, salt, e) && ctx2 == CommitCtx2(p, salt, e)
  {
    hide TweakSalt;
    var tweaked := TweakSalt(salt, 0, e, 0);
    ctx1 := p.KeySched(tweaked);
    tweaked := tweaked[0 := tweaked[0].Plus(Truncate(1))];
    ctx2 := p.KeySched(tweaked);
  }

  method CommitSeed(p: Params, ghost salt: Bytes, ghost e: nat, ctx1: EncCtx, ctx2: EncCtx, seed: Bytes) returns (com: Bytes)
    requires p.Valid() && |salt| >= 3 && |seed| == p.seedSize
    requires ctx1 == CommitCtx1(p, salt, e) && ctx2 == CommitCtx2(p, salt, e)
    ensures com == SeedCommit(p, salt, e, seed)
  {
    hide Xor;
    hide LinOrtho;
    hide CommitCtx1;
    hide CommitCtx2;
    var lin := LinOrtho(seed);
    com := Xor(p.Encrypt(ctx1, seed), lin) + Xor(p.Encrypt(ctx2, seed), lin);
  }

  method CommitSeedX2(p: Params, ghost salt: Bytes, ghost e: nat, ctx1: EncCtx, ctx2: EncCtx, seed1: Bytes, seed2: Bytes)
    returns (com1: Bytes, com2: Bytes)
    requires p.Valid() && |salt| >= 3 && |seed1| == |seed2| == p.seedSize
    requires ctx1 == CommitCtx1(p, salt, e) && ctx2 == CommitCtx2(p, salt, e)
    ensures com1 == SeedCommit(p, salt, e, seed1) && com2 == SeedCommit(p, salt, e, seed2)
  {
    hide Xor;
    hide LinOrtho;
    hide CommitCtx1;
    hide CommitCtx2;
    var lin1, lin2 := LinOrtho(seed1), LinOrtho(seed2);
    com1 := Xor(p.Encrypt(ctx1, seed1), lin1) + Xor(p.Encrypt(ctx2, seed1), lin1);
    com2 := Xor(p.Encrypt(ctx1, seed2), lin2) + Xor(p.Encrypt(ctx2, seed2), lin2);
  }

  /** The cache in use for one repetition is fit for the expansion of its leaves. */
  ghost predicate LeafCache<B, E>(s: Scheme<B, E>, salt: Bytes, e: nat, cache: Prg.KeyCache?)
    requires Sized(s) && |salt| >= 3
    reads Prg.Footprint(cache)
  {
    Prg.Serves(cache, s.p, salt, e, CeilDiv(PrgBytes(s), s.p.seedSize))
  }

  /** Fills the buffer with a leaf seed and its expansion. */
  method ExpandLeaf<B, E>(s: Scheme<B, E>, salt: Bytes, e: nat, seed: Bytes, exp: array<Byte>, cache: Prg.KeyCache?)
    requires Sized(s) && |salt| >= 3 && |seed| == s.p.seedSize
    requires exp.Length == s.XBytes() + s.EtaBytes()
    requires LeafCache(s, salt, e, cache)
    modifies exp, Prg.Footprint(cache)
    ensures exp[..] == LeafBytes(s, salt, e, seed)
    ensures LeafCache(s, salt, e, cache)
  {
    hide Prg.Expansion;
    Store(exp, 0, seed);
    ghost var before := exp[..];
    var ret := Prg.Expand(s.p, salt, e, seed, PrgBytes(s), exp, s.p.seedSize, cache);
    assert before[..s.p.seedSize] == seed;
  }

  ghost function PairsOfLeaves(p: Params): (pairs: nat)
    requires p.Valid()
    ensures p.NbEvals() == 2 * pairs
  {
    Pow2(p.log - 1)
  }

  // ---- the signer's sums ----

  datatype Sums<E> = Sums(accX: Bytes, x0: seq<E>, u0: seq<E>, u1: seq<E>)

  ghost predicate SumsOf<B, E>(s: Scheme<B, E>, salt: Bytes, e: nat, leaves: seq<Bytes>, i: nat, a: Sums<E>)
    requires Sized(s) && |salt| >= 3 && Seeds(s.p, leaves) && i <= |leaves|
  {
    && a.accX == SumX(s, salt, e, leaves, i)
    && a.x0 == WeightedX(s, salt, e, leaves, i)
    && a.u0 == WeightedU(s, salt, e, leaves, i)
    && a.u1 == SumU(s, salt, e, leaves, i)
  }

  method AddLeaf<B, E>(s: Scheme<B, E>, salt: Bytes, e: nat, ghost leaves: seq<Bytes>, seed: Bytes, i: nat,
                       exp: array<Byte>, cache: Prg.KeyCache?, a: Sums<E>) returns (r: Sums<E>)
    requires Sized(s) && |salt| >= 3 && Seeds(s.p, leaves) && i < |leaves| && seed == leaves[i]
    requires exp.Length == s.XBytes() + s.EtaBytes()
    requires LeafCache(s, salt, e, cache) && SumsOf(s, salt, e, leaves, i, a)
    modifies exp, Prg.Footprint(cache)
    ensures LeafCache(s, salt, e, cache) && SumsOf(s, salt, e, leaves, i + 1, r)
  {
    hide Xor;
    hide Lift;
    hide Decode;
    hide LeafBytes;
    ExpandLeaf(s, salt, e, seed, exp, cache);
    var w := s.f.Point(i);
    var barU := Decode(s.f, exp[s.XBytes()..], s.p.eta);
    var u1 := VecAdd(s.f.ext, a.u1, barU);
    var u0 := VecAdd(s.f.ext, a.u0, Scale(s.f.ext, w, barU));
    var barX := exp[..s.XBytes()];
    var accX := Xor(a.accX, barX);
    var x0 := VecAdd(s.f.ext, a.x0, Scale(s.f.ext, w, Lift(s.f, barX, s.p.n)));
    r := Sums(accX, x0, u0, u1);
  }

  /** Accumulates the shares of a pair of leaves, one by one. */
  method AddPair<B, E>(s: Scheme<B, E>, salt: Bytes, e: nat, ghost leaves: seq<Bytes>, seed1: Bytes, seed2: Bytes, i: nat,
                       exp: array<Byte>, cache: Prg.KeyCache?, a: Sums<E>) returns (r: Sums<E>)
    requires Sized(s) && |salt| >= 3 && Seeds(s.p, leaves) && i + 2 <= |leaves|
    requires seed1 == leaves[i] && seed2 == leaves[i + 1]
    requires exp.Length == s.XBytes() + s.EtaBytes()
    requires LeafCache(s, salt, e, cache) && SumsOf(s, salt, e, leaves, i, a)
    modifies exp, Prg.Footprint(cache)
    ensures LeafCache(s, salt, e, cache) && SumsOf(s, salt, e, leaves, i + 2, r)
  {
    hide SumsOf;
    hide LeafCache;
    r := a;
    for i' := 0 to 2
      invariant LeafCache(s, salt, e, cache) && SumsOf(s, salt, e, leaves, i + i', r)
    {
      r := AddLeaf(s, salt, e, leaves, if i' == 0 then seed1 else seed2, i + i', exp, cache, r);
    }
  }

  /** The first i leaves are committed to and accumulated. */
  ghost predicate Committed<B, E>(s: Scheme<B, E>, salt: Bytes, e: nat, leaves: seq<Bytes>, i: nat, coms: seq<Bytes>, a: Sums<E>)
    requires Sized(s) && |salt| >= 3 && Seeds(s.p, leaves)
  {
    && |coms| == i <= |leaves|
    && (forall j | 0 <= j < i :: coms[j] == SeedCommit(s.p, salt, e, leaves[j]))
    && SumsOf(s, salt, e, leaves, i, a)
  }

  method CommitPair<B, E>(s: Scheme<B, E>, salt: Bytes, e: nat, ctx1: EncCtx, ctx2: EncCtx, ghost leaves: seq<Bytes>,
                          seed1: Bytes, seed2: Bytes, i: nat, exp: array<Byte>, cache: Prg.KeyCache?,
                          coms: seq<Bytes>, a: Sums<E>)
    returns (coms': seq<Bytes>, a': Sums<E>)
    requires Sized(s) && |salt| >= 3 && Seeds(s.p, leaves) && i + 2 <= |leaves|
    requires seed1 == leaves[i] && seed2 == leaves[i + 1]
    requires ctx1 == CommitCtx1(s.p, salt, e) && ctx2 == CommitCtx2(s.p, salt, e)
    requires exp.Length == s.XBytes() + s.EtaBytes()
    requires LeafCache(s, salt, e, cache) && Committed(s, salt, e, leaves, i, coms, a)
    modifies exp, Prg.Footprint(cache)
    ensures LeafCache(s, salt, e, cache) && Committed(s, salt, e, leaves, i + 2, coms', a')
  {
    hide SeedCommit;
    hide CommitCtx1;
    hide CommitCtx2;
    hide LeafCache;
    hide SumsOf;
    var c1, c2 := CommitSeedX2(s.p, salt, e, ctx1, ctx2, seed1, seed2);
    coms' := coms + [c1, c2];
    a' := AddPair(s, salt, e, leaves, seed1, seed2, i, exp, cache, a);
  }

  /** Commits to the leaves two by two and accumulates their shares. */
  method CommitLeaves<B, E>(s: Scheme<B, E>, salt: Bytes, e: nat, ctx1: EncCtx, ctx2: EncCtx, lseed: array<Bytes>,
                            ghost leaves: seq<Bytes>, exp: array<Byte>, cache: Prg.KeyCache?)
    returns (coms: seq<Bytes>, a: Sums<E>)
    requires Sized(s) && |salt| >= 3 && lseed[..] == leaves && |leaves| == s.p.NbEvals() && Seeds(s.p, leaves)
    requires ctx1 == CommitCtx1(s.p, salt, e) && ctx2 == CommitCtx2(s.p, salt, e)
    requires exp.Length == s.XBytes() + s.EtaBytes()
    requires LeafCache(s, salt, e, cache)
    modifies exp, Prg.Footprint(cache)
    ensures coms == LeafComs(s.p, salt, e, leaves)
    ensures SumsOf(s, salt, e, leaves, s.p.NbEvals(), a)
  {
    hide CommitCtx1;
    hide CommitCtx2;
    hide LeafCache;
    hide LeafComs;
    ghost var pairs := PairsOfLeaves(s.p);
    assert s.f.perByte > 0 && s.p.Valid();
    hide Sized;
    hide Params.Valid;
    hide Params.NbEvals;
    coms := [];
    a := Sums(Zeros(s.XBytes()), VecZero(s.f.ext, s.p.n), VecZero(s.f.ext, s.p.eta), VecZero(s.f.ext, s.p.eta));
    NothingSummed(s, salt, e, leaves, a);
    hide Committed;
    var i := 0;
    ghost var k := 0;
    while i < s.p.NbEvals()
      invariant i == 2 * k && k <= pairs
      invariant lseed[..] == leaves
      invariant LeafCache(s, salt, e, cache) && Committed(s, salt, e, leaves, i, coms, a)
    {
      coms, a := CommitPair(s, salt, e, ctx1, ctx2, leaves, lseed[..][i], lseed[..][i + 1], i, exp, cache, coms, a);
      i, k := i + 2, k + 1;
    }
    AllCommitted(s, salt, e, leaves, coms, a);
  }

  lemma NothingSummed<B, E>(s: Scheme<B, E>, salt: Bytes, e: nat, leaves: seq<Bytes>, a: Sums<E>)
    requires Sized(s) && |salt| >= 3 && Seeds(s.p, leaves)
    requires a == Sums(Zeros(s.XBytes()), VecZero(s.f.ext, s.p.n), VecZero(s.f.ext, s.p.eta), VecZero(s.f.ext, s.p.eta))
    ensures Committed(s, salt, e, leaves, 0, [], a)
  {
  }

  lemma AllCommitted<B, E>(s: Scheme<B, E>, salt: Bytes, e: nat, leaves: seq<Bytes>, coms: seq<Bytes>, a: Sums<E>)
    requires Sized(s) && |salt| >= 3 && Seeds(s.p, leaves) && Committed(s, salt, e, leaves, |leaves|, coms, a)
    ensures coms == LeafComs(s.p, salt, e, leaves)
    ensures SumsOf(s, salt, e, leaves, |leaves|, a)
  {
    hide SeedCommit;
    hide SumsOf;
  }

  // ---- the ring of buffers and the batched XOF ----

  /** Where the leaf commitments of repetition e wait to be hashed. */
  datatype Slots = Single | Ring | PerRepetition
  {
    function Count(tau: nat): nat {
      match this case Single => 1 case Ring => 4 case PerRepetition => tau
    }

    function At(e: nat): nat {
      match this case Single => 0 case Ring => e % 4 case PerRepetition => e
    }
  }

  /** How many repetitions have been hashed once the first e are done. */
  function HashedAfter(p: Params, e: nat): nat {
    if !p.xofX4 || e >= 4 * (p.tau / 4) then e else e - e % 4
  }

  /** The first repetitions are hashed; the others are still in their buffers. */
  ghost predicate Tracks(p: Params, k: Slots, bufs: seq<seq<Bytes>>, hashes: seq<Bytes>, want: seq<seq<Bytes>>) {
    && |want| <= p.tau == |hashes| && |bufs| == k.Count(p.tau)
    && (forall e | 0 <= e < HashedAfter(p, |want|) :: hashes[e] == HashComs(p, want[e]))
    && (forall e | HashedAfter(p, |want|) <= e < |want| :: k.At(e) < |bufs| && bufs[k.At(e)] == want[e])
  }

  lemma SlotsInside(p: Params, k: Slots, e: nat)
    requires e < p.tau
    ensures k.At(e) < k.Count(p.tau)
  {
  }

  /** A buffer is reused only after what it held has been hashed. */
  lemma SlotFree(p: Params, k: Slots, e: nat, waiting: nat)
    requires k == Single ==> !p.xofX4
    requires HashedAfter(p, e) <= waiting < e
    ensures k.At(waiting) != k.At(e)
  {
  }

  /** The four repetitions ending with e are the ones still waiting. */
  lemma BatchReady(p: Params, e: nat)
    requires p.xofX4 && e % 4 == 3 && e < p.tau
    ensures HashedAfter(p, e) == e - 3 && HashedAfter(p, e + 1) == e + 1
  {
  }

  lemma SingleReady(p: Params, e: nat)
    requires e < p.tau && (!p.xofX4 || (e % 4 != 3 && e >= 4 * (p.tau / 4)))
    ensures HashedAfter(p, e) == e && HashedAfter(p, e + 1) == e + 1
  {
  }

  lemma StillWaiting(p: Params, e: nat)
    requires p.xofX4 && e % 4 != 3 && e < 4 * (p.tau / 4)
    ensures HashedAfter(p, e) == HashedAfter(p, e + 1) == e - e % 4
  {
  }

  lemma AllHashed(p: Params, k: Slots, bufs: seq<seq<Bytes>>, hashes: seq<Bytes>, want: seq<seq<Bytes>>)
    requires Tracks(p, k, bufs, hashes, want) && |want| == p.tau
    ensures forall e | 0 <= e < p.tau :: hashes[e] == HashComs(p, want[e])
  {
    hide HashComs;
    assert HashedAfter(p, p.tau) == p.tau;
  }

  /** One batched XOF call on the buffers of four repetitions. */
  method HashFour(p: Params, k: Slots, bufs: array<seq<Bytes>>, hashes: array<Bytes>, e: nat, ghost want: seq<seq<Bytes>>)
    requires 3 <= e < |want| && e < hashes.Length
    requires forall e' | e - 3 <= e' <= e :: k.At(e') < bufs.Length && bufs[k.At(e')] == want[e']
    modifies hashes
    ensures forall e' | 0 <= e' < hashes.Length ::
              hashes[e'] == if e - 3 <= e' <= e then HashComs(p, want[e']) else old(hashes[e'])
  {
    hide HashComs;
    hide Slots.At;
    hashes[e - 3] := HashComs(p, bufs[k.At(e - 3)]);
    hashes[e - 2] := HashComs(p, bufs[k.At(e - 2)]);
    hashes[e - 1] := HashComs(p, bufs[k.At(e - 1)]);
    hashes[e] := HashComs(p, bufs[k.At(e)]);
  }

  /** Buffers the leaf commitments of repetition e and hashes what is ready. */
  method HashRepetition(p: Params, k: Slots, bufs: array<seq<Bytes>>, hashes: array<Bytes>, e: nat, coms: seq<Bytes>,
                        ghost want: seq<seq<Bytes>>)
    requires e < p.tau && |want| == e && (k == Single ==> !p.xofX4)
    requires bufs as object != hashes
    requires Tracks(p, k, bufs[..], hashes[..], want)
    modifies bufs, hashes
    ensures Tracks(p, k, bufs[..], hashes[..], want + [coms])
    ensures k.At(e) < bufs.Length && bufs[..] == old(bufs[..])[k.At(e) := coms]
  {
    hide HashComs;
    hide HashedAfter;
    forall e' | HashedAfter(p, e) <= e' < e ensures k.At(e') != k.At(e) {
      SlotFree(p, k, e, e');
    }
    hide Slots.At;
    SlotsInside(p, k, e);
    bufs[k.At(e)] := coms;
    if p.xofX4 && e % 4 == 3 {
      BatchReady(p, e);
      HashFour(p, k, bufs, hashes, e, want + [coms]);
    } else if !p.xofX4 || e >= 4 * (p.tau / 4) {
      SingleReady(p, e);
      hashes[e] := HashComs(p, bufs[k.At(e)]);
    } else {
      StillWaiting(p, e);
    }
  }

  method AbsorbAll(before: Bytes, parts: seq<Bytes>) returns (absorbed: Bytes)
    ensures absorbed == before + Concat(parts)
  {
    absorbed := before;
    for e := 0 to |parts|
      invariant absorbed == before + Concat(parts[..e])
    {
      absorbed := absorbed + parts[e];
      ConcatSnoc(parts[..e], parts[e]);
      assert parts[..e] + [parts[e]] == parts[..e + 1];
    }
    assert parts[..|parts|] == parts;
  }

  /** The digest of all repetition digests and corrections, absorbed one after the other. */
  method DigestAll(p: Params, hashes: seq<Bytes>, deltas: seq<Bytes>) returns (com1: Bytes)
    ensures com1 == Com1(p, hashes, deltas)
  {
    hide Concat;
    var absorbed := AbsorbAll([Truncate(7)], hashes);
    absorbed := AbsorbAll(absorbed, deltas);
    assert absorbed == [Truncate(7)] + (Concat(hashes) + Concat(deltas));
    com1 := p.Squeeze(absorbed, 0, p.DigestSize());
  }

  // ---- commit ----

  /** What the signer keeps for opening: node tables and leaf commitments, or what they grow from. */
  class Key {
    const node: array<seq<Bytes>>
    const lsCom: array<seq<Bytes>>
    const partialDeltaX: array<Bytes>
    var salt: Bytes
    var delta: Bytes
    var rseed: seq<Bytes>

    constructor (tau: nat)
      ensures node.Length == lsCom.Length == partialDeltaX.Length == tau
      ensures fresh(node) && fresh(lsCom) && fresh(partialDeltaX) && node != lsCom
    {
      node := new seq<Bytes>[tau](_ => []);
      lsCom := new seq<Bytes>[tau](_ => []);
      partialDeltaX := new Bytes[tau](_ => []);
      salt, delta, rseed := [], [], [];
    }

    ghost predicate Shaped(tau: nat) {
      node.Length == lsCom.Length == partialDeltaX.Length == tau && node != lsCom
    }

    ghost function Repr(): set<object> { {this, node, lsCom, partialDeltaX} }

    /** What memory-efficient opening starts from. */
    method KeepRoots(salt: Bytes, delta: Bytes, rseed: seq<Bytes>)
      modifies this
      ensures this.salt == salt && this.delta == delta && this.rseed == rseed
    {
      this.salt, this.delta, this.rseed := salt, delta, rseed;
    }
  }

  /** The key can open the first `upTo` repetitions. */
  ghost predicate KeyHolds<B, E>(s: Scheme<B, E>, c: Secret, memoryEfficient: bool, key: Key, upTo: nat)
    requires ValidSecret(s, c)
    reads key.Repr()
  {
    && key.Shaped(s.p.tau)
    && DeltasKept(s, c, key.partialDeltaX[..], upTo)
    && if memoryEfficient then RootsKept(s, c, key) else TreesKept(s, c, key.node[..], key.lsCom[..], upTo)
  }

  ghost predicate DeltasKept<B, E>(s: Scheme<B, E>, c: Secret, deltas: seq<Bytes>, upTo: nat)
    requires ValidSecret(s, c)
  {
    upTo <= s.p.tau == |deltas| && forall e | 0 <= e < upTo :: deltas[e] == PartialDelta(s, c, e)
  }

  ghost predicate RootsKept<B, E>(s: Scheme<B, E>, c: Secret, key: Key)
    requires ValidSecret(s, c)
    reads key
  {
    key.salt == c.salt && key.delta == c.x[..s.p.seedSize] && key.rseed == RootSeeds(s.p, c.mseed)
  }

  ghost predicate TreesKept<B, E>(s: Scheme<B, E>, c: Secret, node: seq<seq<Bytes>>, lsCom: seq<seq<Bytes>>, upTo: nat)
    requires ValidSecret(s, c)
  {
    upTo <= s.p.tau == |node| == |lsCom| && forall e | 0 <= e < upTo :: RepetitionKept(s, c, node[e], lsCom[e], e)
  }

  ghost predicate RepetitionKept<B, E>(s: Scheme<B, E>, c: Secret, node: seq<Bytes>, coms: seq<Bytes>, e: nat)
    requires ValidSecret(s, c) && e < s.p.tau
  {
    && |node| == 2 * s.p.NbEvals() && Trees.Expanded(TreeOf(s, c, e), node, |node|)
    && coms == LeafComs(s.p, c.salt, e, LeavesOf(s, c, e))
  }

  /** The signer's sums of one repetition, in the terms of the commitment. */
  ghost predicate LinesOf<B, E>(s: Scheme<B, E>, c: Secret, e: nat, x0: seq<E>, u0: seq<E>, u1: seq<E>)
    requires ValidSecret(s, c) && e < s.p.tau
  {
    x0 == X0(s, c, e) && u0 == U0(s, c, e) && u1 == U1(s, c, e)
  }

  method CommitRepetition<B, E>(s: Scheme<B, E>, useCache: bool, ghost c: Secret, salt: Bytes, rseed: Bytes, delta: Bytes,
                                x: Bytes, e: nat, node: array<Bytes>, lseed: array<Bytes>, exp: array<Byte>)
    returns (coms: seq<Bytes>, partialDelta: Bytes, a: Sums<E>)
    requires ValidSecret(s, c) && e < s.p.tau && salt == c.salt && x == c.x
    requires rseed == RootSeeds(s.p, c.mseed)[e] && delta == c.x[..s.p.seedSize]
    requires node != lseed && node.Length == 2 * s.p.NbEvals() && lseed.Length == s.p.NbEvals()
    requires exp.Length == s.XBytes() + s.EtaBytes()
    modifies node, lseed, exp
    ensures RepetitionKept(s, c, node[..], coms, e)
    ensures partialDelta == PartialDelta(s, c, e)
    ensures LinesOf(s, c, e, a.x0, a.u0, a.u1)
  {
    hide Tree.Node;
    hide Xor;
    hide SumX;
    hide SumU;
    hide WeightedX;
    hide WeightedU;
    hide LeafComs;
    hide CommitCtx1;
    hide CommitCtx2;
    hide RootSeeds;
    var cache := Prg.InitCache(useCache, s.p, PrgBytes(s));
    var ret := Trees.Expand(s.p, salt, rseed, delta, e, node, lseed);
    ghost var leaves := LeavesOf(s, c, e);
    assert lseed[..] == leaves;
    hide LeavesOf;
    hide Trees.Expanded;
    var ctx1, ctx2 := CommitKeys(s.p, salt, e);
    coms, a := CommitLeaves(s, salt, e, ctx1, ctx2, lseed, leaves, exp, cache);
    var deltaX := Xor(x, a.accX);
    partialDelta := deltaX[s.p.seedSize..];
  }

  /** The arrays a commitment is written to while the repetitions are processed. */
  datatype Outputs<!E> = Outputs(key: Key, slots: Slots, bufs: array<seq<Bytes>>, hashes: array<Bytes>,
                                 x0: array<seq<E>>, u0: array<seq<E>>, u1: array<seq<E>>)
  {
    ghost predicate Shaped(p: Params, memoryEfficient: bool) {
      && key.Shaped(p.tau)
      && x0.Length == u0.Length == u1.Length == hashes.Length == p.tau
      && bufs.Length == slots.Count(p.tau) && slots != Single
      && x0 != u0 && x0 != u1 && u0 != u1 && hashes != key.partialDeltaX && bufs != key.node
      && (if memoryEfficient then bufs != key.lsCom else bufs == key.lsCom && slots == PerRepetition)
      && {x0, u0, u1} !! key.Repr() + {bufs as object, hashes}
      && {bufs as object} !! {hashes as object, key, key.partialDeltaX} && hashes as object !in key.Repr()
    }

    ghost function Repr(): set<object> { key.Repr() + {bufs as object, hashes, x0, u0, u1} }
  }

  ghost predicate WantedComs<B, E>(s: Scheme<B, E>, c: Secret, want: seq<seq<Bytes>>)
    requires ValidSecret(s, c)
  {
    |want| <= s.p.tau && forall e | 0 <= e < |want| :: want[e] == LeafComs(s.p, c.salt, e, LeavesOf(s, c, e))
  }

  ghost predicate LinesUpTo<B, E>(s: Scheme<B, E>, c: Secret, x0: seq<seq<E>>, u0: seq<seq<E>>, u1: seq<seq<E>>, upTo: nat)
    requires ValidSecret(s, c)
  {
    && upTo <= s.p.tau == |x0| == |u0| == |u1|
    && forall e | 0 <= e < upTo :: LinesOf(s, c, e, x0[e], u0[e], u1[e])
  }

  /** Everything known after the first |want| repetitions. */
  ghost predicate Progress<B, E>(s: Scheme<B, E>, c: Secret, memoryEfficient: bool, o: Outputs<E>, want: seq<seq<Bytes>>)
    requires ValidSecret(s, c)
    reads o.Repr()
  {
    && o.Shaped(s.p, memoryEfficient)
    && WantedComs(s, c, want)
    && Tracks(s.p, o.slots, o.bufs[..], o.hashes[..], want)
    && KeyHolds(s, c, memoryEfficient, o.key, |want|)
    && LinesUpTo(s, c, o.x0[..], o.u0[..], o.u1[..], |want|)
  }

  /** Stores what repetition e yields. */
  method StoreRepetition<B, E>(s: Scheme<B, E>, ghost c: Secret, memoryEfficient: bool, e: nat, node: seq<Bytes>,
                               coms: seq<Bytes>, partialDelta: Bytes, a: Sums<E>, o: Outputs<E>, ghost want: seq<seq<Bytes>>)
    requires ValidSecret(s, c) && e < s.p.tau && |want| == e
    requires RepetitionKept(s, c, node, coms, e) && partialDelta == PartialDelta(s, c, e) && LinesOf(s, c, e, a.x0, a.u0, a.u1)
    requires Progress(s, c, memoryEfficient, o, want)
    modifies o.Repr()
    ensures Progress(s, c, memoryEfficient, o, want + [coms])
  {
    hide PartialDelta;
    hide DeltasKept;
    hide TreesKept;
    hide LinesUpTo;
    hide WantedComs;
    hide Tracks;
    hide RepetitionKept;
    hide RootSeeds;
    hide LinesOf;
    ghost var node0, lsCom0, deltas0 := o.key.node[..], o.key.lsCom[..], o.key.partialDeltaX[..];
    ghost var x00, u00, u10 := o.x0[..], o.u0[..], o.u1[..];
    HashRepetition(s.p, o.slots, o.bufs, o.hashes, e, coms, want);
    if !memoryEfficient {
      o.key.node[e] := node;
      KeepTree(s, c, node0, lsCom0, node, coms, e);
    }
    o.key.partialDeltaX[e] := partialDelta;
    StoreSums(e, a, o.x0, o.u0, o.u1);
    KeepValues(s, c, deltas0, x00, u00, u10, want, node, coms, partialDelta, a, e);
    assert o.key.partialDeltaX[..] == deltas0[e := partialDelta];
    assert !memoryEfficient ==> o.key.node[..] == node0[e := node] && o.key.lsCom[..] == lsCom0[e := coms];
  }

  method StoreSums<E>(e: nat, a: Sums<E>, x0: array<seq<E>>, u0: array<seq<E>>, u1: array<seq<E>>)
    requires e < x0.Length == u0.Length == u1.Length && x0 != u0 && x0 != u1 && u0 != u1
    modifies x0, u0, u1
    ensures x0[..] == old(x0[..])[e := a.x0]
    ensures u0[..] == old(u0[..])[e := a.u0]
    ensures u1[..] == old(u1[..])[e := a.u1]
  {
    x0[e], u0[e], u1[e] := a.x0, a.u0, a.u1;
  }

  lemma KeepTree<B, E>(s: Scheme<B, E>, c: Secret, node: seq<seq<Bytes>>, lsCom: seq<seq<Bytes>>, n: seq<Bytes>, coms: seq<Bytes>, e: nat)
    requires ValidSecret(s, c) && e < s.p.tau && TreesKept(s, c, node, lsCom, e) && RepetitionKept(s, c, n, coms, e)
    ensures TreesKept(s, c, node[e := n], lsCom[e := coms], e + 1)
  {
    hide RepetitionKept;
  }

  lemma KeepValues<B, E>(s: Scheme<B, E>, c: Secret, deltas: seq<Bytes>, x0: seq<seq<E>>, u0: seq<seq<E>>, u1: seq<seq<E>>,
                         want: seq<seq<Bytes>>, node: seq<Bytes>, coms: seq<Bytes>, partialDelta: Bytes, a: Sums<E>, e: nat)
    requires ValidSecret(s, c) && e < s.p.tau && |want| == e
    requires DeltasKept(s, c, deltas, e) && LinesUpTo(s, c, x0, u0, u1, e) && WantedComs(s, c, want)
    requires RepetitionKept(s, c, node, coms, e) && partialDelta == PartialDelta(s, c, e) && LinesOf(s, c, e, a.x0, a.u0, a.u1)
    ensures DeltasKept(s, c, deltas[e := partialDelta], e + 1)
    ensures LinesUpTo(s, c, x0[e := a.x0], u0[e := a.u0], u1[e := a.u1], e + 1)
    ensures WantedComs(s, c, want + [coms])
  {
    hide PartialDelta;
    hide LinesOf;
    hide LeafComs;
    hide LeavesOf;
    RepetitionComs(s, c, node, coms, e);
  }

  /** Commits to one more repetition. */
  method CommitNext<B, E>(s: Scheme<B, E>, memoryEfficient: bool, useCache: bool, ghost c: Secret, salt: Bytes, rseed: Bytes,
                          delta: Bytes, x: Bytes, e: nat, node: array<Bytes>, lseed: array<Bytes>, exp: array<Byte>,
                          o: Outputs<E>, ghost want: seq<seq<Bytes>>) returns (ghost coms: seq<Bytes>)
    requires ValidSecret(s, c) && e < s.p.tau && salt == c.salt && x == c.x && |want| == e
    requires rseed == RootSeeds(s.p, c.mseed)[e] && delta == c.x[..s.p.seedSize]
    requires node != lseed && node.Length == 2 * s.p.NbEvals() && lseed.Length == s.p.NbEvals()
    requires exp.Length == s.XBytes() + s.EtaBytes()
    requires {node as object, lseed, exp} !! o.Repr()
    requires Progress(s, c, memoryEfficient, o, want)
    modifies node, lseed, exp, o.Repr()
    ensures Progress(s, c, memoryEfficient, o, want + [coms])
  {
    hide RootSeeds;
    hide RepetitionKept;
    hide PartialDelta;
    hide LinesOf;
    hide Progress;
    var newComs, partialDelta, a := CommitRepetition(s, useCache, c, salt, rseed, delta, x, e, node, lseed, exp);
    StoreRepetition(s, c, memoryEfficient, e, node[..], newComs, partialDelta, a, o, want);
    coms := newComs;
  }

  lemma RepetitionComs<B, E>(s: Scheme<B, E>, c: Secret, node: seq<Bytes>, coms: seq<Bytes>, e: nat)
    requires ValidSecret(s, c) && e < s.p.tau && RepetitionKept(s, c, node, coms, e)
    ensures coms == LeafComs(s.p, c.salt, e, LeavesOf(s, c, e))
  {
  }

  /** Chooses the buffers: the key's own, or a ring of four. */
  method Prepare<B, E>(s: Scheme<B, E>, ghost c: Secret, memoryEfficient: bool, salt: Bytes, delta: Bytes, rseed: seq<Bytes>,
                       key: Key, x0: array<seq<E>>, u0: array<seq<E>>, u1: array<seq<E>>) returns (o: Outputs<E>)
    requires ValidSecret(s, c) && key.Shaped(s.p.tau)
    requires salt == c.salt && delta == c.x[..s.p.seedSize] && rseed == RootSeeds(s.p, c.mseed)
    requires x0.Length == u0.Length == u1.Length == s.p.tau && x0 != u0 && x0 != u1 && u0 != u1
    requires {x0, u0, u1} !! key.Repr()
    modifies key
    ensures o.key == key && o.x0 == x0 && o.u0 == u0 && o.u1 == u1
    ensures fresh(o.hashes) && (o.bufs == key.lsCom || fresh(o.bufs))
    ensures Progress(s, c, memoryEfficient, o, [])
  {
    hide RootSeeds;
    hide RepetitionKept;
    hide PartialDelta;
    hide LeafComs;
    hide LinesOf;
    var bufs := key.lsCom;
    if memoryEfficient {
      key.KeepRoots(salt, delta, rseed);
      bufs := new seq<Bytes>[4](_ => []);
    }
    var hashes := new Bytes[s.p.tau](_ => []);
    o := Outputs(key, if memoryEfficient then Slots.Ring else PerRepetition, bufs, hashes, x0, u0, u1);
  }

  /** All repetitions, one after the other, over the same working buffers. */
  method CommitAll<B, E>(s: Scheme<B, E>, ghost c: Secret, memoryEfficient: bool, useCache: bool, salt: Bytes,
                         rseed: seq<Bytes>, delta: Bytes, x: Bytes, o: Outputs<E>)
    requires ValidSecret(s, c) && salt == c.salt && x == c.x
    requires rseed == RootSeeds(s.p, c.mseed) && delta == c.x[..s.p.seedSize]
    requires Progress(s, c, memoryEfficient, o, [])
    modifies o.Repr()
    ensures o.hashes[..] == SignerHashes(s, c)
    ensures o.key.partialDeltaX[..] == SignerDeltas(s, c)
    ensures KeyHolds(s, c, memoryEfficient, o.key, s.p.tau)
    ensures LinesUpTo(s, c, o.x0[..], o.u0[..], o.u1[..], s.p.tau)
  {
    hide RootSeeds;
    hide Progress;
    hide Outputs.Shaped;
    hide KeyHolds;
    hide LinesUpTo;
    hide SignerHashes;
    hide SignerDeltas;
    var node := new Bytes[2 * s.p.NbEvals()](_ => []);
    var lseed := new Bytes[s.p.NbEvals()](_ => []);
    var exp := new Byte[s.XBytes() + s.EtaBytes()](_ => ZERO_BYTE);
    ghost var want: seq<seq<Bytes>> := [];
    for e := 0 to s.p.tau
      invariant |want| == e && Progress(s, c, memoryEfficient, o, want)
    {
      ghost var coms := CommitNext(s, memoryEfficient, useCache, c, salt, rseed[e], delta, x, e, node, lseed, exp, o, want);
      want := want + [coms];
    }
    AllHashesReady(s, c, memoryEfficient, o, want);
  }

  method Commit<B, E>(s: Scheme<B, E>, memoryEfficient: bool, useCache: bool, mseed: Bytes, salt: Bytes, x: Bytes, key: Key,
                      x0: array<seq<E>>, u0: array<seq<E>>, u1: array<seq<E>>) returns (ret: int, com1: Bytes)
    requires ValidSecret(s, Secret(mseed, salt, x)) && key.Shaped(s.p.tau)
    requires x0.Length == u0.Length == u1.Length == s.p.tau && x0 != u0 && x0 != u1 && u0 != u1
    requires {x0, u0, u1} !! key.Repr()
    modifies key.Repr(), x0, u0, u1
    ensures ret == 0 && com1 == SignerCom1(s, Secret(mseed, salt, x))
    ensures KeyHolds(s, Secret(mseed, salt, x), memoryEfficient, key, s.p.tau)
    ensures LinesUpTo(s, Secret(mseed, salt, x), x0[..], u0[..], u1[..], s.p.tau)
  {
    hide RootSeeds;
    hide RepetitionKept;
    hide PartialDelta;
    hide LeafComs;
    hide LeavesOf;
    hide LinesOf;
    ghost var c := Secret(mseed, salt, x);
    var rseed := ExpandRoots(s.p, mseed);
    var delta := x[..s.p.seedSize];
    var o := Prepare(s, c, memoryEfficient, salt, delta, rseed, key, x0, u0, u1);
    CommitAll(s, c, memoryEfficient, useCache, salt, rseed, delta, x, o);
    com1 := DigestAll(s.p, o.hashes[..], key.partialDeltaX[..]);
    ret := 0;
  }

  lemma AllHashesReady<B, E>(s: Scheme<B, E>, c: Secret, memoryEfficient: bool, o: Outputs<E>, want: seq<seq<Bytes>>)
    requires ValidSecret(s, c) && Progress(s, c, memoryEfficient, o, want) && |want| == s.p.tau
    ensures o.hashes[..] == SignerHashes(s, c)
    ensures o.key.partialDeltaX[..] == SignerDeltas(s, c)
    ensures KeyHolds(s, c, memoryEfficient, o.key, s.p.tau)
    ensures LinesUpTo(s, c, o.x0[..], o.u0[..], o.u1[..], s.p.tau)
  {
    hide RootSeeds;
    hide RepetitionKept;
    hide PartialDelta;
    hide LeafComs;
    hide LeavesOf;
    hide HashComs;
    AllHashed(s.p, o.slots, o.bufs[..], o.hashes[..], want);
  }

  /** The root seeds of all trees, expanded under the all-zero salt. */
  method ExpandRoots(p: Params, mseed: Bytes) returns (rseed: seq<Bytes>)
    requires p.Valid() && |mseed| == p.seedSize
    ensures rseed == RootSeeds(p, mseed)
  {
    hide Prg.Expansion;
    hide CeilDiv;
    hide Pieces;
    var size := p.tau * p.seedSize;
    var out := new Byte[size](_ => ZERO_BYTE);
    ghost var before := out[..];
    var ret := Prg.Expand(p, Zeros(p.saltSize), 0, mseed, size, out, 0, null);
    SpliceAll(before, Prg.Expansion(p, Zeros(p.saltSize), 0, mseed, size));
    rseed := Pieces(out[..], p.seedSize, p.tau);
  }

  lemma SpliceAll<T>(before: seq<T>, data: seq<T>)
    requires |before| == |data|
    ensures Splice(before, 0, data) == data
  {
  }

  // ---- open ----

  /** The path to one leaf and the commitment to it, looked up or recomputed from the root seed. */
  method OpenRepetition<B, E>(s: Scheme<B, E>, ghost c: Secret, memoryEfficient: bool, key: Key, e: nat, i: nat)
    returns (ret: int, path: Bytes, com: Bytes)
    requires ValidSecret(s, c) && e < s.p.tau && KeyHolds(s, c, memoryEfficient, key, s.p.tau)
    ensures ret == if i < s.p.NbEvals() then 0 else -1
    ensures ret == 0 ==> path == PathBytes(s, c, e, i) && com == SeedCommit(s.p, c.salt, e, LeavesOf(s, c, e)[i])
  {
    hide Tree.Node;
    hide SeedCommit;
    hide RootSeeds;
    hide DeltasKept;
    hide CommitCtx1;
    hide CommitCtx2;
    path, com := [], [];
    var entries := new Bytes[s.p.log](_ => []);
    if memoryEfficient {
      var lseed;
      ret, lseed := Trees.ExpandPath(s.p, key.salt, key.rseed[e], key.delta, e, i, entries);
      if ret != 0 {
        return;
      }
      var ctx1, ctx2 := CommitKeys(s.p, key.salt, e);
      com := CommitSeed(s.p, key.salt, e, ctx1, ctx2, lseed);
    } else {
      assert RepetitionKept(s, c, key.node[e], key.lsCom[e], e);
      ret := Trees.Open(s.p, key.node[e], i, entries);
      if ret != 0 {
        return;
      }
      assert entries[..] == TreeOf(s, c, e).Path(i);
      com := key.lsCom[e][i];
    }
    path := Concat(entries[..]);
  }

  /** A stretch of the opening holds the parts written so far, one after the other. */
  ghost predicate Section(buf: Bytes, at: nat, size: nat, parts: seq<Bytes>) {
    && AllLength(parts, size)
    && at + |parts| * size <= |buf|
    && buf[at..at + |parts| * size] == Concat(parts)
  }

  lemma SectionGrows(buf: Bytes, at: nat, size: nat, parts: seq<Bytes>, part: Bytes, k: nat)
    requires Section(buf, at, size, parts) && |part| == size && k == |parts| && at + (k + 1) * size <= |buf|
    ensures k * size + size == (k + 1) * size
    ensures Section(Splice(buf, at + k * size, part), at, size, parts + [part])
  {
    hide Concat;
    ConcatSnoc(parts, part);
    var full := |parts| * size;
    assert (k + 1) * size == full + size;
    var now := Splice(buf, at + full, part);
    assert now[at..at + full + size] == buf[at..at + full] + part;
  }

  lemma SectionKept(buf: Bytes, at: nat, size: nat, parts: seq<Bytes>, where: nat, data: Bytes)
    requires Section(buf, at, size, parts) && where + |data| <= |buf|
    requires where + |data| <= at || at + |parts| * size <= where
    ensures Section(Splice(buf, where, data), at, size, parts)
  {
    hide Concat;
    var hi := at + |parts| * size;
    assert Splice(buf, where, data)[at..hi] == buf[at..hi];
  }

  /** The three sections of an opening after some repetitions. */
  ghost predicate Opened<B, E>(s: Scheme<B, E>, buf: Bytes, paths: seq<Bytes>, coms: seq<Bytes>, deltas: seq<Bytes>)
    requires Sized(s)
  {
    && |buf| == OpeningSize(s) && |paths| == |coms| == |deltas| <= s.p.tau
    && Section(buf, 0, s.p.log * s.p.seedSize, paths)
    && Section(buf, ComOffset(s.p), s.p.DigestSize(), coms)
    && Section(buf, DeltaOffset(s.p), s.XBytes() - s.p.seedSize, deltas)
  }

  /** Where the pieces of repetition e lie. */
  lemma PieceOffsets<B, E>(s: Scheme<B, E>, e: nat)
    requires Sized(s) && e < s.p.tau
    ensures var (a, b, d) := (s.p.log * s.p.seedSize, s.p.DigestSize(), s.XBytes() - s.p.seedSize);
            && e * a <= e * a + a == (e + 1) * a <= ComOffset(s.p)
            && ComOffset(s.p) + e * b <= ComOffset(s.p) + (e * b + b) == ComOffset(s.p) + (e + 1) * b <= DeltaOffset(s.p)
            && DeltaOffset(s.p) + (e * d + d) == DeltaOffset(s.p) + (e + 1) * d <= OpeningSize(s)
  {
    var a, b, d := s.p.log * s.p.seedSize, s.p.DigestSize(), s.XBytes() - s.p.seedSize;
    OffsetsFit(s);
    PieceInside(a, e, s.p.tau);
    PieceInside(b, e, s.p.tau);
    PieceInside(d, e, s.p.tau);
    NextPiece(a, e);
    NextPiece(b, e);
    NextPiece(d, e);
  }

  lemma NextPiece(size: nat, e: nat)
    ensures e * size + size == (e + 1) * size
  {
  }

  lemma OpenedGrows<B, E>(s: Scheme<B, E>, buf: Bytes, paths: seq<Bytes>, coms: seq<Bytes>, deltas: seq<Bytes>,
                          path: Bytes, com: Bytes, delta: Bytes, e: nat)
    requires Sized(s) && Opened(s, buf, paths, coms, deltas) && e == |paths| < s.p.tau
    requires |path| == s.p.log * s.p.seedSize && |com| == s.p.DigestSize() && |delta| == s.XBytes() - s.p.seedSize
    ensures e * |path| + |path| <= |buf| && ComOffset(s.p) + e * |com| + |com| <= |buf|
    ensures DeltaOffset(s.p) + e * |delta| + |delta| <= |buf|
    ensures Opened(s, Splice(Splice(Splice(buf, e * |path|, path), ComOffset(s.p) + e * |com|, com),
                             DeltaOffset(s.p) + e * |delta|, delta),
                   paths + [path], coms + [com], deltas + [delta])
  {
    hide Section;
    hide Splice;
    var a, b, d := |path|, |com|, |delta|;
    var atC, atD := ComOffset(s.p), DeltaOffset(s.p);
    PieceOffsets(s, e);
    hide ComOffset;
    hide DeltaOffset;
    hide OpeningSize;
    assert s.p.DigestSize() == b;
    SectionGrows(buf, 0, a, paths, path, e);
    SectionKept(buf, atC, b, coms, e * a, path);
    SectionKept(buf, atD, d, deltas, e * a, path);
    var buf1 := Splice(buf, e * a, path);
    SectionKept(buf1, 0, a, paths + [path], atC + e * b, com);
    SectionGrows(buf1, atC, b, coms, com, e);
    SectionKept(buf1, atD, d, deltas, atC + e * b, com);
    var buf2 := Splice(buf1, atC + e * b, com);
    SectionKept(buf2, 0, a, paths + [path], atD + e * d, delta);
    SectionKept(buf2, atC, b, coms + [com], atD + e * d, delta);
    SectionGrows(buf2, atD, d, deltas, delta, e);
  }

  /** The parts written are those of an honest opening. */
  ghost predicate HonestParts<B, E>(s: Scheme<B, E>, c: Secret, iStar: seq<nat>, paths: seq<Bytes>, coms: seq<Bytes>, deltas: seq<Bytes>)
    requires ValidSecret(s, c) && |iStar| == s.p.tau
  {
    && |paths| == |coms| == |deltas| <= s.p.tau
    && forall e | 0 <= e < |paths| ::
         && iStar[e] < s.p.NbEvals()
         && paths[e] == PathBytes(s, c, e, iStar[e])
         && coms[e] == SeedCommit(s.p, c.salt, e, LeavesOf(s, c, e)[iStar[e]])
         && deltas[e] == PartialDelta(s, c, e)
  }

  lemma CompleteOpening<B, E>(s: Scheme<B, E>, c: Secret, iStar: seq<nat>, buf: Bytes, paths: seq<Bytes>, coms: seq<Bytes>, deltas: seq<Bytes>)
    requires ValidSecret(s, c) && |iStar| == s.p.tau && |paths| == s.p.tau
    requires HonestParts(s, c, iStar, paths, coms, deltas) && Opened(s, buf, paths, coms, deltas)
    ensures ValidChallenge(s.p, iStar) && buf == Opening(s, c, iStar)
  {
    hide PathBytes;
    hide SeedCommit;
    hide PartialDelta;
    hide LeavesOf;
    hide Concat;
    OffsetsFit(s);
    assert paths == OpenedPaths(s, c, iStar);
    assert coms == OpenedComs(s, c, iStar);
    assert deltas == SignerDeltas(s, c);
    var m, d := ComOffset(s.p), DeltaOffset(s.p);
    assert buf == buf[0..0 + m] + buf[m..d] + buf[d..];
  }

  lemma NothingOpened<B, E>(s: Scheme<B, E>, buf: Bytes)
    requires Sized(s) && |buf| == OpeningSize(s)
    ensures Opened(s, buf, [], [], [])
  {
    hide Section;
    OffsetsFit(s);
    NothingWritten(buf, 0, s.p.log * s.p.seedSize);
    NothingWritten(buf, ComOffset(s.p), s.p.DigestSize());
    NothingWritten(buf, DeltaOffset(s.p), s.XBytes() - s.p.seedSize);
  }

  lemma NothingWritten(buf: Bytes, at: nat, size: nat)
    requires at <= |buf|
    ensures Section(buf, at, size, [])
  {
  }

  method Open<B, E>(s: Scheme<B, E>, ghost c: Secret, memoryEfficient: bool, key: Key, iStar: seq<nat>, opening: array<Byte>)
    returns (ret: int)
    requires ValidSecret(s, c) && KeyHolds(s, c, memoryEfficient, key, s.p.tau)
    requires |iStar| == s.p.tau && opening.Length == OpeningSize(s)
    modifies opening
    ensures ret == if ValidChallenge(s.p, iStar) then 0 else -1
    ensures ret == 0 ==> opening[..] == Opening(s, c, iStar)
  {
    hide PathBytes;
    hide SeedCommit;
    hide PartialDelta;
    hide LeavesOf;
    hide Splice;
    hide Opened;
    hide OpeningSize;
    hide RootsKept;
    hide TreesKept;
    ghost var paths: seq<Bytes>, coms: seq<Bytes>, deltas: seq<Bytes> := [], [], [];
    NothingOpened(s, opening[..]);
    for e := 0 to s.p.tau
      invariant |paths| == e && HonestParts(s, c, iStar, paths, coms, deltas)
      invariant Opened(s, opening[..], paths, coms, deltas)
    {
      var path, com;
      ret, path, com := OpenRepetition(s, c, memoryEfficient, key, e, iStar[e]);
      if ret != 0 {
        return;
      }
      var delta := key.partialDeltaX[e];
      WriteParts(s, opening, path, com, delta, e, paths, coms, deltas);
      paths, coms, deltas := paths + [path], coms + [com], deltas + [delta];
    }
    CompleteOpening(s, c, iStar, opening[..], paths, coms, deltas);
    ret := 0;
  }

  method WriteParts<B, E>(s: Scheme<B, E>, opening: array<Byte>, path: Bytes, com: Bytes, delta: Bytes, e: nat,
                          ghost paths: seq<Bytes>, ghost coms: seq<Bytes>, ghost deltas: seq<Bytes>)
    requires Sized(s) && Opened(s, opening[..], paths, coms, deltas) && e == |paths| < s.p.tau
    requires |path| == s.p.log * s.p.seedSize && |com| == s.p.DigestSize() && |delta| == s.XBytes() - s.p.seedSize
    modifies opening
    ensures Opened(s, opening[..], paths + [path], coms + [com], deltas + [delta])
  {
    hide Splice;
    hide Opened;
    OpenedGrows(s, opening[..], paths, coms, deltas, path, com, delta, e);
    Store(opening, e * |path|, path);
    Store(opening, ComOffset(s.p) + e * |com|, com);
    Store(opening, DeltaOffset(s.p) + e * |delta|, delta);
  }

  // ---- evaluate ----

  ghost predicate EvalOf<B, E>(s: Scheme<B, E>, salt: Bytes, e: nat, known: seq<Bytes>, iStar: nat, start: seq<E>, i: nat,
                               xv: seq<E>, uv: seq<E>)
    requires Sized(s) && |salt| >= 3 && Seeds(s.p, known) && i <= |known| && |start| == s.p.n
  {
    xv == EvalX(s, salt, e, known, iStar, start, i) && uv == EvalU(s, salt, e, known, iStar, i)
  }

  /** Adds a known leaf with weight r + w. */
  method AddKnownLeaf<B, E>(s: Scheme<B, E>, salt: Bytes, e: nat, ghost known: seq<Bytes>, seed: Bytes, i: nat, ghost iStar: nat,
                            r: E, ghost start: seq<E>, exp: array<Byte>, cache: Prg.KeyCache?, xv: seq<E>, uv: seq<E>)
    returns (xv': seq<E>, uv': seq<E>)
    requires Sized(s) && |salt| >= 3 && Seeds(s.p, known) && i < |known| && seed == known[i] && i != iStar
    requires r == s.f.Point(iStar) && |start| == s.p.n
    requires exp.Length == s.XBytes() + s.EtaBytes()
    requires LeafCache(s, salt, e, cache) && EvalOf(s, salt, e, known, iStar, start, i, xv, uv)
    modifies exp, Prg.Footprint(cache)
    ensures LeafCache(s, salt, e, cache) && EvalOf(s, salt, e, known, iStar, start, i + 1, xv', uv')
  {
    hide Lift;
    hide Decode;
    hide LeafBytes;
    ExpandLeaf(s, salt, e, seed, exp, cache);
    var w := s.f.Point(i);
    var barU := Decode(s.f, exp[s.XBytes()..], s.p.eta);
    uv' := VecAdd(s.f.ext, uv, Scale(s.f.ext, s.f.ext.Add(r, w), barU));
    var barX := exp[..s.XBytes()];
    xv' := VecAdd(s.f.ext, xv, Scale(s.f.ext, s.f.ext.Add(r, w), Lift(s.f, barX, s.p.n)));
  }

  /** The commitment of leaf i as the verifier knows it. */
  function KnownCom(p: Params, salt: Bytes, e: nat, known: seq<Bytes>, com: Bytes, iStar: nat, i: nat): Bytes
    requires p.Valid() && |salt| >= 3 && Seeds(p, known) && i < |known|
  {
    if i == iStar then com else SeedCommit(p, salt, e, known[i])
  }

  /** Recommits to the known leaves of a pair. */
  method RecommitPair(p: Params, salt: Bytes, e: nat, ctx1: EncCtx, ctx2: EncCtx, ghost known: seq<Bytes>,
                      seed1: Bytes, seed2: Bytes, i: nat, iStar: nat) returns (c1: Bytes, c2: Bytes)
    requires p.Valid() && |salt| >= 3 && Seeds(p, known) && i + 2 <= |known|
    requires seed1 == known[i] && seed2 == known[i + 1]
    requires ctx1 == CommitCtx1(p, salt, e) && ctx2 == CommitCtx2(p, salt, e)
    ensures i != iStar ==> c1 == SeedCommit(p, salt, e, known[i])
    ensures i + 1 != iStar ==> c2 == SeedCommit(p, salt, e, known[i + 1])
  {
    hide SeedCommit;
    c1, c2 := [], [];
    if i != iStar && i + 1 != iStar {
      c1, c2 := CommitSeedX2(p, salt, e, ctx1, ctx2, seed1, seed2);
    } else if i != iStar {
      c1 := CommitSeed(p, salt, e, ctx1, ctx2, seed1);
    } else {
      c2 := CommitSeed(p, salt, e, ctx1, ctx2, seed2);
    }
  }

  ghost predicate Evaluated<B, E>(s: Scheme<B, E>, salt: Bytes, e: nat, known: seq<Bytes>, com: Bytes, iStar: nat, start: seq<E>,
                                  i: nat, coms: seq<Bytes>, xv: seq<E>, uv: seq<E>)
    requires Sized(s) && |salt| >= 3 && Seeds(s.p, known) && |start| == s.p.n
  {
    && |coms| == i <= |known|
    && (forall j | 0 <= j < i :: coms[j] == KnownCom(s.p, salt, e, known, com, iStar, j))
    && EvalOf(s, salt, e, known, iStar, start, i, xv, uv)
  }

  /** Processes a pair of leaves; for the hidden one only its opened commitment is copied. */
  method EvalPair<B, E>(s: Scheme<B, E>, salt: Bytes, e: nat, ctx1: EncCtx, ctx2: EncCtx, ghost known: seq<Bytes>,
                        seed1: Bytes, seed2: Bytes, i: nat, com: Bytes, iStar: nat, r: E, ghost start: seq<E>,
                        exp: array<Byte>, cache: Prg.KeyCache?, coms: seq<Bytes>, xv: seq<E>, uv: seq<E>)
    returns (coms': seq<Bytes>, xv': seq<E>, uv': seq<E>)
    requires Sized(s) && |salt| >= 3 && Seeds(s.p, known) && i + 2 <= |known|
    requires seed1 == known[i] && seed2 == known[i + 1]
    requires ctx1 == CommitCtx1(s.p, salt, e) && ctx2 == CommitCtx2(s.p, salt, e)
    requires r == s.f.Point(iStar) && |start| == s.p.n
    requires exp.Length == s.XBytes() + s.EtaBytes()
    requires LeafCache(s, salt, e, cache) && Evaluated(s, salt, e, known, com, iStar, start, i, coms, xv, uv)
    modifies exp, Prg.Footprint(cache)
    ensures LeafCache(s, salt, e, cache) && Evaluated(s, salt, e, known, com, iStar, start, i + 2, coms', xv', uv')
  {
    hide SeedCommit;
    hide CommitCtx1;
    hide CommitCtx2;
    hide LeafCache;
    hide EvalOf;
    var c1, c2 := RecommitPair(s.p, salt, e, ctx1, ctx2, known, seed1, seed2, i, iStar);
    coms' := coms + [c1, c2];
    xv', uv' := xv, uv;
    for i' := 0 to 2
      invariant |coms'| == i + 2 && coms'[..i] == coms
      invariant i' > 0 ==> coms'[i] == KnownCom(s.p, salt, e, known, com, iStar, i)
      invariant i' > 1 ==> coms'[i + 1] == KnownCom(s.p, salt, e, known, com, iStar, i + 1)
      invariant i' <= 1 && i + 1 != iStar ==> coms'[i + 1] == c2
      invariant i' <= 0 && i != iStar ==> coms'[i] == c1
      invariant LeafCache(s, salt, e, cache) && EvalOf(s, salt, e, known, iStar, start, i + i', xv', uv')
    {
      if i + i' != iStar {
        xv', uv' := AddKnownLeaf(s, salt, e, known, if i' == 0 then seed1 else seed2, i + i', iStar, r, start, exp, cache, xv', uv');
      } else {
        coms' := coms'[i + i' := com];
        HiddenLeafSkipped(s, salt, e, known, iStar, start, i + i', xv', uv');
      }
    }
    forall j | 0 <= j < i + 2 ensures coms'[j] == KnownCom(s.p, salt, e, known, com, iStar, j) {
      assert j < i ==> coms'[j] == coms[j];
    }
  }

  lemma HiddenLeafSkipped<B, E>(s: Scheme<B, E>, salt: Bytes, e: nat, known: seq<Bytes>, iStar: nat, start: seq<E>, i: nat,
                                xv: seq<E>, uv: seq<E>)
    requires Sized(s) && |salt| >= 3 && Seeds(s.p, known) && i < |known| && |start| == s.p.n && i == iStar
    requires EvalOf(s, salt, e, known, iStar, start, i, xv, uv)
    ensures EvalOf(s, salt, e, known, iStar, start, i + 1, xv, uv)
  {
  }

  method EvalLeaves<B, E>(s: Scheme<B, E>, salt: Bytes, e: nat, ctx1: EncCtx, ctx2: EncCtx, lseed: array<Bytes>,
                          ghost known: seq<Bytes>, com: Bytes, iStar: nat, r: E, start: seq<E>, exp: array<Byte>,
                          cache: Prg.KeyCache?)
    returns (coms: seq<Bytes>, xv: seq<E>, uv: seq<E>)
    requires Sized(s) && |salt| == s.p.saltSize && lseed[..] == known && |known| == s.p.NbEvals() && Seeds(s.p, known)
    requires ctx1 == CommitCtx1(s.p, salt, e) && ctx2 == CommitCtx2(s.p, salt, e)
    requires r == s.f.Point(iStar) && |start| == s.p.n && iStar < s.p.NbEvals() && |com| == s.p.DigestSize()
    requires exp.Length == s.XBytes() + s.EtaBytes()
    requires LeafCache(s, salt, e, cache)
    modifies exp, Prg.Footprint(cache)
    ensures coms == KnownComs(s, salt, e, known, com, iStar)
    ensures EvalOf(s, salt, e, known, iStar, start, s.p.NbEvals(), xv, uv)
  {
    hide CommitCtx1;
    hide CommitCtx2;
    hide LeafCache;
    hide KnownComs;
    ghost var pairs := PairsOfLeaves(s.p);
    assert s.f.perByte > 0 && s.p.Valid();
    hide Sized;
    hide Params.Valid;
    hide Params.NbEvals;
    coms, xv, uv := [], start, VecZero(s.f.ext, s.p.eta);
    NothingEvaluated(s, salt, e, known, com, iStar, start);
    hide Evaluated;
    var i := 0;
    ghost var k := 0;
    while i < s.p.NbEvals()
      invariant i == 2 * k && k <= pairs
      invariant lseed[..] == known
      invariant LeafCache(s, salt, e, cache) && Evaluated(s, salt, e, known, com, iStar, start, i, coms, xv, uv)
    {
      assert lseed[i] == known[i] && lseed[i + 1] == known[i + 1];
      coms, xv, uv := EvalPair(s, salt, e, ctx1, ctx2, known, lseed[i], lseed[i + 1], i, com, iStar, r, start, exp, cache,
                               coms, xv, uv);
      i, k := i + 2, k + 1;
    }
    AllEvaluated(s, salt, e, known, com, iStar, start, coms, xv, uv);
  }

  lemma NothingEvaluated<B, E>(s: Scheme<B, E>, salt: Bytes, e: nat, known: seq<Bytes>, com: Bytes, iStar: nat, start: seq<E>)
    requires Sized(s) && |salt| >= 3 && Seeds(s.p, known) && |start| == s.p.n
    ensures Evaluated(s, salt, e, known, com, iStar, start, 0, [], start, VecZero(s.f.ext, s.p.eta))
  {
  }

  lemma AllEvaluated<B, E>(s: Scheme<B, E>, salt: Bytes, e: nat, known: seq<Bytes>, com: Bytes, iStar: nat, start: seq<E>,
                           coms: seq<Bytes>, xv: seq<E>, uv: seq<E>)
    requires Sized(s) && |salt| == s.p.saltSize && Seeds(s.p, known) && |start| == s.p.n && iStar < |known|
    requires |com| == s.p.DigestSize()
    requires Evaluated(s, salt, e, known, com, iStar, start, |known|, coms, xv, uv)
    ensures coms == KnownComs(s, salt, e, known, com, iStar)
    ensures EvalOf(s, salt, e, known, iStar, start, |known|, xv, uv)
  {
    hide SeedCommit;
    hide EvalOf;
  }

  method EvalRepetition<B, E>(s: Scheme<B, E>, useCache: bool, salt: Bytes, e: nat, path: Bytes, com: Bytes, delta: Bytes,
                              iStar: nat, lseed: array<Bytes>, exp: array<Byte>)
    returns (ret: int, coms: seq<Bytes>, xv: seq<E>, uv: seq<E>)
    requires Sized(s) && |salt| == s.p.saltSize
    requires |path| == s.p.log * s.p.seedSize && |com| == s.p.DigestSize() && |delta| == s.XBytes() - s.p.seedSize
    requires lseed.Length == s.p.NbEvals() && exp.Length == s.XBytes() + s.EtaBytes()
    modifies lseed, exp
    ensures ret == if iStar < s.p.NbEvals() then 0 else -1
    ensures ret == 0 ==>
              var known := KnownLeaves(s, salt, e, path, iStar);
              && coms == KnownComs(s, salt, e, known, com, iStar)
              && EvalOf(s, salt, e, known, iStar, EvalStart(s, delta, iStar), s.p.NbEvals(), xv, uv)
  {
    hide Lift;
    hide KnownComs;
    hide EvalOf;
    hide CommitCtx1;
    hide CommitCtx2;
    hide Punctured.Leaves;
    hide Xor;
    coms, xv, uv := [], [], [];
    var cache := Prg.InitCache(useCache, s.p, PrgBytes(s));
    ret := Trees.PartiallyExpand(s.p, salt, Pieces(path, s.p.seedSize, s.p.log), e, iStar, lseed);
    if ret != 0 {
      return;
    }
    ghost var known := KnownLeaves(s, salt, e, path, iStar);
    assert lseed[..] == known;
    hide KnownLeaves;
    var ctx1, ctx2 := CommitKeys(s.p, salt, e);
    var r := s.f.Point(iStar);
    var serialized := Zeros(s.p.seedSize) + delta;
    var start := Scale(s.f.ext, r, Lift(s.f, serialized, s.p.n));
    coms, xv, uv := EvalLeaves(s, salt, e, ctx1, ctx2, lseed, known, com, iStar, r, start, exp, cache);
  }

  /** What the first repetitions of an evaluation have produced, all challenges so far being leaves. */
  ghost predicate EvalProgress<B, E>(s: Scheme<B, E>, salt: Bytes, opening: Bytes, iStar: seq<nat>,
                                     want: seq<seq<Bytes>>, xEval: seq<seq<E>>, uEval: seq<seq<E>>)
    requires Sized(s) && |salt| == s.p.saltSize && |opening| == OpeningSize(s) && |iStar| == s.p.tau
  {
    && |want| <= s.p.tau == |xEval| == |uEval|
    && forall e | 0 <= e < |want| :: RepetitionEvaluated(s, salt, opening, iStar[e], e, want[e], xEval[e], uEval[e])
  }

  ghost predicate RepetitionEvaluated<B, E>(s: Scheme<B, E>, salt: Bytes, opening: Bytes, i: nat, e: nat,
                                            coms: seq<Bytes>, xv: seq<E>, uv: seq<E>)
    requires Sized(s) && |salt| == s.p.saltSize && |opening| == OpeningSize(s) && e < s.p.tau
  {
    && i < s.p.NbEvals()
    && var known := KnownLeaves(s, salt, e, ReadPaths(s, opening)[e], i);
    && coms == KnownComs(s, salt, e, known, ReadComs(s, opening)[e], i)
    && EvalOf(s, salt, e, known, i, EvalStart(s, ReadDeltas(s, opening)[e], i), s.p.NbEvals(), xv, uv)
  }

  lemma CompleteEvaluation<B, E>(s: Scheme<B, E>, salt: Bytes, opening: Bytes, iStar: seq<nat>, want: seq<seq<Bytes>>,
                                 hashes: seq<Bytes>, xEval: seq<seq<E>>, uEval: seq<seq<E>>)
    requires Sized(s) && |salt| == s.p.saltSize && |opening| == OpeningSize(s) && |iStar| == s.p.tau
    requires EvalProgress(s, salt, opening, iStar, want, xEval, uEval) && |want| == s.p.tau == |hashes|
    requires forall e | 0 <= e < s.p.tau :: hashes[e] == HashComs(s.p, want[e])
    ensures ValidChallenge(s.p, iStar)
    ensures hashes == VerifierHashes(s, salt, opening, iStar)
    ensures forall e | 0 <= e < s.p.tau :: xEval[e] == VerifierX(s, salt, opening, iStar, e)
    ensures forall e | 0 <= e < s.p.tau :: uEval[e] == VerifierU(s, salt, opening, iStar, e)
  {
    hide KnownLeaves;
    hide KnownComs;
    hide ReadPaths;
    hide ReadComs;
    hide ReadDeltas;
    hide EvalStart;
    hide HashComs;
    hide EvalX;
    hide EvalU;
    forall e | 0 <= e < s.p.tau ensures RepetitionEvaluated(s, salt, opening, iStar[e], e, want[e], xEval[e], uEval[e]) {
    }
  }

  /** Evaluates one more repetition, stores the result and hashes what is ready. */
  method EvalNext<B, E>(s: Scheme<B, E>, useCache: bool, salt: Bytes, ghost opening: Bytes, path: Bytes, com: Bytes, delta: Bytes,
                        e: nat, ghost iStar: seq<nat>, i: nat, lseed: array<Bytes>, exp: array<Byte>, slots: Slots,
                        bufs: array<seq<Bytes>>, hashes: array<Bytes>, xEval: array<seq<E>>, uEval: array<seq<E>>,
                        ghost want: seq<seq<Bytes>>) returns (ret: int, ghost coms: seq<Bytes>)
    requires Sized(s) && |salt| == s.p.saltSize && |opening| == OpeningSize(s) && |iStar| == s.p.tau
    requires e < s.p.tau && i == iStar[e] && |want| == e && (slots == Single ==> !s.p.xofX4)
    requires path == ReadPaths(s, opening)[e] && com == ReadComs(s, opening)[e] && delta == ReadDeltas(s, opening)[e]
    requires lseed.Length == s.p.NbEvals() && exp.Length == s.XBytes() + s.EtaBytes()
    requires xEval.Length == uEval.Length == s.p.tau && xEval != uEval
    requires {xEval, uEval} !! {bufs as object, hashes, lseed}
    requires hashes != lseed && bufs as object !in {hashes as object, lseed}
    requires EvalProgress(s, salt, opening, iStar, want, xEval[..], uEval[..])
    requires Tracks(s.p, slots, bufs[..], hashes[..], want)
    modifies lseed, exp, bufs, hashes, xEval, uEval
    ensures ret == if i < s.p.NbEvals() then 0 else -1
    ensures ret == 0 ==> EvalProgress(s, salt, opening, iStar, want + [coms], xEval[..], uEval[..])
    ensures ret == 0 ==> Tracks(s.p, slots, bufs[..], hashes[..], want + [coms])
  {
    hide EvalOf;
    hide ReadPaths;
    hide ReadComs;
    hide ReadDeltas;
    hide KnownComs;
    hide KnownLeaves;
    hide EvalStart;
    hide Tracks;
    hide EvalProgress;
    var row, xv, uv;
    ret, row, xv, uv := EvalRepetition(s, useCache, salt, e, path, com, delta, i, lseed, exp);
    coms := row;
    if ret != 0 {
      return;
    }
    ExtendEvaluation(s, salt, opening, iStar, want, xEval[..], uEval[..], e, row, xv, uv);
    xEval[e] := xv;
    uEval[e] := uv;
    HashRepetition(s.p, slots, bufs, hashes, e, row, want);
  }

  lemma ExtendEvaluation<B, E>(s: Scheme<B, E>, salt: Bytes, opening: Bytes, iStar: seq<nat>, want: seq<seq<Bytes>>,
                               xEval: seq<seq<E>>, uEval: seq<seq<E>>, e: nat, coms: seq<Bytes>, xv: seq<E>, uv: seq<E>)
    requires Sized(s) && |salt| == s.p.saltSize && |opening| == OpeningSize(s) && |iStar| == s.p.tau
    requires EvalProgress(s, salt, opening, iStar, want, xEval, uEval) && e == |want| < s.p.tau
    requires RepetitionEvaluated(s, salt, opening, iStar[e], e, coms, xv, uv)
    ensures EvalProgress(s, salt, opening, iStar, want + [coms], xEval[e := xv], uEval[e := uv])
  {
    hide RepetitionEvaluated;
  }

  method Eval<B, E>(s: Scheme<B, E>, useCache: bool, salt: Bytes, com1: Bytes, opening: Bytes, iStar: seq<nat>,
                    xEval: array<seq<E>>, uEval: array<seq<E>>) returns (ret: int)
    requires Sized(s) && |salt| == s.p.saltSize && |opening| == OpeningSize(s) && |iStar| == s.p.tau
    requires xEval.Length == uEval.Length == s.p.tau && xEval != uEval
    modifies xEval, uEval
    ensures ret == if ValidChallenge(s.p, iStar) && com1 == VerifierCom1(s, salt, opening, iStar) then 0 else -1
    ensures ret == 0 ==> forall e | 0 <= e < s.p.tau :: xEval[e] == VerifierX(s, salt, opening, iStar, e)
    ensures ret == 0 ==> forall e | 0 <= e < s.p.tau :: uEval[e] == VerifierU(s, salt, opening, iStar, e)
  {
    hide RepetitionEvaluated;
    hide HashComs;
    hide VerifierX;
    hide VerifierU;
    hide VerifierHashes;
    hide ReadPaths;
    hide ReadComs;
    hide ReadDeltas;
    var slots := if s.p.xofX4 then Slots.Ring else Single;
    var bufs := new seq<Bytes>[slots.Count(s.p.tau)](_ => []);
    var hashes := new Bytes[s.p.tau](_ => []);
    var lseed := new Bytes[s.p.NbEvals()](_ => []);
    var exp := new Byte[s.XBytes() + s.EtaBytes()](_ => ZERO_BYTE);
    var paths, coms, deltas := ReadPaths(s, opening), ReadComs(s, opening), ReadDeltas(s, opening);
    ghost var want: seq<seq<Bytes>> := [];
    assert Tracks(s.p, slots, bufs[..], hashes[..], want);
    hide Tracks;
    hide OpeningSize;
    for e := 0 to s.p.tau
      invariant |want| == e && EvalProgress(s, salt, opening, iStar, want, xEval[..], uEval[..])
      invariant Tracks(s.p, slots, bufs[..], hashes[..], want)
    {
      hide EvalProgress;
      ghost var row;
      ret, row := EvalNext(s, useCache, salt, opening, paths[e], coms[e], deltas[e], e, iStar, iStar[e], lseed, exp,
                           slots, bufs, hashes, xEval, uEval, want);
      if ret != 0 {
        return;
      }
      want := want + [row];
    }
    AllHashed(s.p, slots, bufs[..], hashes[..], want);
    CompleteEvaluation(s, salt, opening, iStar, want, hashes[..], xEval[..], uEval[..]);
    var com1' := DigestAll(s.p, hashes[..], deltas);
    ret := if com1 != com1' then -1 else 0;
  }
}
