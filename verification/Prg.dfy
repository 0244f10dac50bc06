/** The seed expander: counter-mode blocks of the tweaked cipher, with a cache of expanded keys. */
module Prg {
  import opened ByteStrings
  import opened Naturals
  import opened Common

  // ---- what the expander stands for ----

  function BlockCtx(p: Params, salt: Bytes, e: nat, b: nat): EncCtx
    requires |salt| >= 3
  {
    p.KeySched(TweakSalt(salt, 3, e, b))
  }

  /** Block b of the expansion of a seed. */
  function Block(p: Params, salt: Bytes, e: nat, seed: Bytes, b: nat): (r: Bytes)
    requires p.Valid() && |salt| >= 3 && |seed| == p.seedSize
    ensures |r| == p.seedSize
  {
    Derive(p, BlockCtx(p, salt, e, b), seed)
  }

  /** The first n blocks, one after the other. */
  function Blocks(p: Params, salt: Bytes, e: nat, seed: Bytes, n: nat): (r: Bytes)
    requires p.Valid() && |salt| >= 3 && |seed| == p.seedSize
    ensures |r| == n * p.seedSize
  {
    if n == 0 then [] else Blocks(p, salt, e, seed, n - 1) + Block(p, salt, e, seed, n - 1)
  }

  /** The first nbytes bytes of the expansion. */
  function Expansion(p: Params, salt: Bytes, e: nat, seed: Bytes, nbytes: nat): (r: Bytes)
    requires p.Valid() && |salt| >= 3 && |seed| == p.seedSize
    ensures |r| == nbytes
  {
    CeilDivCovers(nbytes, p.seedSize);
    Blocks(p, salt, e, seed, CeilDiv(nbytes, p.seedSize))[..nbytes]
  }

  lemma {:induction false} BlocksPrefix(p: Params, salt: Bytes, e: nat, seed: Bytes, m: nat, n: nat)
    requires p.Valid() && |salt| >= 3 && |seed| == p.seedSize && m <= n
    ensures Blocks(p, salt, e, seed, m) <= Blocks(p, salt, e, seed, n)
  {
    hide Block;
    if m < n {
      BlocksPrefix(p, salt, e, seed, m, n - 1);
    }
  }

  /** Byte k of block b of any expansion is byte k of the cipher block for counter b, however long it is. */
  lemma ExpansionByte(p: Params, salt: Bytes, e: nat, seed: Bytes, nbytes: nat, b: nat, k: nat)
    requires p.Valid() && |salt| >= 3 && |seed| == p.seedSize && k < p.seedSize && b * p.seedSize + k < nbytes
    ensures Expansion(p, salt, e, seed, nbytes)[b * p.seedSize + k] == Block(p, salt, e, seed, b)[k]
  {
    hide Block;
    var n := CeilDiv(nbytes, p.seedSize);
    CeilDivCovers(nbytes, p.seedSize);
    hide CeilDiv;
    MulMono(n, b, p.seedSize);
    BlockByte(p, salt, e, seed, n, b, k);
  }

  lemma BlockByte(p: Params, salt: Bytes, e: nat, seed: Bytes, n: nat, b: nat, k: nat)
    requires p.Valid() && |salt| >= 3 && |seed| == p.seedSize && b < n && k < p.seedSize
    ensures b * p.seedSize + k < n * p.seedSize
    ensures Blocks(p, salt, e, seed, n)[b * p.seedSize + k] == Block(p, salt, e, seed, b)[k]
  {
    hide Block;
    assert (b + 1) * p.seedSize == b * p.seedSize + p.seedSize;
    MulMono(b + 1, n, p.seedSize);
    BlocksPrefix(p, salt, e, seed, b + 1, n);
    assert Blocks(p, salt, e, seed, b + 1) == Blocks(p, salt, e, seed, b) + Block(p, salt, e, seed, b);
    assert Blocks(p, salt, e, seed, n)[b * p.seedSize + k] == Blocks(p, salt, e, seed, b + 1)[b * p.seedSize + k];
  }

  /** A longer expansion starts with the shorter one. */
  lemma ExpansionPrefix(p: Params, salt: Bytes, e: nat, seed: Bytes, a: nat, b: nat)
    requires p.Valid() && |salt| >= 3 && |seed| == p.seedSize && a <= b
    ensures Expansion(p, salt, e, seed, b)[..a] == Expansion(p, salt, e, seed, a)
  {
    hide Block;
    var m, n := CeilDiv(a, p.seedSize), CeilDiv(b, p.seedSize);
    CeilDivCovers(a, p.seedSize);
    CeilDivCovers(b, p.seedSize);
    CeilDivMono(a, b, p.seedSize);
    hide CeilDiv;
    BlocksPrefix(p, salt, e, seed, m, n);
  }

  // ---- the cache of expanded keys ----

  class KeyCache {
    const active: array<bool>
    const ctx: array<EncCtx>

    ghost predicate Shaped()
    {
      active.Length == ctx.Length
    }

    /** Every active slot i holds the key of block i for this salt and repetition. */
    ghost predicate Holds(p: Params, salt: Bytes, e: nat)
      requires |salt| >= 3
      reads active, ctx
    {
      && Shaped()
      && forall i | 0 <= i < active.Length && active[i] :: ctx[i] == BlockCtx(p, salt, e, i)
    }

    constructor (entries: nat)
      ensures Shaped() && fresh(active) && fresh(ctx) && active.Length == entries
      ensures forall i | 0 <= i < entries :: !active[i]
    {
      active := new bool[entries](_ => false);
      ctx := new EncCtx[entries](_ => EncCtx([]));
    }

    method SetEntry(i: nat, c: EncCtx)
      requires Shaped() && i < active.Length
      modifies active, ctx
      ensures active[..] == old(active[..])[i := true]
      ensures ctx[..] == old(ctx[..])[i := c]
    {
      ctx[i] := c;
      active[i] := true;
    }
  }

  /** The cache can serve blocks 0 to `blocks` of this salt and repetition; a null cache serves any. */
  ghost predicate Serves(cache: KeyCache?, p: Params, salt: Bytes, e: nat, blocks: nat)
    requires |salt| >= 3
    reads if cache == null then {} else {cache.active, cache.ctx}
  {
    cache != null ==> cache.Holds(p, salt, e) && blocks <= cache.active.Length
  }

  ghost function Footprint(cache: KeyCache?): set<object>
  {
    if cache == null then {} else {cache.active, cache.ctx}
  }

  method InitCache(useCache: bool, p: Params, nbytes: nat) returns (cache: KeyCache?)
    requires p.Valid()
    ensures fresh(Footprint(cache))
    ensures forall salt: Bytes, e | |salt| >= 3 :: Serves(cache, p, salt, e, CeilDiv(nbytes, p.seedSize))
  {
    cache := null;
    if useCache {
      cache := new KeyCache(CeilDiv(nbytes, p.seedSize));
    }
  }

  /** The expanded key of block i, taken from the cache or computed and remembered. */
  method KeySched(p: Params, salt: Bytes, e: nat, i: nat, cache: KeyCache?) returns (ctx: EncCtx)
    requires |salt| >= 3 && Serves(cache, p, salt, e, i + 1)
    modifies Footprint(cache)
    ensures ctx == BlockCtx(p, salt, e, i)
    ensures cache != null ==> cache.Holds(p, salt, e)
  {
    hide TweakSalt;
    if cache != null && cache.active[i] {
      ctx := cache.ctx[i];
    } else {
      ctx := p.KeySched(TweakSalt(salt, 3, e, i));
      if cache != null {
        cache.SetEntry(i, ctx);
      }
    }
  }

  // ---- the expander ----

  /** The first n blocks have been written at offset `off`, and nothing else has changed. */
  ghost predicate Written(p: Params, salt: Bytes, e: nat, seed: Bytes, before: Bytes, off: nat, n: nat, now: Bytes)
    requires p.Valid() && |salt| >= 3 && |seed| == p.seedSize
  {
    && off + n * p.seedSize <= |before|
    && now == Splice(before, off, Blocks(p, salt, e, seed, n))
  }

  /** Writes block n, given its expanded key and LinOrtho of the seed. */
  method StoreBlock(p: Params, ghost salt: Bytes, ghost e: nat, seed: Bytes, linSeed: Bytes, ctx: EncCtx,
                    ghost before: Bytes, out: array<Byte>, off: nat, n: nat)
    requires p.Valid() && |salt| >= 3 && |seed| == p.seedSize && linSeed == LinOrtho(seed)
    requires ctx == BlockCtx(p, salt, e, n)
    requires |before| == out.Length && off + (n + 1) * p.seedSize <= out.Length
    requires Written(p, salt, e, seed, before, off, n, out[..])
    modifies out
    ensures Written(p, salt, e, seed, before, off, n + 1, out[..])
  {
    hide Xor;
    hide LinOrtho;
    hide TweakSalt;
    var block := Xor(p.Encrypt(ctx, seed), linSeed);
    assert block == Block(p, salt, e, seed, n);
    assert (n + 1) * p.seedSize == n * p.seedSize + p.seedSize;
    SpliceAppend(before, off, Blocks(p, salt, e, seed, n), block);
    Store(out, off + p.seedSize * n, block);
  }

  /** Writes four blocks with one batch of key schedules. */
  method StoreBlocksX4(p: Params, salt: Bytes, e: nat, seed: Bytes, linSeed: Bytes,
                       ghost before: Bytes, out: array<Byte>, off: nat, n: nat, cache: KeyCache?)
    requires p.Valid() && |salt| >= 3 && |seed| == p.seedSize && linSeed == LinOrtho(seed)
    requires |before| == out.Length && off + (n + 4) * p.seedSize <= out.Length
    requires Written(p, salt, e, seed, before, off, n, out[..])
    requires Serves(cache, p, salt, e, n + 4)
    modifies out, Footprint(cache)
    ensures Written(p, salt, e, seed, before, off, n + 4, out[..])
    ensures cache != null ==> cache.Holds(p, salt, e)
  {
    hide LinOrtho;
    hide Written;
    hide BlockCtx;
    var ctx1 := KeySched(p, salt, e, n, cache);
    var ctx2 := KeySched(p, salt, e, n + 1, cache);
    var ctx3 := KeySched(p, salt, e, n + 2, cache);
    var ctx4 := KeySched(p, salt, e, n + 3, cache);
    RoomFor(p.seedSize, off, n + 1, n + 4, out.Length);
    RoomFor(p.seedSize, off, n + 2, n + 4, out.Length);
    RoomFor(p.seedSize, off, n + 3, n + 4, out.Length);
    StoreBlock(p, salt, e, seed, linSeed, ctx1, before, out, off, n);
    StoreBlock(p, salt, e, seed, linSeed, ctx2, before, out, off, n + 1);
    StoreBlock(p, salt, e, seed, linSeed, ctx3, before, out, off, n + 2);
    StoreBlock(p, salt, e, seed, linSeed, ctx4, before, out, off, n + 3);
  }

  lemma RoomFor(s: nat, off: nat, k: nat, n: nat, len: nat)
    requires k <= n && off + n * s <= len
    ensures off + k * s <= len
  {
    MulMono(k, n, s);
  }

  /** How a length splits into groups of four blocks, `more` further blocks and a remainder. */
  lemma BlockCounts(nbytes: nat, s: nat, full: nat, groups: nat, more: nat)
    requires s > 0 && full == nbytes / s && groups == full / 4 && more == full % 4
    ensures nbytes / (4 * s) == groups
    ensures 4 * s * groups <= nbytes && (nbytes - 4 * s * groups) / s == more
    ensures nbytes == full * s + nbytes % s && full * s <= nbytes
  {
    DivMulBound(nbytes, s);
    assert full * s == 4 * (groups * s) + more * s by {
      assert full == 4 * groups + more;
    }
    GroupQuotients(nbytes, s, groups, more, nbytes - full * s);
  }

  lemma GroupQuotients(nbytes: nat, s: nat, groups: nat, more: nat, rest: nat)
    requires rest < s && more <= 3
    requires nbytes == 4 * (groups * s) + more * s + rest
    ensures nbytes / (4 * s) == groups
    ensures 4 * s * groups <= nbytes && (nbytes - 4 * s * groups) / s == more
  {
    assert groups * (4 * s) == 4 * s * groups == 4 * (groups * s);
    MulMono(more, 3, s);
    QuotientUnique(nbytes, 4 * s, groups);
    QuotientUnique(nbytes - 4 * s * groups, s, more);
  }

  lemma CeilOfBlocks(nbytes: nat, s: nat, full: nat)
    requires s > 0 && full == nbytes / s
    ensures CeilDiv(nbytes, s) == if nbytes % s == 0 then full else full + 1
  {
    DivMulBound(nbytes, s);
    if nbytes % s == 0 {
      QuotientUnique(nbytes + s - 1, s, full);
    } else {
      assert (full + 1) * s == full * s + s;
      QuotientUnique(nbytes + s - 1, s, full + 1);
    }
  }

  lemma SplitLength(nbytes: nat, s: nat) returns (full: nat, more: nat)
    requires s > 0
    ensures more <= 3 && full == 4 * (nbytes / (4 * s)) + more
    ensures var groups := nbytes / (4 * s); 4 * s * groups <= nbytes && (nbytes - 4 * s * groups) / s == more
    ensures nbytes == full * s + nbytes % s && full * s <= nbytes
    ensures CeilDiv(nbytes, s) == if nbytes % s == 0 then full else full + 1
  {
    hide CeilDiv;
    full := nbytes / s;
    more := full % 4;
    BlockCounts(nbytes, s, full, full / 4, more);
    CeilOfBlocks(nbytes, s, full);
  }

  /** Whole blocks, four at a time. */
  method StoreGroups(p: Params, salt: Bytes, e: nat, seed: Bytes, linSeed: Bytes, ghost before: Bytes,
                     out: array<Byte>, off: nat, groups: nat, ghost full: nat, cache: KeyCache?)
    returns (filled: nat)
    requires p.Valid() && |salt| >= 3 && |seed| == p.seedSize && linSeed == LinOrtho(seed)
    requires 4 * groups <= full
    requires |before| == out.Length && before == out[..] && off + full * p.seedSize <= out.Length
    requires Serves(cache, p, salt, e, full)
    modifies out, Footprint(cache)
    ensures filled == 4 * groups
    ensures Written(p, salt, e, seed, before, off, filled, out[..])
    ensures cache != null ==> cache.Holds(p, salt, e)
  {
    hide LinOrtho;
    hide BlockCtx;
    filled := 0;
    for i := 0 to groups
      invariant filled == 4 * i
      invariant Written(p, salt, e, seed, before, off, filled, out[..])
      invariant cache != null ==> cache.Holds(p, salt, e)
    {
      hide Written;
      RoomFor(p.seedSize, off, filled + 4, full, out.Length);
      StoreBlocksX4(p, salt, e, seed, linSeed, before, out, off, filled, cache);
      filled := filled + 4;
    }
  }

  /**
   * Writes nbytes bytes of the expansion at offset `off`: blocks four at a time, then the
   * remaining whole blocks, then a partial one.
   */
  method Expand(p: Params, salt: Bytes, e: nat, seed: Bytes, nbytes: nat, out: array<Byte>, off: nat, cache: KeyCache?)
    returns (ret: int)
    requires p.Valid() && |salt| >= 3 && |seed| == p.seedSize
    requires off + nbytes <= out.Length
    requires Serves(cache, p, salt, e, CeilDiv(nbytes, p.seedSize))
    modifies out, Footprint(cache)
    ensures ret == 0
    ensures out[..] == Splice(old(out[..]), off, Expansion(p, salt, e, seed, nbytes))
    ensures cache != null ==> cache.Holds(p, salt, e)
  {
    hide LinOrtho;
    hide BlockCtx;
    hide Xor;
    ghost var before := out[..];
    var linSeed := LinOrtho(seed);
    hide Expansion;
    hide Written;
    hide CeilDiv;
    ghost var full, more := SplitLength(nbytes, p.seedSize);
    var groups := nbytes / (4 * p.seedSize);
    var filled := StoreGroups(p, salt, e, seed, linSeed, before, out, off, groups, full, cache);
    var remaining := (nbytes - 4 * p.seedSize * groups) / p.seedSize;
    if remaining >= 4 {
      return -1;
    }
    filled := StoreRemaining(p, salt, e, seed, linSeed, before, out, off, filled, remaining, full, cache);
    StorePartial(p, salt, e, seed, linSeed, before, out, off, filled, nbytes, nbytes % p.seedSize, cache);
    ret := 0;
  }

  /** The head of one more block, if the length is not a multiple of the block size. */
  method StorePartial(p: Params, salt: Bytes, e: nat, seed: Bytes, linSeed: Bytes, ghost before: Bytes,
                      out: array<Byte>, off: nat, full: nat, nbytes: nat, rest: nat, cache: KeyCache?)
    requires p.Valid() && |salt| >= 3 && |seed| == p.seedSize && linSeed == LinOrtho(seed)
    requires nbytes == full * p.seedSize + rest && rest < p.seedSize
    requires |before| == out.Length && off + nbytes <= out.Length
    requires Written(p, salt, e, seed, before, off, full, out[..])
    requires Serves(cache, p, salt, e, if rest == 0 then full else full + 1)
    requires CeilDiv(nbytes, p.seedSize) == if rest == 0 then full else full + 1
    modifies out, Footprint(cache)
    ensures out[..] == Splice(before, off, Expansion(p, salt, e, seed, nbytes))
    ensures cache != null ==> cache.Holds(p, salt, e)
  {
    hide LinOrtho;
    hide BlockCtx;
    hide Xor;
    hide CeilDiv;
    if rest != 0 {
      var ctx := KeySched(p, salt, e, full, cache);
      var leftover := Xor(p.Encrypt(ctx, seed), linSeed);
      assert leftover == Block(p, salt, e, seed, full);
      Store(out, off + p.seedSize * full, leftover[..rest]);
      PartialBlock(p, salt, e, seed, before, off, full, nbytes, rest);
    }
  }

  /** At most three whole blocks. */
  method StoreRemaining(p: Params, salt: Bytes, e: nat, seed: Bytes, linSeed: Bytes, ghost before: Bytes,
                        out: array<Byte>, off: nat, n: nat, remaining: nat, ghost full: nat, cache: KeyCache?)
    returns (filled: nat)
    requires p.Valid() && |salt| >= 3 && |seed| == p.seedSize && linSeed == LinOrtho(seed)
    requires remaining <= 3 && full == n + remaining
    requires |before| == out.Length && off + full * p.seedSize <= out.Length
    requires Written(p, salt, e, seed, before, off, n, out[..])
    requires Serves(cache, p, salt, e, full)
    modifies out, Footprint(cache)
    ensures filled == full
    ensures Written(p, salt, e, seed, before, off, full, out[..])
    ensures cache != null ==> cache.Holds(p, salt, e)
  {
    hide LinOrtho;
    hide Written;
    hide BlockCtx;
    filled := n;
    if remaining == 1 {
      var ctx1 := KeySched(p, salt, e, filled, cache);
      StoreBlock(p, salt, e, seed, linSeed, ctx1, before, out, off, filled);
      filled := filled + 1;
    } else if remaining == 2 {
      var ctx1 := KeySched(p, salt, e, filled, cache);
      var ctx2 := KeySched(p, salt, e, filled + 1, cache);
      RoomFor(p.seedSize, off, n + 1, full, out.Length);
      StoreBlock(p, salt, e, seed, linSeed, ctx1, before, out, off, filled);
      StoreBlock(p, salt, e, seed, linSeed, ctx2, before, out, off, filled + 1);
      filled := filled + 2;
    } else if remaining == 3 {
      var ctx1 := KeySched(p, salt, e, filled, cache);
      var ctx2 := KeySched(p, salt, e, filled + 1, cache);
      var ctx3 := KeySched(p, salt, e, filled + 2, cache);
      RoomFor(p.seedSize, off, n + 1, full, out.Length);
      RoomFor(p.seedSize, off, n + 2, full, out.Length);
      StoreBlock(p, salt, e, seed, linSeed, ctx1, before, out, off, filled);
      StoreBlock(p, salt, e, seed, linSeed, ctx2, before, out, off, filled + 1);
      StoreBlock(p, salt, e, seed, linSeed, ctx3, before, out, off, filled + 2);
      filled := filled + 3;
    }
  }

  /** The whole blocks and the head of one more make up the expansion. */
  lemma PartialBlock(p: Params, salt: Bytes, e: nat, seed: Bytes, before: Bytes, off: nat, full: nat, nbytes: nat, rest: nat)
    requires p.Valid() && |salt| >= 3 && |seed| == p.seedSize
    requires nbytes == full * p.seedSize + rest && rest < p.seedSize
    requires off + nbytes <= |before| && CeilDiv(nbytes, p.seedSize) == full + 1
    ensures Splice(Splice(before, off, Blocks(p, salt, e, seed, full)), off + full * p.seedSize,
                   Block(p, salt, e, seed, full)[..rest])
            == Splice(before, off, Expansion(p, salt, e, seed, nbytes))
  {
    hide Block;
    hide CeilDiv;
    var whole, part := Blocks(p, salt, e, seed, full), Block(p, salt, e, seed, full)[..rest];
    assert Blocks(p, salt, e, seed, full + 1) == whole + Block(p, salt, e, seed, full);
    assert Blocks(p, salt, e, seed, full + 1)[..nbytes] == whole + part;
    SpliceAppend(before, off, whole, part);
  }
}
