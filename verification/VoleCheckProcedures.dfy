/** The column loop shared by both sides of the VOLE check. */
module VoleCheckProcedures {
  import opened ByteStrings
  import opened Algebra
  import opened BitPolynomials
  import opened UniversalHash
  import opened VoleCheck
  import Naturals
  import Layout

  /** The transcript hasher: what it has absorbed. */
  class Transcript {
    var data: Poly

    constructor ()
      ensures data == []
    {
      data := [];
    }

    method Update(bytes: Poly)
      modifies this
      ensures data == old(data) + bytes
    {
      data := data + bytes;
    }
  }

  /** The keys expanded for the two hashers. */
  datatype HasherKeys<E, H> = HasherKeys(large: seq<E>, small: seq<H>, top: H)

  ghost predicate KeysFor<E(!new), H(!new)>(V: Setting<E, H>, X: Challenge<E, H>, k: HasherKeys<E, H>) {
    && |k.large| >= 1 && k.large == KeyPowers(V.F.ring, X.key, |k.large|)
    && |k.small| >= 1 && k.small == KeyPowers(V.G.ring, X.key64, |k.small|)
    && k.top == V.G.Mul(Power(V.G.ring, X.key64, |k.small|), Power(V.G.ring, V.G.x, V.G.n))
  }

  method InitKeys<E(!new), H(!new)>(V: Setting<E, H>, X: Challenge<E, H>, countLarge: nat, countSmall: nat)
    returns (k: HasherKeys<E, H>)
    requires ValidSetting(V) && countLarge >= 1 && countSmall >= 1
    ensures KeysFor(V, X, k)
  {
    hide PolyFieldLaws;
    var large := InitKey(V.F, X.key, countLarge);
    var small := InitKey(V.G, X.key64, countSmall);
    var top := TimesTop(V.G, small[countSmall - 1]);
    k := HasherKeys(large, small, top);
  }

  /** Both hashers have absorbed the first c chunks of a column, and j pieces of the next. */
  ghost predicate ColumnFed<E(!new), H(!new)>(V: Setting<E, H>, X: Challenge<E, H>, k: HasherKeys<E, H>, col: Poly, c: nat,
                                              large: DelayedHasher, small: DelayedHasher)
    requires ValidSetting(V) && |col| >= V.rows && c <= ChunkCount(V) && |k.large| >= 1 && |k.small| >= 1
    reads large, small
  {
    && Absorbed(V.F, X.key, |k.large|, ChunkCount(V), Inputs(V, col, c), large.Value())
    && Absorbed(V.G, X.key64, |k.small|, ChunkCount(V) * V.ratio, SmallInputs(V, col, c), small.Value())
  }

  /** Feeds a chunk to the small hasher piece by piece. */
  method FeedPieces<E(!new), H(!new)>(V: Setting<E, H>, ghost X: Challenge<E, H>, k: HasherKeys<E, H>, chunk: Poly,
                                      ghost total: nat, ghost before: seq<H>, small: DelayedHasher)
    requires ValidSetting(V) && KeysFor(V, X, k) && |chunk| == V.F.n && V.G.n > 0
    requires Absorbed(V.G, X.key64, |k.small|, total, before, small.Value())
    modifies small
    ensures Absorbed(V.G, X.key64, |k.small|, total, before + Pieces(V, chunk, V.ratio), small.Value())
  {
    hide PolyFieldLaws;
    hide Absorbed;
    assert before + Pieces(V, chunk, 0) == before;
    var j := 0;
    ghost var n := 0;
    while j < V.F.n
      invariant n <= V.ratio && j == n * V.G.n
      invariant Absorbed(V.G, X.key64, |k.small|, total, before + Pieces(V, chunk, n), small.Value())
      decreases V.F.n - j
    {
      PieceAt(V, n, j);
      var input := V.G.Reduce(chunk[j..j + V.G.n]);
      assert before + Pieces(V, chunk, n + 1) == before + Pieces(V, chunk, n) + [input];
      small.UpdateHalves(V.G, X.key64, k.small, k.top, input, total, before + Pieces(V, chunk, n));
      j, n := j + V.G.n, n + 1;
    }
    AllPieces(V, n, j);
  }

  lemma PieceAt<E, H>(V: Setting<E, H>, n: nat, j: nat)
    requires V.F.n == V.ratio * V.G.n && j == n * V.G.n && j < V.F.n
    ensures n < V.ratio && j + V.G.n <= V.F.n && (n + 1) * V.G.n == j + V.G.n
  {
    Naturals.MulMono(V.ratio, n, V.G.n);
    Naturals.MulMono(n + 1, V.ratio, V.G.n);
    assert (n + 1) * V.G.n == n * V.G.n + V.G.n;
  }

  lemma AllPieces<E, H>(V: Setting<E, H>, n: nat, j: nat)
    requires V.F.n == V.ratio * V.G.n && V.G.n > 0 && j == n * V.G.n && j >= V.F.n && n <= V.ratio
    ensures n == V.ratio
  {
    Naturals.MulMono(n + 1, V.ratio, V.G.n);
    assert (n + 1) * V.G.n == n * V.G.n + V.G.n;
  }

  /** Feeds one chunk of a column to both hashers. */
  method FeedChunk<E(!new), H(!new)>(V: Setting<E, H>, ghost X: Challenge<E, H>, k: HasherKeys<E, H>, ghost col: Poly, ghost c: nat,
                                     chunk: Poly, large: DelayedHasher, small: DelayedHasher)
    requires ValidSetting(V) && KeysFor(V, X, k) && |col| >= V.rows && c < ChunkCount(V) && V.G.n > 0
    requires large != small && chunk == Chunk(V, col, c) && ColumnFed(V, X, k, col, c, large, small)
    modifies large, small
    ensures ColumnFed(V, X, k, col, c + 1, large, small)
  {
    hide PolyFieldLaws;
    hide Absorbed;
    hide Chunk;
    hide ChunkCount;
    hide Pieces;
    large.Update(V.F, X.key, k.large, V.F.Reduce(chunk), ChunkCount(V), Inputs(V, col, c));
    FeedPieces(V, X, k, chunk, ChunkCount(V) * V.ratio, SmallInputs(V, col, c), small);
  }

  /** Hashes the rows of a column with both hashers; each gets exactly the updates it was told. */
  method HashColumn<E(!new), H(!new)>(V: Setting<E, H>, X: Challenge<E, H>, k: HasherKeys<E, H>, toHash: Poly)
    returns (largeHash: E, smallHash: H)
    requires ValidSetting(V) && KeysFor(V, X, k) && |toHash| >= V.rows
    ensures largeHash == LargeHash(V, X, toHash)
    ensures smallHash == HashOf(V.G.ring, X.key64, SmallInputs(V, toHash, ChunkCount(V)))
  {
    hide PolyFieldLaws;
    hide Absorbed;
    hide Chunk;
    hide Inputs;
    hide SmallInputs;
    SmallFieldNonEmpty(V);
    var paddedRows := (V.rows + V.F.n - 1) / V.F.n * V.F.n;
    DeclaredUpdates(V);
    var large := new DelayedHasher(V.F.n, |k.large|, paddedRows / V.F.n);
    var small := new DelayedHasher(V.G.n, |k.small|, paddedRows / V.G.n);
    NothingFed(V, X, k, toHash, large, small);
    NoInitialPadding(V.rows, V.F.n);
    if paddedRows - V.rows >= V.F.n {
      assert false;
    }
    FeedColumn(V, X, k, toHash, large, small);
    ChunksNonzero(V);
    hide ChunkCount;
    largeHash := large.Finalize(V.F, X.key, |k.large|, Inputs(V, toHash, ChunkCount(V)));
    smallHash := small.Finalize(V.G, X.key64, |k.small|, SmallInputs(V, toHash, ChunkCount(V)));
  }

  lemma SmallFieldNonEmpty<E(!new), H(!new)>(V: Setting<E, H>)
    requires ValidSetting(V)
    ensures V.G.n > 0
  {
  }

  lemma NothingFed<E(!new), H(!new)>(V: Setting<E, H>, X: Challenge<E, H>, k: HasherKeys<E, H>, col: Poly,
                                     large: DelayedHasher, small: DelayedHasher)
    requires ValidSetting(V) && |col| >= V.rows && |k.large| >= 1 && |k.small| >= 1
    requires large.Value() == InitDelayed(V.F.n, |k.large|, ChunkCount(V))
    requires small.Value() == InitDelayed(V.G.n, |k.small|, ChunkCount(V) * V.ratio)
    ensures ColumnFed(V, X, k, col, 0, large, small)
  {
    hide PolyFieldLaws;
    hide ChunkCount;
    InitAbsorbed(V.F, X.key, |k.large|, ChunkCount(V));
    InitAbsorbed(V.G, X.key64, |k.small|, ChunkCount(V) * V.ratio);
  }

  /** Whole chunks first, then the padded rest. */
  method FeedColumn<E(!new), H(!new)>(V: Setting<E, H>, ghost X: Challenge<E, H>, k: HasherKeys<E, H>, toHash: Poly,
                                      large: DelayedHasher, small: DelayedHasher)
    requires ValidSetting(V) && KeysFor(V, X, k) && |toHash| >= V.rows && V.G.n > 0 && large != small
    requires ColumnFed(V, X, k, toHash, 0, large, small)
    modifies large, small
    ensures ColumnFed(V, X, k, toHash, ChunkCount(V), large, small)
  {
    hide PolyFieldLaws;
    hide ColumnFed;
    hide Chunk;
    hide ChunkCount;
    hide KeyPowers;
    hide Power;
    var i := 0;
    ghost var c := 0;
    while i + V.F.n <= V.rows
      invariant i == c * V.F.n && i <= V.rows && c <= ChunkCount(V)
      invariant |k.large| >= 1 && |k.small| >= 1
      invariant ColumnFed(V, X, k, toHash, c, large, small)
      decreases V.rows - i
    {
      WholeChunk(V, toHash, c, i);
      FeedChunk(V, X, k, toHash, c, toHash[i..i + V.F.n], large, small);
      NextChunk(V.F.n, c);
      i, c := i + V.F.n, c + 1;
    }
    RowsCovered(V.rows, V.F.n, c, i);
    assert i == V.rows - V.rows % V.F.n;
    if V.rows % V.F.n != 0 {
      LastChunk(V, toHash, c, i);
      FeedChunk(V, X, k, toHash, c, toHash[i..V.rows] + ZeroPoly(V.F.n - (V.rows - i)), large, small);
    } else {
      NoLastChunk(V, c);
    }
  }

  lemma NextChunk(n: nat, c: nat)
    ensures (c + 1) * n == c * n + n
  {
  }

  lemma RowsCovered(rows: nat, n: nat, c: nat, i: nat)
    requires n > 0 && i == c * n && i <= rows < i + n
    ensures i == rows - rows % n
  {
    Naturals.QuotientUnique(rows, n, c);
  }

  /** A column's masked hashes. */
  method OutputColumn<E(!new), H(!new)>(V: Setting<E, H>, X: Challenge<E, H>, k: HasherKeys<E, H>, toHash: Poly) returns (out: Poly)
    requires ValidSetting(V) && KeysFor(V, X, k) && |toHash| == V.rows + V.hashBits
    ensures out == ColumnOutput(V, X, toHash)
  {
    hide PolyFieldLaws;
    hide KeysFor;
    hide ChunkCount;
    hide Inputs;
    hide SmallInputs;
    var large, smallHash := HashColumn(V, X, k, toHash);
    var small := V.F.Reduce(V.G.Bits(smallHash));
    var mapped0 := MapHashes(V, X.m0, X.m1, large, small);
    var mapped1 := MapHashes(V, X.m2, X.m3, large, small);
    var mask := Widen(toHash[V.rows..], 2 * V.F.n);
    ReduceElement(V.F, mapped0);
    ReduceElement(V.F, mapped1);
    out := Plus(V.F.Bits(mapped0) + V.F.Bits(mapped1), mask);
  }

  /** Two wide products, added and reduced once. */
  method MapHashes<E(!new), H(!new)>(V: Setting<E, H>, a: E, b: E, large: E, small: E) returns (r: E)
    requires ValidSetting(V)
    ensures r == Mapped(V, a, b, large, small)
  {
    hide PolyFieldLaws;
    hide Clmul;
    hide Plus;
    FieldIsRing(V.F);
    ReduceProduct(V.F, a, large);
    ReduceProduct(V.F, b, small);
    ReducePlus(V.F, Clmul(V.F.Bits(a), V.F.Bits(large)), Clmul(V.F.Bits(b), V.F.Bits(small)));
    r := V.F.Reduce(Plus(Clmul(V.F.Bits(a), V.F.Bits(large)), Clmul(V.F.Bits(b), V.F.Bits(small))));
  }

  /** What has been fed once the columns below `col` are done. */
  ghost function FedBefore<E(!new), H(!new)>(V: Setting<E, H>, X: Challenge<E, H>, verifier: bool, u: Poly, vq: seq<Poly>,
                                             delta: seq<Byte>, proof: Poly, col: int): Poly
    requires ValidSetting(V) && |u| == V.rows + V.hashBits && AllColumns(V, vq) && |proof| == V.hashBits
    requires -1 <= col <= V.deltaBits && (verifier ==> col >= 0 && |delta| == V.deltaBits)
  {
    if verifier then ReceiverColumns(V, X, vq, delta, Widen(proof, 2 * V.F.n), col)
    else if col == -1 then []
    else SenderProof(V, X, u) + SenderColumns(V, X, vq, col)
  }

  /** One column: hashed, masked, corrected on the receiver's side, and fed. */
  method FeedOutput<E(!new), H(!new)>(V: Setting<E, H>, X: Challenge<E, H>, k: HasherKeys<E, H>, verifier: bool, u: Poly, vq: seq<Poly>,
                                      delta: seq<Byte>, ghost proof: Poly, col: int, uHash: Poly, hasher: Transcript, ghost before: Poly)
    returns (uHash': Poly)
    requires ValidSetting(V) && KeysFor(V, X, k) && |u| == V.rows + V.hashBits && AllColumns(V, vq) && |proof| == V.hashBits
    requires -1 <= col < V.deltaBits && (verifier ==> col >= 0 && |delta| == V.deltaBits && uHash == Widen(proof, 2 * V.F.n))
    requires hasher.data == before + FedBefore(V, X, verifier, u, vq, delta, proof, col)
    modifies hasher
    ensures hasher.data == before + FedBefore(V, X, verifier, u, vq, delta, proof, col + 1)
    ensures uHash' == if col == -1 then ColumnOutput(V, X, u) else uHash
  {
    hide PolyFieldLaws;
    hide KeysFor;
    hide ColumnOutput;
    hide MaskByte;
    uHash' := uHash;
    var toHash := if col == -1 then u else vq[col];
    var out := OutputColumn(V, X, k, toHash);
    if col == -1 {
      uHash' := out;
    }
    if verifier {
      out := Plus(out, MaskByte(uHash, delta[col]));
    }
    hasher.Update(out[..V.hashBits]);
    FedNext(V, X, verifier, u, vq, delta, proof, col, out, before);
  }

  lemma FedNext<E(!new), H(!new)>(V: Setting<E, H>, X: Challenge<E, H>, verifier: bool, u: Poly, vq: seq<Poly>,
                                  delta: seq<Byte>, proof: Poly, col: int, out: Poly, before: Poly)
    requires ValidSetting(V) && |u| == V.rows + V.hashBits && AllColumns(V, vq) && |proof| == V.hashBits
    requires -1 <= col < V.deltaBits && (verifier ==> col >= 0 && |delta| == V.deltaBits)
    requires |out| == 2 * V.F.n
    requires out == if col == -1 then ColumnOutput(V, X, u)
                    else if verifier then Corrected(V, X, vq[col], Widen(proof, 2 * V.F.n), delta[col])
                    else ColumnOutput(V, X, vq[col])
    ensures before + FedBefore(V, X, verifier, u, vq, delta, proof, col) + out[..V.hashBits]
         == before + FedBefore(V, X, verifier, u, vq, delta, proof, col + 1)
  {
    hide PolyFieldLaws;
    hide ColumnOutput;
    hide Corrected;
    var fed, more := FedBefore(V, X, verifier, u, vq, delta, proof, col), out[..V.hashBits];
    assert before + fed + more == before + (fed + more);
    assert fed + more == FedBefore(V, X, verifier, u, vq, delta, proof, col + 1);
  }

  /** Both sides of the check; the sender's run also yields the proof, which the receiver is given. */
  method VoleCheckBoth<E(!new), H(!new)>(V: Setting<E, H>, X: Challenge<E, H>, countLarge: nat, countSmall: nat, verifier: bool,
                                         u: Poly, vq: seq<Poly>, delta: seq<Byte>, proofIn: Poly, hasher: Transcript)
    returns (proof: Poly)
    requires ValidSetting(V) && countLarge >= 1 && countSmall >= 1
    requires |u| == V.rows + V.hashBits && AllColumns(V, vq) && |proofIn| == V.hashBits
    requires verifier ==> |delta| == V.deltaBits
    modifies hasher
    ensures verifier ==> hasher.data == old(hasher.data) + ReceiverFeed(V, X, vq, delta, proofIn)
    ensures !verifier ==> hasher.data == old(hasher.data) + SenderFeed(V, X, u, vq)
    ensures proof == if verifier then proofIn else SenderProof(V, X, u)
  {
    hide PolyFieldLaws;
    hide KeysFor;
    hide ColumnOutput;
    hide ReceiverColumns;
    hide SenderColumns;
    var k := InitKeys(V, X, countLarge, countSmall);
    ghost var before := hasher.data;
    var uHash := ZeroPoly(2 * V.F.n);
    if verifier {
      uHash := Widen(proofIn, 2 * V.F.n);
    }
    NothingFedYet(V, X, verifier, u, vq, delta, proofIn, before);
    var col := if verifier then 0 else -1;
    while col < V.deltaBits
      invariant -1 <= col <= V.deltaBits && (verifier ==> col >= 0)
      invariant hasher.data == before + FedBefore(V, X, verifier, u, vq, delta, proofIn, col)
      invariant verifier ==> uHash == Widen(proofIn, 2 * V.F.n)
      invariant !verifier && col >= 0 ==> uHash == ColumnOutput(V, X, u)
    {
      hide FedBefore;
      uHash := FeedOutput(V, X, k, verifier, u, vq, delta, proofIn, col, uHash, hasher, before);
      col := col + 1;
    }
    FeedRaw(V, vq, hasher);
    proof := proofIn;
    if !verifier {
      proof := uHash[..V.hashBits];
    }
    FedAll(V, X, verifier, u, vq, delta, proofIn, before);
  }

  lemma NothingFedYet<E(!new), H(!new)>(V: Setting<E, H>, X: Challenge<E, H>, verifier: bool, u: Poly, vq: seq<Poly>,
                                        delta: seq<Byte>, proof: Poly, before: Poly)
    requires ValidSetting(V) && |u| == V.rows + V.hashBits && AllColumns(V, vq) && |proof| == V.hashBits
    requires verifier ==> |delta| == V.deltaBits
    ensures before == before + FedBefore(V, X, verifier, u, vq, delta, proof, if verifier then 0 else -1)
  {
    hide PolyFieldLaws;
  }

  lemma FedAll<E(!new), H(!new)>(V: Setting<E, H>, X: Challenge<E, H>, verifier: bool, u: Poly, vq: seq<Poly>,
                                 delta: seq<Byte>, proof: Poly, before: Poly)
    requires ValidSetting(V) && |u| == V.rows + V.hashBits && AllColumns(V, vq) && |proof| == V.hashBits
    requires verifier ==> |delta| == V.deltaBits
    ensures before + FedBefore(V, X, verifier, u, vq, delta, proof, V.deltaBits) + RawColumns(V, vq, V.F.n - V.deltaBits)
         == before + if verifier then ReceiverFeed(V, X, vq, delta, proof) else SenderFeed(V, X, u, vq)
  {
    hide PolyFieldLaws;
    hide SenderProof;
    hide SenderColumns;
    hide ReceiverColumns;
    hide RawColumns;
    var fed, raw := FedBefore(V, X, verifier, u, vq, delta, proof, V.deltaBits), RawColumns(V, vq, V.F.n - V.deltaBits);
    assert before + fed + raw == before + (fed + raw);
  }

  /** The columns past those of delta contribute their masks unhashed. */
  method FeedRaw<E, H>(V: Setting<E, H>, vq: seq<Poly>, hasher: Transcript)
    requires AllColumns(V, vq) && V.deltaBits <= V.F.n
    modifies hasher
    ensures hasher.data == old(hasher.data) + RawColumns(V, vq, V.F.n - V.deltaBits)
  {
    ghost var before := hasher.data;
    for col := V.deltaBits to V.F.n
      invariant hasher.data == before + RawColumns(V, vq, col - V.deltaBits)
    {
      ghost var fed := RawColumns(V, vq, col - V.deltaBits);
      hasher.Update(vq[col][V.rows..]);
      assert before + fed + vq[col][V.rows..] == before + (fed + vq[col][V.rows..]);
    }
  }

  /** Both runs on correlated columns: the sender's transcript is its proof followed by the receiver's. */
  method CheckBothSides<E(!new), H(!new)>(V: Setting<E, H>, X: Challenge<E, H>, countLarge: nat, countSmall: nat, u: Poly,
                                          v: seq<Poly>, q: seq<Poly>, delta: seq<Byte>)
    returns (sent: Poly, received: Poly, proof: Poly)
    requires ValidSetting(V) && countLarge >= 1 && countSmall >= 1
    requires |u| == V.rows + V.hashBits && AllColumns(V, v) && AllColumns(V, q) && |delta| == V.deltaBits
    requires forall c | 0 <= c < V.deltaBits :: CorrelatedColumn(u, v[c], q[c], delta[c])
    requires forall c | V.deltaBits <= c < V.F.n :: q[c][V.rows..] == v[c][V.rows..]
    ensures sent == proof + received
  {
    hide PolyFieldLaws;
    hide SenderFeed;
    hide ReceiverFeed;
    hide SenderProof;
    hide CorrelatedColumn;
    var sender := new Transcript();
    var receiver := new Transcript();
    proof := VoleCheckBoth(V, X, countLarge, countSmall, false, u, v, [], ZeroPoly(V.hashBits), sender);
    var unused := VoleCheckBoth(V, X, countLarge, countSmall, true, ZeroPoly(V.rows + V.hashBits), q, delta, proof, receiver);
    sent, received := sender.data, receiver.data;
    Agreement(V, X, u, v, q, delta);
  }
}
