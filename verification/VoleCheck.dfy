/**
 * The consistency check of the VOLE correlation: every column is hashed, masked and fed to
 * the transcript; the receiver corrects its hashes by the sender's hash of u.
 */
module VoleCheck {
  import opened ByteStrings
  import opened Algebra
  import opened BitPolynomials
  import opened UniversalHash
  import Naturals
  import Layout

  /** The two fields, how many small elements fill a large one, and the sizes of a column. */
  datatype Setting<!E, !H> = Setting(F: PolyField<E>, G: PolyField<H>, ratio: nat, rows: nat, hashBits: nat, deltaBits: nat)

  ghost predicate ValidSetting<E(!new), H(!new)>(V: Setting<E, H>) {
    && PolyFieldLaws(V.F) && PolyFieldLaws(V.G)
    && V.ratio >= 1 && V.F.n >= 1 && V.F.n == V.ratio * V.G.n
    && V.rows >= 1 && V.hashBits <= 2 * V.F.n && V.deltaBits <= V.F.n
  }

  datatype Challenge<E, H> = Challenge(m0: E, m1: E, m2: E, m3: E, key: E, key64: H)

  // ---- a column as hash inputs ----

  function ChunkCount<E, H>(V: Setting<E, H>): nat
    requires V.F.n > 0
  {
    Naturals.CeilDiv(V.rows, V.F.n)
  }

  /** The rows of a column followed by zeros up to whole chunks. */
  function Padded<E, H>(V: Setting<E, H>, col: Poly): (p: Poly)
    requires V.F.n > 0 && |col| >= V.rows
    ensures |p| == ChunkCount(V) * V.F.n
  {
    Naturals.CeilDivCovers(V.rows, V.F.n);
    Widen(col[..V.rows], ChunkCount(V) * V.F.n)
  }

  function Chunk<E, H>(V: Setting<E, H>, col: Poly, c: nat): (p: Poly)
    requires V.F.n > 0 && |col| >= V.rows && c < ChunkCount(V)
    ensures |p| == V.F.n
  {
    Layout.PieceInside(V.F.n, c, ChunkCount(V));
    Layout.Piece(Padded(V, col), V.F.n, c)
  }

  /** The first c chunks as large field elements. */
  function Inputs<E, H>(V: Setting<E, H>, col: Poly, c: nat): (r: seq<E>)
    requires V.F.n > 0 && |col| >= V.rows && c <= ChunkCount(V)
    ensures |r| == c
  {
    if c == 0 then [] else Inputs(V, col, c - 1) + [V.F.Reduce(Chunk(V, col, c - 1))]
  }

  /** The first j small field elements of one chunk. */
  function Pieces<E, H>(V: Setting<E, H>, chunk: Poly, j: nat): (r: seq<H>)
    requires |chunk| == V.F.n == V.ratio * V.G.n && j <= V.ratio
    ensures |r| == j
  {
    if j == 0 then []
    else
      Layout.PieceInside(V.G.n, j - 1, V.ratio);
      Pieces(V, chunk, j - 1) + [V.G.Reduce(Layout.Piece(chunk, V.G.n, j - 1))]
  }

  /** The first c chunks as small field elements. */
  function SmallInputs<E, H>(V: Setting<E, H>, col: Poly, c: nat): (r: seq<H>)
    requires V.F.n > 0 && V.F.n == V.ratio * V.G.n && |col| >= V.rows && c <= ChunkCount(V)
    ensures |r| == c * V.ratio
  {
    if c == 0 then []
    else
      assert c * V.ratio == (c - 1) * V.ratio + V.ratio;
      SmallInputs(V, col, c - 1) + Pieces(V, Chunk(V, col, c - 1), V.ratio)
  }

  // ---- the hash of a column ----

  function LargeHash<E, H>(V: Setting<E, H>, X: Challenge<E, H>, col: Poly): E
    requires V.F.n > 0 && |col| >= V.rows
  {
    HashOf(V.F.ring, X.key, Inputs(V, col, ChunkCount(V)))
  }

  /** The hash over the small field, taken as an element of the large one. */
  function SmallHash<E, H>(V: Setting<E, H>, X: Challenge<E, H>, col: Poly): E
    requires V.F.n > 0 && V.F.n == V.ratio * V.G.n && |col| >= V.rows
  {
    V.F.Reduce(V.G.Bits(HashOf(V.G.ring, X.key64, SmallInputs(V, col, ChunkCount(V)))))
  }

  function Mapped<E, H>(V: Setting<E, H>, a: E, b: E, large: E, small: E): E {
    V.F.Add(V.F.Mul(a, large), V.F.Mul(b, small))
  }

  /** Both mapped hashes, masked by the bits that follow the rows. */
  function ColumnOutput<E(!new), H(!new)>(V: Setting<E, H>, X: Challenge<E, H>, col: Poly): (w: Poly)
    requires ValidSetting(V) && |col| == V.rows + V.hashBits
    ensures |w| == 2 * V.F.n
  {
    var (large, small) := (LargeHash(V, X, col), SmallHash(V, X, col));
    ReduceElement(V.F, Mapped(V, X.m0, X.m1, large, small));
    ReduceElement(V.F, Mapped(V, X.m2, X.m3, large, small));
    Plus(V.F.Bits(Mapped(V, X.m0, X.m1, large, small)) + V.F.Bits(Mapped(V, X.m2, X.m3, large, small)),
         Widen(col[V.rows..], 2 * V.F.n))
  }

  // ---- what the output is made of ----

  /** Bit i of chunk c is row c n + i, or zero past the rows. */
  lemma ChunkBit<E, H>(V: Setting<E, H>, col: Poly, c: nat, i: nat, row: nat)
    requires V.F.n > 0 && |col| >= V.rows && c < ChunkCount(V) && i < V.F.n && row == c * V.F.n + i
    ensures Chunk(V, col, c)[i] == (row < V.rows && col[row])
  {
    hide ChunkCount;
    Layout.PieceInside(V.F.n, c, ChunkCount(V));
    assert (c + 1) * V.F.n == c * V.F.n + V.F.n;
    Naturals.CeilDivCovers(V.rows, V.F.n);
  }

  /** The large hasher is fed the chunks in order. */
  lemma {:induction false} InputsAreChunks<E, H>(V: Setting<E, H>, col: Poly, c: nat, k: nat)
    requires V.F.n > 0 && |col| >= V.rows && k < c <= ChunkCount(V)
    ensures Inputs(V, col, c)[k] == V.F.Reduce(Chunk(V, col, k))
  {
    hide Chunk;
    hide ChunkCount;
    if k < c - 1 {
      InputsAreChunks(V, col, c - 1, k);
    }
  }

  lemma {:induction false} PiecesAreSlices<E, H>(V: Setting<E, H>, chunk: Poly, n: nat, j: nat)
    requires |chunk| == V.F.n == V.ratio * V.G.n && j < n <= V.ratio
    ensures (j + 1) * V.G.n <= |chunk| && Pieces(V, chunk, n)[j] == V.G.Reduce(Layout.Piece(chunk, V.G.n, j))
  {
    Layout.PieceInside(V.G.n, j, V.ratio);
    if j < n - 1 {
      PiecesAreSlices(V, chunk, n - 1, j);
    }
  }

  /** The small hasher is fed the pieces of every chunk in order. */
  lemma {:induction false} SmallInputsArePieces<E, H>(V: Setting<E, H>, col: Poly, c: nat, k: nat, j: nat, at: nat)
    requires V.F.n > 0 && V.F.n == V.ratio * V.G.n && |col| >= V.rows
    requires k < c <= ChunkCount(V) && j < V.ratio && at == k * V.ratio + j
    ensures at < c * V.ratio && (j + 1) * V.G.n <= V.F.n
    ensures SmallInputs(V, col, c)[at] == V.G.Reduce(Layout.Piece(Chunk(V, col, k), V.G.n, j))
  {
    hide Chunk;
    hide ChunkCount;
    assert c * V.ratio == (c - 1) * V.ratio + V.ratio;
    if k < c - 1 {
      SmallInputsArePieces(V, col, c - 1, k, j, at);
    } else {
      PiecesAreSlices(V, Chunk(V, col, k), V.ratio, j);
    }
  }

  /** Each half of the output is the mask plus its own combination of the two plain sums. */
  lemma OutputHalves<E(!new), H(!new)>(V: Setting<E, H>, X: Challenge<E, H>, col: Poly)
    requires ValidSetting(V) && |col| == V.rows + V.hashBits
    ensures var F, n, w, mask := V.F, V.F.n, ColumnOutput(V, X, col), Widen(col[V.rows..], 2 * V.F.n);
            var inputs, smallInputs := Inputs(V, col, ChunkCount(V)), SmallInputs(V, col, ChunkCount(V));
            var large := PlainSum(F.ring, X.key, inputs, |inputs|);
            var small := F.Reduce(V.G.Bits(PlainSum(V.G.ring, X.key64, smallInputs, |smallInputs|)));
            && F.Reduce(w[..n]) == F.Add(F.Add(F.Mul(X.m0, large), F.Mul(X.m1, small)), F.Reduce(mask[..n]))
            && F.Reduce(w[n..]) == F.Add(F.Add(F.Mul(X.m2, large), F.Mul(X.m3, small)), F.Reduce(mask[n..]))
  {
    hide ChunkCount;
    var F, n, w, mask := V.F, V.F.n, ColumnOutput(V, X, col), Widen(col[V.rows..], 2 * V.F.n);
    FieldIsRing(F);
    FieldIsRing(V.G);
    HashIsPlainSum(F.ring, X.key, Inputs(V, col, ChunkCount(V)));
    HashIsPlainSum(V.G.ring, X.key64, SmallInputs(V, col, ChunkCount(V)));
    var lo, hi := Mapped(V, X.m0, X.m1, LargeHash(V, X, col), SmallHash(V, X, col)), Mapped(V, X.m2, X.m3, LargeHash(V, X, col), SmallHash(V, X, col));
    ReduceElement(F, lo);
    ReduceElement(F, hi);
    hide PolyFieldLaws;
    hide PlainSum;
    hide HashOf;
    hide Inputs;
    hide SmallInputs;
    hide PolyField.Reduce;
    assert w[..n] == Plus(F.Bits(lo), mask[..n]) && w[n..] == Plus(F.Bits(hi), mask[n..]);
    ReducePlus(F, F.Bits(lo), mask[..n]);
    ReducePlus(F, F.Bits(hi), mask[n..]);
  }

  // ---- everything is additive ----

  lemma ChunkPlus<E, H>(V: Setting<E, H>, a: Poly, b: Poly, c: nat)
    requires V.F.n > 0 && |a| == |b| >= V.rows && c < ChunkCount(V)
    ensures Chunk(V, Plus(a, b), c) == Plus(Chunk(V, a, c), Chunk(V, b, c))
  {
    hide ChunkCount;
    PaddedPlus(V, a, b);
    hide Padded;
    Layout.PieceInside(V.F.n, c, ChunkCount(V));
    PiecePlus(Padded(V, a), Padded(V, b), V.F.n, c);
  }

  lemma PiecePlus(a: Poly, b: Poly, size: nat, k: nat)
    requires |a| == |b| && (k + 1) * size <= |a|
    ensures Layout.Piece(Plus(a, b), size, k) == Plus(Layout.Piece(a, size, k), Layout.Piece(b, size, k))
  {
    assert (k + 1) * size == k * size + size;
  }

  lemma PaddedPlus<E, H>(V: Setting<E, H>, a: Poly, b: Poly)
    requires V.F.n > 0 && |a| == |b| >= V.rows
    ensures Padded(V, Plus(a, b)) == Plus(Padded(V, a), Padded(V, b))
  {
    hide ChunkCount;
    Naturals.CeilDivCovers(V.rows, V.F.n);
  }

  lemma {:induction false} InputsPlus<E(!new), H(!new)>(V: Setting<E, H>, a: Poly, b: Poly, c: nat)
    requires ValidSetting(V) && |a| == |b| >= V.rows && c <= ChunkCount(V)
    ensures Inputs(V, Plus(a, b), c) == VecAdd(V.F.ring, Inputs(V, a, c), Inputs(V, b, c))
  {
    hide PolyFieldLaws;
    hide Chunk;
    hide ChunkCount;
    if c > 0 {
      InputsPlus(V, a, b, c - 1);
      ChunkPlus(V, a, b, c - 1);
      FieldIsRing(V.F);
      ReducePlus(V.F, Chunk(V, a, c - 1), Chunk(V, b, c - 1));
    }
  }

  lemma {:induction false} PiecesPlus<E(!new), H(!new)>(V: Setting<E, H>, a: Poly, b: Poly, j: nat)
    requires ValidSetting(V) && |a| == |b| == V.F.n && j <= V.ratio
    ensures Pieces(V, Plus(a, b), j) == VecAdd(V.G.ring, Pieces(V, a, j), Pieces(V, b, j))
  {
    hide PolyFieldLaws;
    if j > 0 {
      PiecesPlus(V, a, b, j - 1);
      Layout.PieceInside(V.G.n, j - 1, V.ratio);
      PiecePlus(a, b, V.G.n, j - 1);
      FieldIsRing(V.G);
      ReducePlus(V.G, Layout.Piece(a, V.G.n, j - 1), Layout.Piece(b, V.G.n, j - 1));
    }
  }

  lemma {:induction false} SmallInputsPlus<E(!new), H(!new)>(V: Setting<E, H>, a: Poly, b: Poly, c: nat)
    requires ValidSetting(V) && |a| == |b| >= V.rows && c <= ChunkCount(V)
    ensures SmallInputs(V, Plus(a, b), c) == VecAdd(V.G.ring, SmallInputs(V, a, c), SmallInputs(V, b, c))
  {
    hide PolyFieldLaws;
    hide Chunk;
    hide ChunkCount;
    hide Pieces;
    if c > 0 {
      SmallInputsPlus(V, a, b, c - 1);
      ChunkPlus(V, a, b, c - 1);
      PiecesPlus(V, Chunk(V, a, c - 1), Chunk(V, b, c - 1), V.ratio);
    }
  }

  lemma LargeHashPlus<E(!new), H(!new)>(V: Setting<E, H>, X: Challenge<E, H>, a: Poly, b: Poly)
    requires ValidSetting(V) && |a| == |b| >= V.rows
    ensures LargeHash(V, X, Plus(a, b)) == V.F.Add(LargeHash(V, X, a), LargeHash(V, X, b))
  {
    hide PolyFieldLaws;
    hide ChunkCount;
    var c := ChunkCount(V);
    InputsPlus(V, a, b, c);
    FieldIsRing(V.F);
    HashAdd(V.F.ring, X.key, Inputs(V, a, c), Inputs(V, b, c));
  }

  lemma SmallHashPlus<E(!new), H(!new)>(V: Setting<E, H>, X: Challenge<E, H>, a: Poly, b: Poly)
    requires ValidSetting(V) && |a| == |b| >= V.rows
    ensures SmallHash(V, X, Plus(a, b)) == V.F.Add(SmallHash(V, X, a), SmallHash(V, X, b))
  {
    hide PolyFieldLaws;
    hide ChunkCount;
    var c := ChunkCount(V);
    SmallInputsPlus(V, a, b, c);
    FieldIsRing(V.F);
    FieldIsRing(V.G);
    var ha, hb := HashOf(V.G.ring, X.key64, SmallInputs(V, a, c)), HashOf(V.G.ring, X.key64, SmallInputs(V, b, c));
    HashAdd(V.G.ring, X.key64, SmallInputs(V, a, c), SmallInputs(V, b, c));
    BitsAdd(V.G, ha, hb);
    ReducePlus(V.F, V.G.Bits(ha), V.G.Bits(hb));
  }

  lemma MappedAdd<E(!new), H(!new)>(V: Setting<E, H>, a: E, b: E, l: E, s: E, l': E, s': E)
    requires ValidSetting(V)
    ensures Mapped(V, a, b, V.F.Add(l, l'), V.F.Add(s, s')) == V.F.Add(Mapped(V, a, b, l, s), Mapped(V, a, b, l', s'))
  {
    hide PolyFieldLaws;
    FieldIsRing(V.F);
    Distribute(V.F.ring, a, l, l');
    Distribute(V.F.ring, b, s, s');
    AddSwap(V.F.ring, V.F.Mul(a, l), V.F.Mul(a, l'), V.F.Mul(b, s), V.F.Mul(b, s'));
  }

  /** The output of a sum of columns is the sum of their outputs. */
  lemma OutputPlus<E(!new), H(!new)>(V: Setting<E, H>, X: Challenge<E, H>, a: Poly, b: Poly)
    requires ValidSetting(V) && |a| == |b| == V.rows + V.hashBits
    ensures ColumnOutput(V, X, Plus(a, b)) == Plus(ColumnOutput(V, X, a), ColumnOutput(V, X, b))
  {
    hide PolyFieldLaws;
    hide LargeHash;
    hide SmallHash;
    hide Mapped;
    var F, l, s, l', s' := V.F, LargeHash(V, X, a), SmallHash(V, X, a), LargeHash(V, X, b), SmallHash(V, X, b);
    LargeHashPlus(V, X, a, b);
    SmallHashPlus(V, X, a, b);
    MappedAdd(V, X.m0, X.m1, l, s, l', s');
    MappedAdd(V, X.m2, X.m3, l, s, l', s');
    var p, p' := Mapped(V, X.m0, X.m1, l, s), Mapped(V, X.m0, X.m1, l', s');
    var r, r' := Mapped(V, X.m2, X.m3, l, s), Mapped(V, X.m2, X.m3, l', s');
    BitsAdd(F, p, p');
    BitsAdd(F, r, r');
    JoinPlus(F.Bits(p), F.Bits(r), a[V.rows..], F.Bits(p'), F.Bits(r'), b[V.rows..], 2 * F.n);
    assert Plus(a, b)[V.rows..] == Plus(a[V.rows..], b[V.rows..]);
  }

  lemma JoinPlus(p: Poly, r: Poly, m: Poly, p': Poly, r': Poly, m': Poly, n: nat)
    requires |p| == |p'| && |r| == |r'| && |p| + |r| == n && |m| == |m'| <= n
    ensures Plus(Plus(p, p') + Plus(r, r'), Widen(Plus(m, m'), n)) == Plus(Plus(p + r, Widen(m, n)), Plus(p' + r', Widen(m', n)))
  {
  }

  // ---- what either side feeds to the transcript ----

  const FULL_BYTE := Byte(true, true, true, true, true, true, true, true)

  /** The bits and-ed with a byte repeated over them. */
  function MaskByte(w: Poly, b: Byte): (r: Poly)
    ensures |r| == |w|
  {
    seq(|w|, k requires 0 <= k < |w| => w[k] && b.Bit(k % 8))
  }

  ghost predicate AllColumns<E, H>(V: Setting<E, H>, cols: seq<Poly>) {
    |cols| == V.F.n && forall c | 0 <= c < |cols| :: |cols[c]| == V.rows + V.hashBits
  }

  /** The masked hashes of the first `count` columns. */
  function SenderColumns<E(!new), H(!new)>(V: Setting<E, H>, X: Challenge<E, H>, v: seq<Poly>, count: nat): Poly
    requires ValidSetting(V) && AllColumns(V, v) && count <= |v|
  {
    if count == 0 then []
    else SenderColumns(V, X, v, count - 1) + ColumnOutput(V, X, v[count - 1])[..V.hashBits]
  }

  /** A column's output corrected by the hash of u where its bit of delta is set. */
  function Corrected<E(!new), H(!new)>(V: Setting<E, H>, X: Challenge<E, H>, col: Poly, uHash: Poly, b: Byte): (w: Poly)
    requires ValidSetting(V) && |col| == V.rows + V.hashBits && |uHash| == 2 * V.F.n
    ensures |w| == 2 * V.F.n
  {
    Plus(ColumnOutput(V, X, col), MaskByte(uHash, b))
  }

  function ReceiverColumns<E(!new), H(!new)>(V: Setting<E, H>, X: Challenge<E, H>, q: seq<Poly>, delta: seq<Byte>, uHash: Poly, count: nat): Poly
    requires ValidSetting(V) && AllColumns(V, q) && |uHash| == 2 * V.F.n && count <= |q| && count <= |delta|
  {
    if count == 0 then []
    else ReceiverColumns(V, X, q, delta, uHash, count - 1)
         + Corrected(V, X, q[count - 1], uHash, delta[count - 1])[..V.hashBits]
  }

  /** The masks of `count` columns past those of delta, unhashed. */
  function RawColumns<E, H>(V: Setting<E, H>, cols: seq<Poly>, count: nat): Poly
    requires AllColumns(V, cols) && V.deltaBits + count <= V.F.n
  {
    if count == 0 then [] else RawColumns(V, cols, count - 1) + cols[V.deltaBits + count - 1][V.rows..]
  }

  /** The sender's proof: the masked hash of u. */
  function SenderProof<E(!new), H(!new)>(V: Setting<E, H>, X: Challenge<E, H>, u: Poly): (p: Poly)
    requires ValidSetting(V) && |u| == V.rows + V.hashBits
    ensures |p| == V.hashBits
  {
    ColumnOutput(V, X, u)[..V.hashBits]
  }

  function SenderFeed<E(!new), H(!new)>(V: Setting<E, H>, X: Challenge<E, H>, u: Poly, v: seq<Poly>): Poly
    requires ValidSetting(V) && |u| == V.rows + V.hashBits && AllColumns(V, v)
  {
    SenderProof(V, X, u) + SenderColumns(V, X, v, V.deltaBits) + RawColumns(V, v, V.F.n - V.deltaBits)
  }

  function ReceiverFeed<E(!new), H(!new)>(V: Setting<E, H>, X: Challenge<E, H>, q: seq<Poly>, delta: seq<Byte>, proof: Poly): Poly
    requires ValidSetting(V) && AllColumns(V, q) && |delta| == V.deltaBits && |proof| == V.hashBits
  {
    ReceiverColumns(V, X, q, delta, Widen(proof, 2 * V.F.n), V.deltaBits) + RawColumns(V, q, V.F.n - V.deltaBits)
  }

  // ---- agreement ----

  /** q = v + (delta bit) u, with the delta bit spread over a byte. */
  ghost predicate CorrelatedColumn(u: Poly, v: Poly, q: Poly, b: Byte)
    requires |u| == |v|
  {
    (b == ZERO_BYTE && q == v) || (b == FULL_BYTE && q == Plus(v, u))
  }

  lemma AllOrNothing(j: nat)
    requires j < 8
    ensures FULL_BYTE.Bit(j) && !ZERO_BYTE.Bit(j)
  {
  }

  /** Corrected by the proof, a correlated column gives the sender's hash. */
  lemma ColumnAgrees<E(!new), H(!new)>(V: Setting<E, H>, X: Challenge<E, H>, u: Poly, v: Poly, q: Poly, b: Byte)
    requires ValidSetting(V) && |u| == |v| == V.rows + V.hashBits && CorrelatedColumn(u, v, q, b)
    ensures |q| == |v|
    ensures Corrected(V, X, q, Widen(SenderProof(V, X, u), 2 * V.F.n), b)[..V.hashBits] == ColumnOutput(V, X, v)[..V.hashBits]
  {
    ColumnDiffers(V, X, u, v, q, b, SenderProof(V, X, u));
    var a, p := ColumnOutput(V, X, v)[..V.hashBits], SenderProof(V, X, u);
    hide PolyFieldLaws;
    hide ColumnOutput;
    hide Corrected;
    assert Plus(p, p) == ZeroPoly(V.hashBits) && Plus(a, ZeroPoly(V.hashBits)) == a;
  }

  lemma {:induction false} ColumnsAgree<E(!new), H(!new)>(V: Setting<E, H>, X: Challenge<E, H>, u: Poly, v: seq<Poly>, q: seq<Poly>, delta: seq<Byte>, count: nat)
    requires ValidSetting(V) && |u| == V.rows + V.hashBits && AllColumns(V, v) && AllColumns(V, q)
    requires count <= |delta| <= V.F.n
    requires forall c | 0 <= c < |delta| :: CorrelatedColumn(u, v[c], q[c], delta[c])
    ensures ReceiverColumns(V, X, q, delta, Widen(SenderProof(V, X, u), 2 * V.F.n), count) == SenderColumns(V, X, v, count)
  {
    hide PolyFieldLaws;
    hide ColumnOutput;
    hide Corrected;
    hide CorrelatedColumn;
    if count > 0 {
      ColumnsAgree(V, X, u, v, q, delta, count - 1);
      ColumnAgrees(V, X, u, v[count - 1], q[count - 1], delta[count - 1]);
    }
  }

  lemma {:induction false} RawAgree<E, H>(V: Setting<E, H>, v: seq<Poly>, q: seq<Poly>, count: nat)
    requires AllColumns(V, v) && AllColumns(V, q) && V.deltaBits + count <= V.F.n
    requires forall c | V.deltaBits <= c < V.F.n :: q[c][V.rows..] == v[c][V.rows..]
    ensures RawColumns(V, q, count) == RawColumns(V, v, count)
  {
    if count > 0 {
      RawAgree(V, v, q, count - 1);
    }
  }

  /** On correlated columns the sender feeds its proof and then exactly what the receiver feeds. */
  lemma Agreement<E(!new), H(!new)>(V: Setting<E, H>, X: Challenge<E, H>, u: Poly, v: seq<Poly>, q: seq<Poly>, delta: seq<Byte>)
    requires ValidSetting(V) && |u| == V.rows + V.hashBits && AllColumns(V, v) && AllColumns(V, q) && |delta| == V.deltaBits
    requires forall c | 0 <= c < V.deltaBits :: CorrelatedColumn(u, v[c], q[c], delta[c])
    requires forall c | V.deltaBits <= c < V.F.n :: q[c][V.rows..] == v[c][V.rows..]
    ensures SenderFeed(V, X, u, v) == SenderProof(V, X, u) + ReceiverFeed(V, X, q, delta, SenderProof(V, X, u))
  {
    hide PolyFieldLaws;
    hide SenderProof;
    hide SenderColumns;
    hide ReceiverColumns;
    hide RawColumns;
    ColumnsAgree(V, X, u, v, q, delta, V.deltaBits);
    RawAgree(V, v, q, V.F.n - V.deltaBits);
    var p, s, r := SenderProof(V, X, u), SenderColumns(V, X, v, V.deltaBits), RawColumns(V, v, V.F.n - V.deltaBits);
    assert p + s + r == p + (s + r);
  }

  // ---- where the columns lie, and what a wrong proof does ----

  lemma {:induction false} SenderColumnsSlice<E(!new), H(!new)>(V: Setting<E, H>, X: Challenge<E, H>, v: seq<Poly>, count: nat, c: nat, at: nat)
    requires ValidSetting(V) && AllColumns(V, v) && c < count <= |v| && at == c * V.hashBits
    ensures |SenderColumns(V, X, v, count)| == count * V.hashBits && at + V.hashBits <= count * V.hashBits
    ensures SenderColumns(V, X, v, count)[at..at + V.hashBits] == ColumnOutput(V, X, v[c])[..V.hashBits]
  {
    hide PolyFieldLaws;
    hide ColumnOutput;
    SenderColumnsLength(V, X, v, count);
    SenderColumnsLength(V, X, v, count - 1);
    Layout.PieceInside(V.hashBits, c, count);
    assert (c + 1) * V.hashBits == at + V.hashBits && count * V.hashBits == (count - 1) * V.hashBits + V.hashBits;
    if c < count - 1 {
      SenderColumnsSlice(V, X, v, count - 1, c, at);
    }
  }

  lemma {:induction false} SenderColumnsLength<E(!new), H(!new)>(V: Setting<E, H>, X: Challenge<E, H>, v: seq<Poly>, count: nat)
    requires ValidSetting(V) && AllColumns(V, v) && count <= |v|
    ensures |SenderColumns(V, X, v, count)| == count * V.hashBits
  {
    hide PolyFieldLaws;
    hide ColumnOutput;
    if count > 0 {
      SenderColumnsLength(V, X, v, count - 1);
      assert count * V.hashBits == (count - 1) * V.hashBits + V.hashBits;
    }
  }

  lemma {:induction false} ReceiverColumnsLength<E(!new), H(!new)>(V: Setting<E, H>, X: Challenge<E, H>, q: seq<Poly>, delta: seq<Byte>, uHash: Poly, count: nat)
    requires ValidSetting(V) && AllColumns(V, q) && |uHash| == 2 * V.F.n && count <= |q| && count <= |delta|
    ensures |ReceiverColumns(V, X, q, delta, uHash, count)| == count * V.hashBits
  {
    hide PolyFieldLaws;
    hide Corrected;
    if count > 0 {
      ReceiverColumnsLength(V, X, q, delta, uHash, count - 1);
      assert count * V.hashBits == (count - 1) * V.hashBits + V.hashBits;
    }
  }

  lemma {:induction false} ReceiverColumnsSlice<E(!new), H(!new)>(V: Setting<E, H>, X: Challenge<E, H>, q: seq<Poly>, delta: seq<Byte>, uHash: Poly, count: nat, c: nat, at: nat)
    requires ValidSetting(V) && AllColumns(V, q) && |uHash| == 2 * V.F.n && c < count <= |q| && count <= |delta| && at == c * V.hashBits
    ensures |ReceiverColumns(V, X, q, delta, uHash, count)| == count * V.hashBits && at + V.hashBits <= count * V.hashBits
    ensures ReceiverColumns(V, X, q, delta, uHash, count)[at..at + V.hashBits] == Corrected(V, X, q[c], uHash, delta[c])[..V.hashBits]
  {
    hide PolyFieldLaws;
    hide Corrected;
    ReceiverColumnsLength(V, X, q, delta, uHash, count);
    ReceiverColumnsLength(V, X, q, delta, uHash, count - 1);
    Layout.PieceInside(V.hashBits, c, count);
    assert (c + 1) * V.hashBits == at + V.hashBits && count * V.hashBits == (count - 1) * V.hashBits + V.hashBits;
    if c < count - 1 {
      ReceiverColumnsSlice(V, X, q, delta, uHash, count - 1, c, at);
    }
  }

  lemma {:induction false} RawColumnsSlice<E, H>(V: Setting<E, H>, cols: seq<Poly>, count: nat, c: nat, at: nat)
    requires AllColumns(V, cols) && V.deltaBits + count <= V.F.n && c < count && at == c * V.hashBits
    ensures |RawColumns(V, cols, count)| == count * V.hashBits && at + V.hashBits <= count * V.hashBits
    ensures RawColumns(V, cols, count)[at..at + V.hashBits] == cols[V.deltaBits + c][V.rows..]
  {
    RawColumnsLength(V, cols, count);
    RawColumnsLength(V, cols, count - 1);
    Layout.PieceInside(V.hashBits, c, count);
    assert (c + 1) * V.hashBits == at + V.hashBits && count * V.hashBits == (count - 1) * V.hashBits + V.hashBits;
    if c < count - 1 {
      RawColumnsSlice(V, cols, count - 1, c, at);
    }
  }

  lemma {:induction false} RawColumnsLength<E, H>(V: Setting<E, H>, cols: seq<Poly>, count: nat)
    requires AllColumns(V, cols) && V.deltaBits + count <= V.F.n
    ensures |RawColumns(V, cols, count)| == count * V.hashBits
  {
    if count > 0 {
      RawColumnsLength(V, cols, count - 1);
      assert count * V.hashBits == (count - 1) * V.hashBits + V.hashBits;
    }
  }

  lemma FeedParts<E(!new), H(!new)>(V: Setting<E, H>, X: Challenge<E, H>, u: Poly, v: seq<Poly>)
    requires ValidSetting(V) && |u| == V.rows + V.hashBits && AllColumns(V, v)
    ensures |SenderProof(V, X, u)| == V.hashBits
    ensures |SenderColumns(V, X, v, V.deltaBits)| == V.deltaBits * V.hashBits
    ensures |RawColumns(V, v, V.F.n - V.deltaBits)| == (V.F.n - V.deltaBits) * V.hashBits
    ensures SenderFeed(V, X, u, v) == SenderProof(V, X, u) + SenderColumns(V, X, v, V.deltaBits) + RawColumns(V, v, V.F.n - V.deltaBits)
  {
    SenderColumnsLength(V, X, v, V.deltaBits);
    RawColumnsLength(V, v, V.F.n - V.deltaBits);
    hide *;
    hide SenderProof;
  }

  /** The sender's transcript: first the hash of u, then the hashes of the columns under delta, */
  lemma HashedSlices<E(!new), H(!new)>(V: Setting<E, H>, X: Challenge<E, H>, u: Poly, v: seq<Poly>, c: nat, lo: nat, at: nat)
    requires ValidSetting(V) && |u| == V.rows + V.hashBits && AllColumns(V, v) && c < V.deltaBits
    requires lo == c * V.hashBits && at == V.hashBits + lo
    ensures at + V.hashBits <= |SenderFeed(V, X, u, v)|
    ensures SenderFeed(V, X, u, v)[..V.hashBits] == ColumnOutput(V, X, u)[..V.hashBits]
    ensures SenderFeed(V, X, u, v)[at..at + V.hashBits] == ColumnOutput(V, X, v[c])[..V.hashBits]
  {
    FeedParts(V, X, u, v);
    SenderColumnsSlice(V, X, v, V.deltaBits, c, lo);
    var p, s, r := SenderProof(V, X, u), SenderColumns(V, X, v, V.deltaBits), RawColumns(V, v, V.F.n - V.deltaBits);
    assert p == ColumnOutput(V, X, u)[..V.hashBits];
    hide *;
    ThreeParts(p, s, r, lo, V.hashBits);
  }

  /** and then the masks of the other columns. */
  lemma RawSlices<E(!new), H(!new)>(V: Setting<E, H>, X: Challenge<E, H>, u: Poly, v: seq<Poly>, c: nat, lo: nat, at: nat)
    requires ValidSetting(V) && |u| == V.rows + V.hashBits && AllColumns(V, v) && V.deltaBits + c < V.F.n
    requires lo == c * V.hashBits && at == V.hashBits + V.deltaBits * V.hashBits + lo
    ensures at + V.hashBits <= |SenderFeed(V, X, u, v)|
    ensures SenderFeed(V, X, u, v)[at..at + V.hashBits] == v[V.deltaBits + c][V.rows..]
  {
    FeedParts(V, X, u, v);
    RawColumnsSlice(V, v, V.F.n - V.deltaBits, c, lo);
    var p, s, r := SenderProof(V, X, u), SenderColumns(V, X, v, V.deltaBits), RawColumns(V, v, V.F.n - V.deltaBits);
    hide *;
    ThreeParts(p, s, r, lo, V.hashBits);
  }

  lemma ThreeParts(p: Poly, s: Poly, r: Poly, lo: nat, len: nat)
    ensures (p + s + r)[..|p|] == p
    ensures lo + len <= |s| ==> (p + s + r)[|p| + lo..|p| + lo + len] == s[lo..lo + len]
    ensures lo + len <= |r| ==> (p + s + r)[|p| + |s| + lo..|p| + |s| + lo + len] == r[lo..lo + len]
  {
  }

  lemma CorrectionAdds(a: Poly, b: Poly, p: Poly, hb: nat)
    requires |a| == |b| && hb == |p| <= |a|
    ensures Plus(Plus(a, b), MaskByte(Widen(p, |b|), FULL_BYTE))[..hb] == Plus(a[..hb], Plus(p, b[..hb]))
    ensures Plus(a, MaskByte(Widen(p, |b|), ZERO_BYTE)) == a
  {
    forall j: nat | j < 8 ensures FULL_BYTE.Bit(j) && !ZERO_BYTE.Bit(j) {
      AllOrNothing(j);
    }
  }

  /** Whatever proof is sent, a column under delta is off by the error of the proof where its bit of delta is set, and by nothing else. */
  lemma ColumnDiffers<E(!new), H(!new)>(V: Setting<E, H>, X: Challenge<E, H>, u: Poly, v: Poly, q: Poly, b: Byte, proof: Poly)
    requires ValidSetting(V) && |u| == |v| == V.rows + V.hashBits && CorrelatedColumn(u, v, q, b) && |proof| == V.hashBits
    ensures |q| == |v|
    ensures Corrected(V, X, q, Widen(proof, 2 * V.F.n), b)[..V.hashBits]
         == Plus(ColumnOutput(V, X, v)[..V.hashBits], if b == FULL_BYTE then Plus(proof, SenderProof(V, X, u)) else ZeroPoly(V.hashBits))
  {
    hide PolyFieldLaws;
    hide ColumnOutput;
    hide MaskByte;
    if b == FULL_BYTE {
      OutputPlus(V, X, v, u);
    }
    CorrectionAdds(ColumnOutput(V, X, v), ColumnOutput(V, X, u), proof, V.hashBits);
    var a := ColumnOutput(V, X, v)[..V.hashBits];
    assert Plus(a, ZeroPoly(V.hashBits)) == a;
    hide Plus;
    hide Widen;
  }

  /** With any proof, slice c of the receiver's transcript against the sender's. */
  lemma TranscriptDifference<E(!new), H(!new)>(V: Setting<E, H>, X: Challenge<E, H>, u: Poly, v: seq<Poly>, q: seq<Poly>, delta: seq<Byte>, proof: Poly, c: nat, at: nat)
    requires ValidSetting(V) && |u| == V.rows + V.hashBits && AllColumns(V, v) && AllColumns(V, q) && |delta| == V.deltaBits
    requires |proof| == V.hashBits && c < V.deltaBits && at == c * V.hashBits && CorrelatedColumn(u, v[c], q[c], delta[c])
    ensures at + V.hashBits <= |ReceiverFeed(V, X, q, delta, proof)|
    ensures ReceiverFeed(V, X, q, delta, proof)[at..at + V.hashBits]
         == Plus(ColumnOutput(V, X, v[c])[..V.hashBits],
                 if delta[c] == FULL_BYTE then Plus(proof, SenderProof(V, X, u)) else ZeroPoly(V.hashBits))
  {
    hide PolyFieldLaws;
    hide ColumnOutput;
    hide Corrected;
    hide Plus;
    hide Widen;
    hide RawColumns;
    ReceiverColumnsSlice(V, X, q, delta, Widen(proof, 2 * V.F.n), V.deltaBits, c, at);
    hide ReceiverColumns;
    ColumnDiffers(V, X, u, v[c], q[c], delta[c], proof);
    hide SenderProof;
  }

  // ---- hashing a column ----

  lemma ChunksNonzero<E(!new), H(!new)>(V: Setting<E, H>)
    requires ValidSetting(V)
    ensures ChunkCount(V) >= 1 && ChunkCount(V) * V.ratio >= 1
  {
    hide PolyFieldLaws;
    Naturals.CeilDivCovers(V.rows, V.F.n);
    hide ChunkCount;
    Naturals.MulMono(ChunkCount(V), 0, V.F.n);
    Naturals.MulMono(1, ChunkCount(V), V.ratio);
  }

  /** The padding is shorter than a chunk: the padding in front that the source provides for never happens. */
  lemma NoInitialPadding(rows: nat, n: nat)
    requires n > 0
    ensures rows <= (rows + n - 1) / n * n < rows + n
  {
    Naturals.DivMulBound(rows + n - 1, n);
  }

  /** The update counts the hashers are told. */
  lemma DeclaredUpdates<E(!new), H(!new)>(V: Setting<E, H>)
    requires ValidSetting(V) && V.G.n > 0
    ensures ChunkCount(V) * V.F.n / V.F.n == ChunkCount(V)
    ensures ChunkCount(V) * V.F.n / V.G.n == ChunkCount(V) * V.ratio
  {
    hide PolyFieldLaws;
    hide ChunkCount;
    var t := ChunkCount(V);
    Naturals.QuotientUnique(t * V.F.n, V.F.n, t);
    assert t * V.F.n == t * V.ratio * V.G.n;
    Naturals.QuotientUnique(t * V.F.n, V.G.n, t * V.ratio);
  }

  lemma WholeChunk<E, H>(V: Setting<E, H>, col: Poly, c: nat, i: nat)
    requires V.F.n > 0 && |col| >= V.rows && i == c * V.F.n && i + V.F.n <= V.rows
    ensures c < ChunkCount(V) && Chunk(V, col, c) == col[i..i + V.F.n]
  {
    Naturals.CeilDivCovers(V.rows, V.F.n);
    Naturals.MulMono(ChunkCount(V), c, V.F.n);
    hide ChunkCount;
    assert (c + 1) * V.F.n == c * V.F.n + V.F.n;
  }

  /** The last chunk, if the rows do not end with a whole one. */
  lemma LastChunk<E, H>(V: Setting<E, H>, col: Poly, c: nat, i: nat)
    requires V.F.n > 0 && |col| >= V.rows && i == c * V.F.n && i < V.rows < i + V.F.n
    ensures ChunkCount(V) == c + 1 && Chunk(V, col, c) == col[i..V.rows] + ZeroPoly(V.F.n - (V.rows - i))
  {
    assert (c + 1) * V.F.n == c * V.F.n + V.F.n;
    Naturals.QuotientUnique(V.rows + V.F.n - 1, V.F.n, c + 1);
    assert Padded(V, col)[i..i + V.F.n] == col[i..V.rows] + ZeroPoly(V.F.n - (V.rows - i));
  }

  lemma NoLastChunk<E, H>(V: Setting<E, H>, c: nat)
    requires V.F.n > 0 && V.rows == c * V.F.n
    ensures ChunkCount(V) == c
  {
    Naturals.QuotientUnique(V.rows + V.F.n - 1, V.F.n, c);
  }
}
