/** Expansion of a seed into the matrices and vectors of the multivariate quadratic system. */
module ExpandMq {
  import opened ByteStrings
  import opened Naturals
  import opened Algebra
  import opened Fields
  import opened Common
  import opened Schemes
  import Prg

  // ---- the layout of the stream of one equation ----

  /** Bits and bytes of row j, which has j + 1 elements. */
  function RowBits(perByte: nat, j: nat): nat
    requires perByte > 0
  {
    (j + 1) * (8 / perByte)
  }

  function RowBytes(perByte: nat, j: nat): nat
    requires perByte > 0
  {
    var nc := RowBits(perByte, j);
    if nc % 8 != 0 then nc / 8 + 1 else nc / 8
  }

  function RowOffset(perByte: nat, j: nat): nat
    requires perByte > 0
  {
    if j == 0 then 0 else RowOffset(perByte, j - 1) + RowBytes(perByte, j - 1)
  }

  /** The rows one after the other, then the linear part, which is as long as the last row. */
  function StreamBytes(perByte: nat, n: nat): nat
    requires perByte > 0 && n > 0
  {
    RowOffset(perByte, n) + RowBytes(perByte, n - 1)
  }

  lemma {:induction false} RowsTile(perByte: nat, j: nat, n: nat)
    requires perByte > 0 && j <= n
    ensures RowOffset(perByte, j) <= RowOffset(perByte, n)
    ensures j < n ==> RowOffset(perByte, j) + RowBytes(perByte, j) <= RowOffset(perByte, n)
  {
    if j < n {
      RowsTile(perByte, j, n - 1);
    }
  }

  /** A row of `num` elements takes the whole bytes they fill and one more for a remainder. */
  lemma RowBytesOf(perByte: nat, num: nat)
    requires perByte == 1 || perByte == 8
    requires num > 0
    ensures RowBits(perByte, num - 1) / (8 / perByte) == num
    ensures RowBytes(perByte, num - 1) == if num % perByte == 0 then num / perByte else num / perByte + 1
  {
  }

  // ---- parsing packed elements ----

  /** `num` elements of `src` in a vector of `size` bytes whose other elements are zero. */
  function ParsedRow(perByte: nat, src: Bytes, num: nat, size: nat): (row: Bytes)
    requires perByte > 0
    requires |src| == if num % perByte == 0 then num / perByte else num / perByte + 1
    requires |src| <= size
    ensures |row| == size
  {
    var whole := num / perByte;
    src[..whole] + (if num % perByte == 0 then [] else [src[whole].KeepLow(num % perByte)]) + Zeros(size - |src|)
  }

  /** field_base_parse into a cleared row. */
  method ParseRow(perByte: nat, src: Bytes, num: nat, row: array<Byte>)
    requires perByte > 0
    requires |src| == if num % perByte == 0 then num / perByte else num / perByte + 1
    requires |src| <= row.Length
    modifies row
    ensures row[..] == ParsedRow(perByte, src, num, row.Length)
  {
    Store(row, 0, Zeros(row.Length));
    var whole := num / perByte;
    Store(row, 0, src[..whole]);
    if num % perByte != 0 {
      row[whole] := src[whole].KeepLow(num % perByte);
    }
  }

  /** Coordinate k of a parsed row is the k-th element of the source, or zero past the end. */
  lemma ParsedRowCoord<B(!new), E(!new)>(F: Field<B, E>, src: Bytes, num: nat, n: nat, k: nat)
    requires FieldLaws(F) && n % F.perByte == 0 && k < n && num <= n
    requires |src| == if num % F.perByte == 0 then num / F.perByte else num / F.perByte + 1
    ensures |src| <= F.BaseBytes(n) && k / F.perByte < F.BaseBytes(n)
    ensures k < num ==> k / F.perByte < |src|
    ensures F.Coord(ParsedRow(F.perByte, src, num, F.BaseBytes(n)), k)
         == if k < num then F.Coord(src, k) else F.base.zero
  {
    PackedIndex(F.perByte, n, k);
    var whole, left := num / F.perByte, num % F.perByte;
    var i, j := k / F.perByte, k % F.perByte;
    if i < whole {
      assert ParsedRow(F.perByte, src, num, F.BaseBytes(n))[i] == src[i];
    } else if i == whole && left != 0 {
      assert ParsedRow(F.perByte, src, num, F.BaseBytes(n))[i] == src[i].KeepLow(left);
      assert MaskLaw(F, src[i], left, j);
    } else {
      assert ParsedRow(F.perByte, src, num, F.BaseBytes(n))[i] == ZERO_BYTE;
      ZeroByteDigit(F, j);
    }
  }

  lemma ZeroByteDigit<B(!new), E(!new)>(F: Field<B, E>, j: nat)
    requires FieldLaws(F) && j < F.perByte
    ensures F.Digit(ZERO_BYTE, j) == F.base.zero
  {
    assert ZERO_BYTE.Plus(ZERO_BYTE) == ZERO_BYTE;
    assert DigitLaw(F, ZERO_BYTE, ZERO_BYTE, j);
    AddSelf(F.base, F.Digit(ZERO_BYTE, j));
  }

  // ---- the equations ----

  function EquationSeed(p: Params, mseedEq: Bytes, i: nat): (s: Bytes)
    ensures |s| == p.seedSize
  {
    p.Squeeze([Truncate(1)] + mseedEq + [Truncate(i), Truncate(i / 256)], 0, p.seedSize)
  }

  function EquationStream(p: Params, perByte: nat, mseedEq: Bytes, i: nat): (s: Bytes)
    requires p.Valid() && perByte > 0 && p.n > 0
    ensures |s| == StreamBytes(perByte, p.n)
  {
    Prg.Expansion(p, Zeros(p.saltSize), 0, EquationSeed(p, mseedEq, i), StreamBytes(perByte, p.n))
  }

  /** Row j of a matrix, read off the stream of its equation. */
  function RowOf(p: Params, perByte: nat, stream: Bytes, j: nat): (row: Bytes)
    requires (perByte == 1 || perByte == 8) && p.n % perByte == 0 && j < p.n
    requires |stream| == StreamBytes(perByte, p.n)
    ensures |row| == p.n / perByte
  {
    RowsTile(perByte, j, p.n);
    RowBytesOf(perByte, j + 1);
    var k := RowOffset(perByte, j);
    ParsedRow(perByte, stream[k..k + RowBytes(perByte, j)], j + 1, p.n / perByte)
  }

  function MatrixOf(p: Params, perByte: nat, stream: Bytes): (A: seq<Bytes>)
    requires (perByte == 1 || perByte == 8) && p.n > 0 && p.n % perByte == 0
    requires |stream| == StreamBytes(perByte, p.n)
    ensures |A| == p.n && forall j | 0 <= j < p.n :: |A[j]| == p.n / perByte
  {
    seq(p.n, j requires 0 <= j < p.n => RowOf(p, perByte, stream, j))
  }

  function VectorOf(p: Params, perByte: nat, stream: Bytes): (b: Bytes)
    requires (perByte == 1 || perByte == 8) && p.n > 0 && p.n % perByte == 0
    requires |stream| == StreamBytes(perByte, p.n)
    ensures |b| == p.n / perByte
  {
    RowBytesOf(perByte, p.n);
    ParsedRow(perByte, stream[RowOffset(perByte, p.n)..], p.n, p.n / perByte)
  }

  /** The matrices of all equations. */
  function Matrices<B, E>(s: Scheme<B, E>, mseedEq: Bytes): (A: seq<seq<Bytes>>)
    requires Sized(s)
    ensures |A| == s.p.m
    ensures forall i | 0 <= i < s.p.m :: |A[i]| == s.p.n
    ensures forall i, j | 0 <= i < s.p.m && 0 <= j < s.p.n :: |A[i][j]| == s.f.BaseBytes(s.p.n)
  {
    seq(s.p.m, i requires 0 <= i < s.p.m =>
      MatrixOf(s.p, s.f.perByte, EquationStream(s.p, s.f.perByte, mseedEq, i)))
  }

  /** The linear parts of all equations. */
  function Vectors<B, E>(s: Scheme<B, E>, mseedEq: Bytes): (b: seq<Bytes>)
    requires Sized(s)
    ensures |b| == s.p.m
    ensures forall i | 0 <= i < s.p.m :: |b[i]| == s.f.BaseBytes(s.p.n)
  {
    seq(s.p.m, i requires 0 <= i < s.p.m =>
      VectorOf(s.p, s.f.perByte, EquationStream(s.p, s.f.perByte, mseedEq, i)))
  }

  /** Every element above the diagonal is zero. */
  ghost predicate LowerTriangular<B, E>(F: Field<B, E>, A: seq<Bytes>, n: nat)
    requires F.perByte == 1 || F.perByte == 8
    requires n % F.perByte == 0 && |A| == n
    requires forall j | 0 <= j < n :: |A[j]| == F.BaseBytes(n)
  {
    forall j, k | 0 <= j < k < n :: Coords(F, A[j], n)[k] == F.base.zero
  }

  lemma RowFits(p: Params, perByte: nat, stream: Bytes, j: nat)
    requires (perByte == 1 || perByte == 8) && p.n % perByte == 0 && j < p.n
    requires |stream| == StreamBytes(perByte, p.n)
    ensures RowOffset(perByte, j) + RowBytes(perByte, j) <= |stream|
    ensures RowBytes(perByte, j) == if (j + 1) % perByte == 0 then (j + 1) / perByte else (j + 1) / perByte + 1
    ensures RowBytes(perByte, j) <= p.n / perByte
  {
    RowsTile(perByte, j, p.n);
    RowBytesOf(perByte, j + 1);
  }

  lemma RowTriangular<B(!new), E(!new)>(F: Field<B, E>, p: Params, stream: Bytes, j: nat, k: nat)
    requires FieldLaws(F) && p.n % F.perByte == 0 && j < k < p.n
    requires |stream| == StreamBytes(F.perByte, p.n)
    ensures Coords(F, RowOf(p, F.perByte, stream, j), p.n)[k] == F.base.zero
  {
    PerByte(F);
    RowEntry(F, p, stream, j, k, RowOffset(F.perByte, j));
    hide *;
  }

  /** Where a row starts, over GF(256): after 1 + 2 + ... + j bytes. */
  lemma {:induction false} ByteRowOffset(j: nat)
    ensures 2 * RowOffset(1, j) == j * (j + 1)
  {
    if j > 0 {
      ByteRowOffset(j - 1);
      assert RowBytes(1, j - 1) == j;
      assert j * (j + 1) == (j - 1) * j + 2 * j;
    }
  }

  /** Over GF(2): eight rows of a byte each, eight of two bytes, and so on. */
  lemma {:induction false} BitRowOffset(j: nat, a: nat, b: nat)
    requires j == 8 * a + b && b < 8
    ensures RowOffset(8, j) == 4 * (a * (a + 1)) + b * (a + 1)
  {
    if b > 0 {
      BitRowOffset(j - 1, a, b - 1);
      BitRowBytes(j - 1, a, b - 1);
      hide RowBytes;
      assert b * (a + 1) == (b - 1) * (a + 1) + (a + 1);
    } else if a > 0 {
      BitRowOffset(j - 1, a - 1, 7);
      BitRowBytes(j - 1, a - 1, 7);
      hide RowBytes;
      assert a * (a + 1) == (a - 1) * a + 2 * a;
    }
  }

  lemma BitRowBytes(j: nat, a: nat, b: nat)
    requires j == 8 * a + b && b < 8
    ensures RowBytes(8, j) == a + 1
  {
  }

  /** Coordinate k of elements parsed from somewhere in a stream. */
  lemma ParsedEntry<B(!new), E(!new)>(F: Field<B, E>, stream: Bytes, at: nat, len: nat, num: nat, n: nat, k: nat)
    requires (F.perByte == 1 || F.perByte == 8) && FieldLaws(F) && n % F.perByte == 0 && k < n && num <= n
    requires len == if num % F.perByte == 0 then num / F.perByte else num / F.perByte + 1
    requires len <= F.BaseBytes(n) && at + len <= |stream|
    ensures k < num ==> k / F.perByte < len
    ensures Coords(F, ParsedRow(F.perByte, stream[at..at + len], num, F.BaseBytes(n)), n)[k]
         == if k < num then F.Digit(stream[at + k / F.perByte], k % F.perByte) else F.base.zero
  {
    var src := stream[at..at + len];
    ParsedRowCoord(F, src, num, n, k);
    hide FieldLaws;
    hide ParsedRow;
    CoordsAt(F, ParsedRow(F.perByte, src, num, F.BaseBytes(n)), n, k);
    hide Coords;
    if k < num {
      assert src[k / F.perByte] == stream[at + k / F.perByte];
    }
  }

  lemma RowIsParsed(p: Params, perByte: nat, stream: Bytes, j: nat, at: nat, len: nat)
    requires (perByte == 1 || perByte == 8) && p.n % perByte == 0 && j < p.n && |stream| == StreamBytes(perByte, p.n)
    requires at == RowOffset(perByte, j) && len == RowBytes(perByte, j)
    requires len == if (j + 1) % perByte == 0 then (j + 1) / perByte else (j + 1) / perByte + 1
    requires at + len <= |stream| && len <= p.n / perByte
    ensures RowOf(p, perByte, stream, j) == ParsedRow(perByte, stream[at..at + len], j + 1, p.n / perByte)
  {
    hide ParsedRow;
    hide RowBits;
    hide RowBytes;
    hide RowOffset;
    hide StreamBytes;
  }

  lemma RowEntry<B(!new), E(!new)>(F: Field<B, E>, p: Params, stream: Bytes, j: nat, k: nat, at: nat)
    requires (F.perByte == 1 || F.perByte == 8) && FieldLaws(F) && p.n % F.perByte == 0 && j < p.n && k < p.n && |stream| == StreamBytes(F.perByte, p.n)
    requires at == RowOffset(F.perByte, j)
    ensures k <= j ==> at + k / F.perByte < |stream|
    ensures Coords(F, RowOf(p, F.perByte, stream, j), p.n)[k]
         == if k <= j then F.Digit(stream[at + k / F.perByte], k % F.perByte) else F.base.zero
  {
    var len := RowBytes(F.perByte, j);
    RowFits(p, F.perByte, stream, j);
    RowIsParsed(p, F.perByte, stream, j, at, len);
    ParsedEntry(F, stream, at, len, j + 1, p.n, k);
    hide *;
  }

  lemma CoordsAt<B, E>(F: Field<B, E>, v: Bytes, n: nat, k: nat)
    requires (F.perByte == 1 || F.perByte == 8) && n % F.perByte == 0 && |v| == F.BaseBytes(n) && k < n
    ensures k / F.perByte < |v| && Coords(F, v, n)[k] == F.Coord(v, k)
  {
    PackedIndex(F.perByte, n, k);
  }

  /** Element (j, k) of a matrix is element k of its row in the stream, or zero above the diagonal. */
  lemma MatrixEntry<B(!new), E(!new)>(F: Field<B, E>, p: Params, stream: Bytes, j: nat, k: nat, at: nat)
    requires (F.perByte == 1 || F.perByte == 8) && FieldLaws(F) && p.n % F.perByte == 0 && j < p.n && k < p.n && |stream| == StreamBytes(F.perByte, p.n)
    requires at == RowOffset(F.perByte, j)
    ensures k <= j ==> at + k / F.perByte < |stream|
    ensures Coords(F, MatrixOf(p, F.perByte, stream)[j], p.n)[k]
         == if k <= j then F.Digit(stream[at + k / F.perByte], k % F.perByte) else F.base.zero
  {
    RowEntry(F, p, stream, j, k, at);
    PerByte(F);
    hide FieldLaws;
    hide Coords;
    hide RowOf;
    hide RowOffset;
    hide StreamBytes;
    assert MatrixOf(p, F.perByte, stream)[j] == RowOf(p, F.perByte, stream, j);
  }

  /** Equation i is read off the stream of equation i. */
  lemma SystemRow<B(!new), E(!new)>(s: Scheme<B, E>, mseedEq: Bytes, i: nat)
    requires ValidScheme(s) && i < s.p.m
    ensures Matrices(s, mseedEq)[i] == MatrixOf(s.p, s.f.perByte, Prg.Expansion(s.p, Zeros(s.p.saltSize), 0, EquationSeed(s.p, mseedEq, i), StreamBytes(s.f.perByte, s.p.n)))
    ensures Vectors(s, mseedEq)[i] == VectorOf(s.p, s.f.perByte, Prg.Expansion(s.p, Zeros(s.p.saltSize), 0, EquationSeed(s.p, mseedEq, i), StreamBytes(s.f.perByte, s.p.n)))
  {
    hide FieldLaws;
    hide MatrixOf;
    hide VectorOf;
    hide Prg.Expansion;
    hide StreamBytes;
  }

  /** Element k of the linear part is element k of what follows the rows. */
  lemma VectorEntry<B(!new), E(!new)>(F: Field<B, E>, p: Params, stream: Bytes, k: nat, at: nat)
    requires (F.perByte == 1 || F.perByte == 8) && FieldLaws(F) && p.n % F.perByte == 0 && k < p.n
    requires |stream| == StreamBytes(F.perByte, p.n) && at == RowOffset(F.perByte, p.n)
    ensures at + k / F.perByte < |stream|
    ensures Coords(F, VectorOf(p, F.perByte, stream), p.n)[k] == F.Digit(stream[at + k / F.perByte], k % F.perByte)
  {
    RowBytesOf(F.perByte, p.n);
    ParsedEntry(F, stream, at, |stream| - at, p.n, p.n, k);
    hide FieldLaws;
    hide ParsedRow;
    hide Coords;
    hide RowBits;
    hide RowBytes;
    hide RowOffset;
    assert stream[at..] == stream[at..|stream|];
  }

  /** The expanded matrices are lower triangular, over either base field. */
  lemma MatricesTriangular<B(!new), E(!new)>(s: Scheme<B, E>, mseedEq: Bytes, i: nat)
    requires ValidScheme(s) && i < s.p.m
    ensures LowerTriangular(s.f, Matrices(s, mseedEq)[i], s.p.n)
  {
    hide FieldLaws;
    hide Coords;
    var stream := EquationStream(s.p, s.f.perByte, mseedEq, i);
    forall j, k | 0 <= j < k < s.p.n
      ensures Coords(s.f, Matrices(s, mseedEq)[i][j], s.p.n)[k] == s.f.base.zero
    {
      RowTriangular(s.f, s.p, stream, j, k);
    }
  }

  // ---- the procedure ----

  method ParseOneRow(p: Params, perByte: nat, stream: Bytes, k: nat, j: nat, nb: nat, num: nat) returns (row: Bytes)
    requires (perByte == 1 || perByte == 8) && p.n % perByte == 0 && j < p.n
    requires |stream| == StreamBytes(perByte, p.n)
    requires k == RowOffset(perByte, j) && nb == RowBytes(perByte, j) && num == j + 1
    ensures k + nb <= |stream|
    ensures row == RowOf(p, perByte, stream, j)
  {
    hide ParsedRow;
    RowFits(p, perByte, stream, j);
    hide RowBits;
    hide StreamBytes;
    hide RowOffset;
    hide RowBytes;
    var buffer := new Byte[p.n / perByte](_ => ZERO_BYTE);
    ParseRow(perByte, stream[k..k + nb], num, buffer);
    row := buffer[..];
  }

  method ParseLinearPart(p: Params, perByte: nat, stream: Bytes, k: nat) returns (b: Bytes)
    requires (perByte == 1 || perByte == 8) && p.n > 0 && p.n % perByte == 0
    requires |stream| == StreamBytes(perByte, p.n) && k == RowOffset(perByte, p.n)
    ensures b == VectorOf(p, perByte, stream)
  {
    hide ParsedRow;
    RowBytesOf(perByte, p.n);
    var buffer := new Byte[p.n / perByte](_ => ZERO_BYTE);
    ParseRow(perByte, stream[k..], p.n, buffer);
    b := buffer[..];
  }

  /** The rows and the linear part of one equation, parsed off its stream from left to right. */
  method ParseEquation(p: Params, perByte: nat, stream: Bytes, nc: seq<nat>, nb: seq<nat>) returns (A: seq<Bytes>, b: Bytes)
    requires (perByte == 1 || perByte == 8) && p.n > 0 && p.n % perByte == 0
    requires |stream| == StreamBytes(perByte, p.n)
    requires |nc| == |nb| == p.n
    requires forall j | 0 <= j < p.n :: nc[j] == RowBits(perByte, j) && nb[j] == RowBytes(perByte, j)
    ensures A == MatrixOf(p, perByte, stream)
    ensures b == VectorOf(p, perByte, stream)
  {
    hide RowOf;
    hide VectorOf;
    hide RowBytes;
    var k := 0;
    A := [];
    for j := 0 to p.n
      invariant k == RowOffset(perByte, j)
      invariant |A| == j && forall j' | 0 <= j' < j :: A[j'] == RowOf(p, perByte, stream, j')
    {
      hide RowBits;
      RowBytesOf(perByte, j + 1);
      var row := ParseOneRow(p, perByte, stream, k, j, nb[j], nc[j] / (8 / perByte));
      A := A + [row];
      k := k + nb[j];
    }
    b := ParseLinearPart(p, perByte, stream, k);
  }

  method SizeOfRow(perByte: nat, j: nat) returns (nc: nat, nb: nat)
    requires perByte > 0
    ensures nc == RowBits(perByte, j) && nb == RowBytes(perByte, j)
  {
    nc := (j + 1) * (8 / perByte);
    nb := if nc % 8 != 0 then nc / 8 + 1 else nc / 8;
  }

  /** Bits and bytes of every row, and the length of the stream of one equation. */
  method RowSizes(perByte: nat, n: nat) returns (nc: seq<nat>, nb: seq<nat>, nbEq: nat)
    requires perByte > 0 && n > 0
    ensures |nc| == |nb| == n
    ensures forall j | 0 <= j < n :: nc[j] == RowBits(perByte, j) && nb[j] == RowBytes(perByte, j)
    ensures nbEq == StreamBytes(perByte, n)
  {
    hide RowBits;
    hide RowBytes;
    nc, nb, nbEq := [], [], 0;
    for j := 0 to n
      invariant |nc| == |nb| == j && nbEq == RowOffset(perByte, j)
      invariant forall j' | 0 <= j' < j :: nc[j'] == RowBits(perByte, j') && nb[j'] == RowBytes(perByte, j')
    {
      var c, bytes := SizeOfRow(perByte, j);
      nc, nb, nbEq := nc + [c], nb + [bytes], nbEq + bytes;
    }
    nbEq := nbEq + nb[n - 1];
  }

  /** Expands one equation's seed into a stream and parses it. */
  method ExpandOne(p: Params, perByte: nat, mseedEq: Bytes, i: nat, seedEq: Bytes, nc: seq<nat>, nb: seq<nat>,
                   stream: array<Byte>, cache: Prg.KeyCache?)
    returns (A: seq<Bytes>, b: Bytes)
    requires p.Valid() && (perByte == 1 || perByte == 8) && p.n > 0 && p.n % perByte == 0
    requires seedEq == EquationSeed(p, mseedEq, i) && stream.Length == StreamBytes(perByte, p.n)
    requires |nc| == |nb| == p.n
    requires forall j | 0 <= j < p.n :: nc[j] == RowBits(perByte, j) && nb[j] == RowBytes(perByte, j)
    requires Prg.Serves(cache, p, Zeros(p.saltSize), 0, CeilDiv(stream.Length, p.seedSize))
    modifies stream, Prg.Footprint(cache)
    ensures cache != null ==> cache.Holds(p, Zeros(p.saltSize), 0)
    ensures A == MatrixOf(p, perByte, EquationStream(p, perByte, mseedEq, i))
    ensures b == VectorOf(p, perByte, EquationStream(p, perByte, mseedEq, i))
  {
    hide MatrixOf;
    hide VectorOf;
    hide Prg.Expansion;
    hide EquationSeed;
    var ret := Prg.Expand(p, Zeros(p.saltSize), 0, seedEq, stream.Length, stream, 0, cache);
    assert stream[..] == EquationStream(p, perByte, mseedEq, i);
    A, b := ParseEquation(p, perByte, stream[..], nc, nb);
  }

  method ExpandX4<B, E>(s: Scheme<B, E>, mseedEq: Bytes, nc: seq<nat>, nb: seq<nat>, stream: array<Byte>,
                        cache: Prg.KeyCache?, A: array<seq<Bytes>>, b: array<Bytes>)
    requires Sized(s) && A.Length == s.p.m && b.Length == s.p.m
    requires s.p.m % 4 == 0
    requires |nc| == |nb| == s.p.n && stream.Length == StreamBytes(s.f.perByte, s.p.n)
    requires forall j | 0 <= j < s.p.n :: nc[j] == RowBits(s.f.perByte, j) && nb[j] == RowBytes(s.f.perByte, j)
    requires Prg.Serves(cache, s.p, Zeros(s.p.saltSize), 0, CeilDiv(stream.Length, s.p.seedSize))
    modifies A, b, stream, Prg.Footprint(cache)
    ensures forall x | 0 <= x < s.p.m :: Done(s, mseedEq, A[..], b[..], x)
  {
    hide MatrixOf;
    hide VectorOf;
    hide EquationStream;
    hide EquationSeed;
    hide Done;
    hide RowBits;
    hide RowBytes;
    hide Prg.Serves;
    hide StreamBytes;
    var i := 3;
    while i < s.p.m
      invariant 3 <= i <= s.p.m + 3 && i % 4 == 3
      invariant Prg.Serves(cache, s.p, Zeros(s.p.saltSize), 0, CeilDiv(stream.Length, s.p.seedSize))
      invariant forall x | 0 <= x < i - 3 && x < s.p.m :: Done(s, mseedEq, A[..], b[..], x)
    {
      ExpandFour(s, mseedEq, i, nc, nb, stream, cache, A, b);
      i := i + 4;
    }
  }

  /** Equations i - 3 to i, their seeds drawn together. */
  method ExpandFour<B, E>(s: Scheme<B, E>, mseedEq: Bytes, i: nat, nc: seq<nat>, nb: seq<nat>, stream: array<Byte>,
                          cache: Prg.KeyCache?, A: array<seq<Bytes>>, b: array<Bytes>)
    requires Sized(s) && A.Length == s.p.m && b.Length == s.p.m && 3 <= i < s.p.m
    requires |nc| == |nb| == s.p.n && stream.Length == StreamBytes(s.f.perByte, s.p.n)
    requires forall j | 0 <= j < s.p.n :: nc[j] == RowBits(s.f.perByte, j) && nb[j] == RowBytes(s.f.perByte, j)
    requires Prg.Serves(cache, s.p, Zeros(s.p.saltSize), 0, CeilDiv(stream.Length, s.p.seedSize))
    requires forall x | 0 <= x < i - 3 :: Done(s, mseedEq, A[..], b[..], x)
    modifies A, b, stream, Prg.Footprint(cache)
    ensures Prg.Serves(cache, s.p, Zeros(s.p.saltSize), 0, CeilDiv(stream.Length, s.p.seedSize))
    ensures forall x | 0 <= x <= i :: Done(s, mseedEq, A[..], b[..], x)
  {
    hide MatrixOf;
    hide VectorOf;
    hide EquationStream;
    hide EquationSeed;
    hide Done;
    hide RowBits;
    hide RowBytes;
    hide StreamBytes;
    hide Prg.Serves;
    var seedEq := seq(4, z requires 0 <= z < 4 => EquationSeed(s.p, mseedEq, i - z));
    for z := 0 to 4
      invariant Prg.Serves(cache, s.p, Zeros(s.p.saltSize), 0, CeilDiv(stream.Length, s.p.seedSize))
      invariant forall x | 0 <= x < i - 3 || i - z < x <= i :: Done(s, mseedEq, A[..], b[..], x)
    {
      StoreEquation(s, mseedEq, i - z, seedEq[z], nc, nb, stream, cache, A, b);
    }
  }

  /** Writes equation i and leaves the others alone. */
  method StoreEquation<B, E>(s: Scheme<B, E>, mseedEq: Bytes, i: nat, seedEq: Bytes, nc: seq<nat>, nb: seq<nat>,
                             stream: array<Byte>, cache: Prg.KeyCache?, A: array<seq<Bytes>>, b: array<Bytes>)
    requires Sized(s) && A.Length == s.p.m && b.Length == s.p.m && i < s.p.m && seedEq == EquationSeed(s.p, mseedEq, i)
    requires |nc| == |nb| == s.p.n && stream.Length == StreamBytes(s.f.perByte, s.p.n)
    requires forall j | 0 <= j < s.p.n :: nc[j] == RowBits(s.f.perByte, j) && nb[j] == RowBytes(s.f.perByte, j)
    requires Prg.Serves(cache, s.p, Zeros(s.p.saltSize), 0, CeilDiv(stream.Length, s.p.seedSize))
    modifies A, b, stream, Prg.Footprint(cache)
    ensures Prg.Serves(cache, s.p, Zeros(s.p.saltSize), 0, CeilDiv(stream.Length, s.p.seedSize))
    ensures Done(s, mseedEq, A[..], b[..], i)
    ensures forall x | 0 <= x < s.p.m && x != i && old(Done(s, mseedEq, A[..], b[..], x)) :: Done(s, mseedEq, A[..], b[..], x)
  {
    hide MatrixOf;
    hide VectorOf;
    hide EquationStream;
    hide EquationSeed;
    hide Done;
    hide RowBits;
    hide RowBytes;
    hide StreamBytes;
    ghost var wasA, wasB := A[..], b[..];
    var rows, linear := ExpandOne(s.p, s.f.perByte, mseedEq, i, seedEq, nc, nb, stream, cache);
    A[i], b[i] := rows, linear;
    StillDone(s, mseedEq, wasA, wasB, A[..], b[..], i);
  }

  method ExpandSerial<B, E>(s: Scheme<B, E>, mseedEq: Bytes, nc: seq<nat>, nb: seq<nat>, stream: array<Byte>,
                            cache: Prg.KeyCache?, A: array<seq<Bytes>>, b: array<Bytes>)
    requires Sized(s) && A.Length == s.p.m && b.Length == s.p.m
    requires |nc| == |nb| == s.p.n && stream.Length == StreamBytes(s.f.perByte, s.p.n)
    requires forall j | 0 <= j < s.p.n :: nc[j] == RowBits(s.f.perByte, j) && nb[j] == RowBytes(s.f.perByte, j)
    requires Prg.Serves(cache, s.p, Zeros(s.p.saltSize), 0, CeilDiv(stream.Length, s.p.seedSize))
    modifies A, b, stream, Prg.Footprint(cache)
    ensures forall x | 0 <= x < s.p.m :: Done(s, mseedEq, A[..], b[..], x)
  {
    hide MatrixOf;
    hide VectorOf;
    hide EquationStream;
    hide EquationSeed;
    hide Done;
    hide RowBits;
    hide RowBytes;
    for i := 0 to s.p.m
      invariant Prg.Serves(cache, s.p, Zeros(s.p.saltSize), 0, CeilDiv(stream.Length, s.p.seedSize))
      invariant forall x | 0 <= x < i :: Done(s, mseedEq, A[..], b[..], x)
    {
      StoreEquation(s, mseedEq, i, EquationSeed(s.p, mseedEq, i), nc, nb, stream, cache, A, b);
    }
  }

  /**
   * All equations, four seeds at a time when the fourfold XOF is in use (which then asks for
   * a multiple of four equations), one at a time otherwise.
   */
  method ExpandEquations<B, E>(s: Scheme<B, E>, useCache: bool, mseedEq: Bytes, A: array<seq<Bytes>>, b: array<Bytes>)
    returns (ret: int)
    requires Sized(s) && A.Length == s.p.m && b.Length == s.p.m
    modifies A, b
    ensures ret == if s.p.xofX4 && (s.p.m < 4 || s.p.m % 4 != 0) then -1 else 0
    ensures ret == 0 ==> A[..] == Matrices(s, mseedEq) && b[..] == Vectors(s, mseedEq)
  {
    hide MatrixOf;
    hide VectorOf;
    hide EquationStream;
    hide RowBits;
    hide RowBytes;
    var nc, nb, nbEq := RowSizes(s.f.perByte, s.p.n);
    var stream := new Byte[nbEq](_ => ZERO_BYTE);
    var cache := Prg.InitCache(useCache, s.p, nbEq);
    if s.p.xofX4 {
      if s.p.m < 4 || s.p.m % 4 != 0 {
        return -1;
      }
      ExpandX4(s, mseedEq, nc, nb, stream, cache, A, b);
    } else {
      ExpandSerial(s, mseedEq, nc, nb, stream, cache, A, b);
    }
    ret := 0;
    forall x | 0 <= x < s.p.m ensures A[x] == Matrices(s, mseedEq)[x] && b[x] == Vectors(s, mseedEq)[x] {
      assert Done(s, mseedEq, A[..], b[..], x);
    }
  }

  /** Equation i has been written. */
  ghost predicate Done<B, E>(s: Scheme<B, E>, mseedEq: Bytes, A: seq<seq<Bytes>>, b: seq<Bytes>, i: nat)
    requires Sized(s) && |A| == |b| == s.p.m && i < s.p.m
  {
    && A[i] == MatrixOf(s.p, s.f.perByte, EquationStream(s.p, s.f.perByte, mseedEq, i))
    && b[i] == VectorOf(s.p, s.f.perByte, EquationStream(s.p, s.f.perByte, mseedEq, i))
  }

  lemma StillDone<B, E>(s: Scheme<B, E>, mseedEq: Bytes, A: seq<seq<Bytes>>, b: seq<Bytes>,
                        A': seq<seq<Bytes>>, b': seq<Bytes>, i: nat)
    requires Sized(s) && |A| == |b| == |A'| == |b'| == s.p.m && i < s.p.m
    requires forall x | 0 <= x < s.p.m && x != i :: A'[x] == A[x] && b'[x] == b[x]
    requires A'[i] == MatrixOf(s.p, s.f.perByte, EquationStream(s.p, s.f.perByte, mseedEq, i))
    requires b'[i] == VectorOf(s.p, s.f.perByte, EquationStream(s.p, s.f.perByte, mseedEq, i))
    ensures Done(s, mseedEq, A', b', i)
    ensures forall x | 0 <= x < s.p.m && x != i && Done(s, mseedEq, A, b, x) :: Done(s, mseedEq, A', b', x)
  {
    hide MatrixOf;
    hide VectorOf;
    hide EquationStream;
  }
}
