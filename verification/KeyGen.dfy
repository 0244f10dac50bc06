/** Key generation: the secret point, the values of the quadratic map there, and the key layout. */
module KeyGen {
  import opened ByteStrings
  import opened Algebra
  import opened Fields
  import opened Common
  import opened Schemes
  import opened Piop
  import ExpandMq

  /** The batched equation expansion only serves systems whose size is a positive multiple of four. */
  predicate CanExpand(p: Params) {
    !(p.xofX4 && (p.m < 4 || p.m % 4 != 0))
  }

  function SystemOf<B, E>(s: Scheme<B, E>, mseedEq: Bytes): (q: System)
    requires Sized(s)
    ensures ValidSystem(s, q)
  {
    System(ExpandMq.Matrices(s, mseedEq), ExpandMq.Vectors(s, mseedEq))
  }

  /** The secret point: the first bytes squeezed from the key seed. */
  function KeyX<B, E>(s: Scheme<B, E>, seedKey: Bytes): (x: Bytes)
    requires Sized(s)
    ensures |x| == s.XBytes()
  {
    s.p.Squeeze([Truncate(0)] + seedKey, 0, s.XBytes())
  }

  /** The equation seed: the bytes squeezed next. */
  function KeyEquationSeed<B, E>(s: Scheme<B, E>, seedKey: Bytes): (r: Bytes)
    requires Sized(s)
    ensures |r| == 2 * s.p.seedSize
  {
    s.p.Squeeze([Truncate(0)] + seedKey, s.XBytes(), 2 * s.p.seedSize)
  }

  /** The values of all quadratic forms at x. */
  function Values<B, E>(s: Scheme<B, E>, q: System, x: Bytes): (v: seq<B>)
    requires ValidSystem(s, q) && |x| == s.XBytes()
    ensures |v| == s.p.m
  {
    seq(s.p.m, i requires 0 <= i < s.p.m => Quadratic(s.f, q.A[i], q.b[i], x, s.p.n))
  }

  function KeyY<B, E>(s: Scheme<B, E>, seedKey: Bytes): (y: Bytes)
    requires Sized(s)
    ensures |y| == s.YBytes()
  {
    Pack(s.f, Values(s, SystemOf(s, KeyEquationSeed(s, seedKey)), KeyX(s, seedKey)))
  }

  function PkSize<B, E>(s: Scheme<B, E>): nat
    requires Sized(s)
  {
    2 * s.p.seedSize + s.YBytes()
  }

  function SkSize<B, E>(s: Scheme<B, E>): nat
    requires Sized(s)
  {
    2 * s.p.seedSize + s.f.BaseBytes(s.p.m + s.p.n)
  }

  lemma SkHoldsBoth<B, E>(s: Scheme<B, E>)
    requires Sized(s)
    ensures SkSize(s) == PkSize(s) + s.XBytes()
  {
  }

  function PublicKey<B, E>(s: Scheme<B, E>, seedKey: Bytes): (pk: Bytes)
    requires Sized(s)
    ensures |pk| == PkSize(s)
  {
    KeyEquationSeed(s, seedKey) + KeyY(s, seedKey)
  }

  function SecretKey<B, E>(s: Scheme<B, E>, seedKey: Bytes): (sk: Bytes)
    requires Sized(s)
    ensures |sk| == SkSize(s)
  {
    SkHoldsBoth(s);
    PublicKey(s, seedKey) + KeyX(s, seedKey)
  }

  /** Where the parts of both keys lie: equation seed, values of the forms, and in the secret key the point. */
  lemma KeyFields<B, E>(s: Scheme<B, E>, seedKey: Bytes)
    requires Sized(s)
    ensures var pk, sk, at := PublicKey(s, seedKey), SecretKey(s, seedKey), 2 * s.p.seedSize;
            && |pk| == at + s.YBytes() && |sk| == at + s.YBytes() + s.XBytes()
            && pk[..at] == KeyEquationSeed(s, seedKey) && pk[at..] == KeyY(s, seedKey)
            && sk[..at + s.YBytes()] == pk && sk[at + s.YBytes()..] == KeyX(s, seedKey)
  {
    hide KeyY;
    hide KeyEquationSeed;
    hide KeyX;
    SkHoldsBoth(s);
  }

  lemma SystemTriangular<B(!new), E(!new)>(s: Scheme<B, E>, mseedEq: Bytes)
    requires ValidScheme(s)
    ensures TriangularSystem(s, SystemOf(s, mseedEq))
  {
    hide FieldLaws;
    forall i | 0 <= i < s.p.m ensures ExpandMq.LowerTriangular(s.f, SystemOf(s, mseedEq).A[i], s.p.n) {
      ExpandMq.MatricesTriangular(s, mseedEq, i);
    }
  }

  /** Every generated key is a solution of its own system. */
  lemma KeySolves<B(!new), E(!new)>(s: Scheme<B, E>, seedKey: Bytes)
    requires ValidScheme(s)
    ensures Solves(s, SystemOf(s, KeyEquationSeed(s, seedKey)), KeyX(s, seedKey), KeyY(s, seedKey))
  {
    hide FieldLaws;
    hide Pack;
    hide Quadratic;
    hide SystemOf;
    CoordsOfPack(s.f, Values(s, SystemOf(s, KeyEquationSeed(s, seedKey)), KeyX(s, seedKey)));
  }

  // ---- the procedure ----

  /** The first i elements of the packed vector are the values of the forms. */
  ghost predicate PackedUpTo<B, E>(s: Scheme<B, E>, q: System, x: Bytes, y: Bytes, i: nat)
    requires ValidSystem(s, q) && |x| == s.XBytes()
  {
    && |y| == s.YBytes() && i <= s.p.m
    && forall k | 0 <= k < i :: k / s.f.perByte < |y| && s.f.Coord(y, k) == Values(s, q, x)[k]
  }

  lemma PackNext<B(!new), E(!new)>(s: Scheme<B, E>, q: System, x: Bytes, y: Bytes, i: nat)
    requires ValidScheme(s) && ValidSystem(s, q) && |x| == s.XBytes() && i < s.p.m && PackedUpTo(s, q, x, y, i)
    ensures i / s.f.perByte < |y|
    ensures PackedUpTo(s, q, x, y[i / s.f.perByte := s.f.SetDigit(y[i / s.f.perByte], i % s.f.perByte, Values(s, q, x)[i])], i + 1)
  {
    hide Values;
    var w := s.f.perByte;
    PackedIndex(w, s.p.m, i);
    var b, v := y[i / w], Values(s, q, x)[i];
    var y' := y[i / w := s.f.SetDigit(b, i % w, v)];
    forall k | 0 <= k < i + 1 ensures k / w < |y'| && s.f.Coord(y', k) == Values(s, q, x)[k] {
      PackedIndex(w, s.p.m, k);
      if k / w == i / w {
        assert SetDigitLaw(s.f, b, i % w, v, k % w);
        SameByte(w, i, k);
      }
    }
  }

  lemma SameByte(w: nat, i: nat, k: nat)
    requires (w == 1 || w == 8) && k / w == i / w
    ensures k % w == i % w <==> k == i
  {
  }

  method ComputeValue<B(!new), E(!new)>(s: Scheme<B, E>, q: System, x: Bytes, i: nat) returns (v: B)
    requires ValidScheme(s) && ValidSystem(s, q) && |x| == s.XBytes() && i < s.p.m
    ensures v == Values(s, q, x)[i]
  {
    hide FieldLaws;
    hide BaseMatMul;
    hide Pack;
    hide Coords;
    CoordsOfPack(s.f, BaseMatMul(s.f, q.A[i], x, s.p.n));
    var tmp := Pack(s.f, BaseMatMul(s.f, q.A[i], x, s.p.n));
    var xs := Coords(s.f, x, s.p.n);
    v := s.f.base.Add(Dot(s.f.base, xs, Coords(s.f, tmp, s.p.n), s.p.n), Dot(s.f.base, xs, Coords(s.f, q.b[i], s.p.n), s.p.n));
  }

  /** Evaluates the quadratic forms and packs their values one by one, whatever y held before. */
  method ComputeY<B(!new), E(!new)>(s: Scheme<B, E>, q: System, x: Bytes, y: array<Byte>)
    requires ValidScheme(s) && ValidSystem(s, q) && |x| == s.XBytes() && y.Length == s.YBytes()
    modifies y
    ensures y[..] == Pack(s.f, Values(s, q, x))
  {
    hide FieldLaws;
    hide Quadratic;
    hide Pack;
    for i := 0 to s.p.m
      invariant PackedUpTo(s, q, x, y[..], i)
    {
      var v := ComputeValue(s, q, x, i);
      PackNext(s, q, x, y[..], i);
      hide PackedUpTo;
      y[i / s.f.perByte] := s.f.SetDigit(y[i / s.f.perByte], i % s.f.perByte, v);
    }
    AllPacked(s, q, x, y[..]);
  }

  lemma AllPacked<B(!new), E(!new)>(s: Scheme<B, E>, q: System, x: Bytes, y: Bytes)
    requires ValidScheme(s) && ValidSystem(s, q) && |x| == s.XBytes() && PackedUpTo(s, q, x, y, s.p.m)
    ensures y == Pack(s.f, Values(s, q, x))
  {
    hide FieldLaws;
    hide Values;
    hide Pack;
    CoordsOfPack(s.f, Values(s, q, x));
    assert Coords(s.f, y, s.p.m) == Values(s, q, x);
    PackUnique(s.f, y, Pack(s.f, Values(s, q, x)), s.p.m);
  }

  method Generate<B(!new), E(!new)>(s: Scheme<B, E>, useCache: bool, seedKey: Bytes, sk: array<Byte>, pk: array<Byte>)
    returns (ret: int)
    requires ValidScheme(s) && |seedKey| == 2 * s.p.seedSize
    requires sk != pk && sk.Length == SkSize(s) && pk.Length == PkSize(s)
    modifies sk, pk
    ensures ret == if CanExpand(s.p) then 0 else -1
    ensures ret == 0 ==> pk[..] == PublicKey(s, seedKey) && sk[..] == SecretKey(s, seedKey)
  {
    hide FieldLaws;
    hide Pack;
    hide Values;
    hide ExpandMq.Matrices;
    hide ExpandMq.Vectors;
    hide Params.Squeeze;
    var stream := [Truncate(0)] + seedKey;
    var x := s.p.Squeeze(stream, 0, s.XBytes());
    var mseedEq := s.p.Squeeze(stream, s.XBytes(), 2 * s.p.seedSize);
    var A := new seq<Bytes>[s.p.m](_ => []);
    var b := new Bytes[s.p.m](_ => []);
    ret := ExpandMq.ExpandEquations(s, useCache, mseedEq, A, b);
    if ret != 0 {
      return;
    }
    var y := new Byte[s.YBytes()];
    ComputeY(s, System(A[..], b[..]), x, y);
    SkHoldsBoth(s);
    WriteKeys(mseedEq, y[..], x, sk, pk);
  }

  /** Both keys start with the equation seed and the values; the secret point follows in the secret key. */
  method WriteKeys(mseedEq: Bytes, y: Bytes, x: Bytes, sk: array<Byte>, pk: array<Byte>)
    requires sk != pk && pk.Length == |mseedEq| + |y| && sk.Length == pk.Length + |x|
    modifies sk, pk
    ensures pk[..] == mseedEq + y && sk[..] == mseedEq + y + x
  {
    var at := |mseedEq|;
    Store(pk, 0, mseedEq);
    Store(pk, at, y);
    Store(sk, 0, mseedEq);
    Store(sk, at, pk[at..at + |y|]);
    Store(sk, at + |y|, x);
  }
}
