/** The loops of the polynomial proof, with the cache of t1 vectors shared by all repetitions. */
module PiopProcedures {
  import opened ByteStrings
  import opened Algebra
  import opened Fields
  import opened Common
  import opened Schemes
  import opened Piop
  import Layout

  // ---- the t1 cache ----

  class T1Cache {
    const active: array<bool>
    const t1: array<Bytes>

    ghost predicate Shaped() { active.Length == t1.Length }

    constructor (entries: nat)
      ensures Shaped() && fresh(active) && fresh(t1) && active.Length == entries
      ensures forall i | 0 <= i < entries :: !active[i]
    {
      active := new bool[entries](_ => false);
      t1 := new Bytes[entries](_ => []);
    }

    method SetEntry(i: nat, v: Bytes)
      requires Shaped() && i < active.Length
      modifies active, t1
      ensures active[..] == old(active[..])[i := true]
      ensures t1[..] == old(t1[..])[i := v]
    {
      t1[i] := v;
      active[i] := true;
    }
  }

  /** Every active slot holds the t1 of its equation; a null cache holds nothing. */
  ghost predicate Serves<B, E>(cache: T1Cache?, s: Scheme<B, E>, q: System, x: Bytes)
    requires ValidSystem(s, q) && |x| == s.XBytes()
    reads Footprint(cache)
  {
    cache != null ==>
      && cache.Shaped() && cache.active.Length == s.p.m
      && forall i | 0 <= i < s.p.m && cache.active[i] :: cache.t1[i] == T1(s.f, q.A[i], q.b[i], x, s.p.n)
  }

  ghost function Footprint(cache: T1Cache?): set<object>
  {
    if cache == null then {} else {cache.active, cache.t1}
  }

  /** The t1 of equation i, computed at most once when there is a cache. */
  method ComputeT1<B, E>(s: Scheme<B, E>, q: System, x: Bytes, i: nat, cache: T1Cache?) returns (t1: Bytes)
    requires ValidSystem(s, q) && |x| == s.XBytes() && i < s.p.m
    requires Serves(cache, s, q, x)
    modifies Footprint(cache)
    ensures t1 == T1(s.f, q.A[i], q.b[i], x, s.p.n)
    ensures Serves(cache, s, q, x)
    ensures cache != null ==> cache.active[i]
  {
    hide BaseMatMul;
    hide Xor;
    hide Pack;
    if cache != null && cache.active[i] {
      t1 := cache.t1[i];
    } else {
      t1 := Pack(s.f, BaseMatMul(s.f, q.A[i], x, s.p.n));
      t1 := Xor(t1, q.b[i]);
      if cache != null {
        cache.SetEntry(i, t1);
      }
    }
  }

  // ---- the signer ----

  method ComputePz<B, E>(s: Scheme<B, E>, x0: seq<E>, x: Bytes, q: System, z0: array<E>, z1: array<E>, cache: T1Cache?)
    returns (ret: int)
    requires ValidSystem(s, q) && |x| == s.XBytes() && |x0| == s.p.n
    requires z0 != z1 && z0.Length == z1.Length == s.p.m
    requires {z0, z1} !! Footprint(cache)
    requires Serves(cache, s, q, x)
    modifies z0, z1, Footprint(cache)
    ensures ret == 0
    ensures z0[..] == Pz0(s, q, x0) && z1[..] == Pz1(s, q, x, x0)
    ensures Serves(cache, s, q, x)
  {
    hide T1;
    hide ExtMatMul;
    hide Lift;
    hide Dot;
    for i := 0 to s.p.m
      invariant Serves(cache, s, q, x)
      invariant forall k | 0 <= k < i :: z0[k] == Pz0(s, q, x0)[k]
      invariant forall k | 0 <= k < i :: z1[k] == Pz1(s, q, x, x0)[k]
    {
      var t0 := ExtMatMul(s.f, q.A[i], x0, s.p.n);
      var t1 := ComputeT1(s, q, x, i, cache);
      var z0i := Dot(s.f.ext, t0, x0, s.p.n);
      var t1x0 := Dot(s.f.ext, Lift(s.f, t1, s.p.n), x0, s.p.n);
      var t0x := Dot(s.f.ext, t0, Lift(s.f, x, s.p.n), s.p.n);
      z0[i] := z0i;
      z1[i] := s.f.ext.Add(t1x0, t0x);
    }
    ret := 0;
  }

  method ComputePhi<B, E>(s: Scheme<B, E>, z: seq<E>) returns (out: seq<E>)
    requires Sized(s) && |z| == s.p.m
    ensures out == Phi(s, z)
  {
    hide Dot;
    out := [];
    for i := 0 to s.p.m / s.p.mu
      invariant |out| == i && forall k | 0 <= k < i :: out[k] == Phi(s, z)[k]
    {
      GroupInside(s.p.m, s.p.mu, i);
      out := out + [Dot(s.f.ext, z[i * s.p.mu..i * s.p.mu + s.p.mu], Basis(s.f, s.p.mu), s.p.mu)];
    }
  }

  /** Rows of the batching matrix, parsed off one squeeze. */
  method ExpandGamma<B, E>(s: Scheme<B, E>, com: Bytes) returns (gamma: seq<seq<E>>)
    requires Sized(s)
    ensures gamma == Gamma(s, com)
  {
    hide Decode;
    var stream := s.p.Squeeze([Truncate(8)] + com, 0, s.p.eta * GammaBytes(s));
    gamma := [];
    for i := 0 to s.p.eta
      invariant |gamma| == i && forall k | 0 <= k < i :: gamma[k] == Gamma(s, com)[k]
    {
      Layout.PieceInside(GammaBytes(s), i, s.p.eta);
      gamma := gamma + [Decode(s.f, Layout.Piece(stream, GammaBytes(s), i), s.p.m / s.p.mu)];
    }
  }

  method ComputeBatch<B, E>(s: Scheme<B, E>, gamma: seq<seq<E>>, z: seq<E>) returns (out: seq<E>)
    requires Sized(s) && |z| == s.p.m
    requires |gamma| == s.p.eta && forall i | 0 <= i < s.p.eta :: |gamma[i]| == s.p.m / s.p.mu
    ensures out == Batch(s, gamma, z)
  {
    hide Phi;
    hide Dot;
    var compressed := ComputePhi(s, z);
    if s.p.batching {
      out := [];
      for i := 0 to s.p.eta
        invariant |out| == i && forall k | 0 <= k < i :: out[k] == Batch(s, gamma, z)[k]
      {
        out := out + [Dot(s.f.ext, gamma[i], compressed, s.p.m / s.p.mu)];
      }
    } else {
      out := compressed;
    }
  }

  /** One repetition's pair of coefficients. */
  method ComputeAlphas<B, E>(s: Scheme<B, E>, ghost com: Bytes, gamma: seq<seq<E>>, x0: seq<E>, u0: seq<E>, u1: seq<E>,
                             x: Bytes, q: System, z0: array<E>, z1: array<E>, cache: T1Cache?)
    returns (alpha0: seq<E>, alpha1: seq<E>)
    requires ValidSystem(s, q) && |x| == s.XBytes() && gamma == Gamma(s, com)
    requires |x0| == s.p.n && |u0| == |u1| == s.p.eta
    requires z0 != z1 && z0.Length == z1.Length == s.p.m
    requires {z0, z1} !! Footprint(cache)
    requires Serves(cache, s, q, x)
    modifies z0, z1, Footprint(cache)
    ensures alpha0 == Alpha0(s, com, q, x0, u0) && alpha1 == Alpha1(s, com, q, x, x0, u1)
    ensures Serves(cache, s, q, x)
  {
    hide Gamma;
    hide Batch;
    hide Pz0;
    hide Pz1;
    hide T1;
    var ret := ComputePz(s, x0, x, q, z0, z1, cache);
    var b0 := ComputeBatch(s, gamma, z0[..]);
    var b1 := ComputeBatch(s, gamma, z1[..]);
    alpha0 := VecAdd(s.f.ext, b0, u0);
    alpha1 := VecAdd(s.f.ext, b1, u1);
  }

  /** The two coefficients of every repetition's polynomial, with or without the cache. */
  method ComputePAlpha<B, E>(s: Scheme<B, E>, useCache: bool, com: Bytes, x0: seq<seq<E>>, u0: seq<seq<E>>, u1: seq<seq<E>>,
                             x: Bytes, q: System, alpha0: array<seq<E>>, alpha1: array<seq<E>>)
    returns (ret: int)
    requires ValidSystem(s, q) && |x| == s.XBytes()
    requires |x0| == |u0| == |u1| == alpha0.Length == alpha1.Length == s.p.tau && alpha0 != alpha1
    requires Layout.AllLength(x0, s.p.n) && Layout.AllLength(u0, s.p.eta) && Layout.AllLength(u1, s.p.eta)
    modifies alpha0, alpha1
    ensures ret == 0
    ensures forall e | 0 <= e < s.p.tau :: alpha0[e] == Alpha0(s, com, q, x0[e], u0[e])
    ensures forall e | 0 <= e < s.p.tau :: alpha1[e] == Alpha1(s, com, q, x, x0[e], u1[e])
  {
    hide Gamma;
    hide Alpha0;
    hide Alpha1;
    hide T1;
    var cache: T1Cache? := null;
    if useCache {
      cache := new T1Cache(s.p.m);
    }
    var gamma := ExpandGamma(s, com);
    var z0 := new E[s.p.m](_ => s.f.ext.zero);
    var z1 := new E[s.p.m](_ => s.f.ext.zero);
    for e := 0 to s.p.tau
      invariant Serves(cache, s, q, x)
      invariant forall k | 0 <= k < e :: alpha0[k] == Alpha0(s, com, q, x0[k], u0[k])
      invariant forall k | 0 <= k < e :: alpha1[k] == Alpha1(s, com, q, x, x0[k], u1[k])
    {
      var a0, a1 := ComputeAlphas(s, com, gamma, x0[e], u0[e], u1[e], x, q, z0, z1, cache);
      alpha0[e] := a0;
      alpha1[e] := a1;
    }
    ret := 0;
  }

  // ---- the verifier ----

  method ComputePzEval<B, E>(s: Scheme<B, E>, r: E, vx: seq<E>, q: System, y: Bytes) returns (vz: seq<E>)
    requires ValidSystem(s, q) && |y| == s.YBytes() && |vx| == s.p.n
    ensures vz == PzEval(s, q, y, r, vx)
  {
    hide ExtMatMul;
    hide Lift;
    hide Dot;
    var r2 := s.f.ext.Mul(r, r);
    var yr2 := Scale(s.f.ext, r2, Lift(s.f, y, s.p.m));
    vz := [];
    for i := 0 to s.p.m
      invariant |vz| == i
      invariant forall k | 0 <= k < i :: vz[k] == ZEval(s.f, q.A[k], q.b[k], r, vx, s.p.n)
    {
      var tmp := ExtMatMul(s.f, q.A[i], vx, s.p.n);
      var vt := Scale(s.f.ext, r, Lift(s.f, q.b[i], s.p.n));
      vt := VecAdd(s.f.ext, vt, tmp);
      vz := vz + [Dot(s.f.ext, vt, vx, s.p.n)];
    }
    vz := VecAdd(s.f.ext, vz, yr2);
  }

  /** alpha0 of every repetition, from alpha1 and the evaluations at the challenge points. */
  method RecomputePAlpha<B, E>(s: Scheme<B, E>, com: Bytes, alpha1: seq<seq<E>>, iStar: seq<nat>, xEval: seq<seq<E>>,
                               uEval: seq<seq<E>>, q: System, y: Bytes, alpha0: array<seq<E>>)
    returns (ret: int)
    requires ValidSystem(s, q) && |y| == s.YBytes()
    requires |alpha1| == |iStar| == |xEval| == |uEval| == alpha0.Length == s.p.tau
    requires Layout.AllLength(xEval, s.p.n) && Layout.AllLength(uEval, s.p.eta) && Layout.AllLength(alpha1, s.p.eta)
    modifies alpha0
    ensures ret == 0
    ensures forall e | 0 <= e < s.p.tau ::
              alpha0[e] == RecomputedAlpha0(s, com, q, y, s.f.Point(iStar[e]), xEval[e], uEval[e], alpha1[e])
  {
    hide Gamma;
    hide Batch;
    hide PzEval;
    var gamma := ExpandGamma(s, com);
    for e := 0 to s.p.tau
      invariant forall k | 0 <= k < e ::
                  alpha0[k] == RecomputedAlpha0(s, com, q, y, s.f.Point(iStar[k]), xEval[k], uEval[k], alpha1[k])
    {
      var r := s.f.Point(iStar[e]);
      var vz := ComputePzEval(s, r, xEval[e], q, y);
      var vAlpha := ComputeBatch(s, gamma, vz);
      vAlpha := VecAdd(s.f.ext, vAlpha, uEval[e]);
      alpha0[e] := Scale(s.f.ext, r, alpha1[e]);
      alpha0[e] := VecAdd(s.f.ext, vAlpha, alpha0[e]);
    }
    ret := 0;
  }
}
