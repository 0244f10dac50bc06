/**
 * The polynomial proof for the quadratic system: the coefficients the signer computes, the
 * evaluation the verifier computes, and their agreement on every solution.
 */
module Piop {
  import opened ByteStrings
  import opened Algebra
  import opened Fields
  import opened Common
  import opened Schemes
  import opened ExpandMq
  import Layout
  import Naturals

  // ---- the kernels on lower triangular matrices ----

  /** How far the base-field kernel reads row i: to the end of the byte of the diagonal element. */
  function BaseBound(perByte: nat, i: nat): nat
    requires perByte > 0
  {
    perByte * (i / perByte + 1)
  }

  lemma BaseBoundFits(perByte: nat, i: nat, n: nat)
    requires perByte == 1 || perByte == 8
    requires n % perByte == 0 && i < n
    ensures i < BaseBound(perByte, i) <= n
  {
  }

  ghost predicate Matrix<B, E>(F: Field<B, E>, A: seq<Bytes>, n: nat) {
    && (F.perByte == 1 || F.perByte == 8) && n % F.perByte == 0
    && |A| == n
    && forall i | 0 <= i < n :: |A[i]| == F.BaseBytes(n)
  }

  /** A x over the base field. */
  function BaseMatMul<B, E>(F: Field<B, E>, A: seq<Bytes>, x: Bytes, n: nat): (r: seq<B>)
    requires Matrix(F, A, n) && |x| == F.BaseBytes(n)
    ensures |r| == n
  {
    seq(n, i requires 0 <= i < n =>
      BaseBoundFits(F.perByte, i, n);
      Dot(F.base, Coords(F, A[i], n), Coords(F, x, n), BaseBound(F.perByte, i)))
  }

  /** A v for a vector over the extension; row i is read up to the diagonal. */
  function ExtMatMul<B, E>(F: Field<B, E>, A: seq<Bytes>, v: seq<E>, n: nat): (r: seq<E>)
    requires Matrix(F, A, n) && |v| == n
    ensures |r| == n
  {
    seq(n, i requires 0 <= i < n => Dot(F.ext, Lift(F, A[i], n), v, i + 1))
  }

  /** The two kernels read different lengths of a row, which is the same on a triangular matrix. */
  lemma KernelsAgree<B(!new), E(!new)>(F: Field<B, E>, A: seq<Bytes>, x: Bytes, n: nat)
    requires FieldLaws(F) && Matrix(F, A, n) && |x| == F.BaseBytes(n) && LowerTriangular(F, A, n)
    ensures ExtMatMul(F, A, Lift(F, x, n), n) == EmbedAll(F, BaseMatMul(F, A, x, n))
  {
    forall i | 0 <= i < n
      ensures ExtMatMul(F, A, Lift(F, x, n), n)[i] == EmbedAll(F, BaseMatMul(F, A, x, n))[i]
    {
      BaseBoundFits(F.perByte, i, n);
      var row, xs := Coords(F, A[i], n), Coords(F, x, n);
      DotZeroTail(F.base, row, xs, i + 1, BaseBound(F.perByte, i));
      EmbedDot(F, row, xs, i + 1);
    }
  }

  lemma ExtMatMulLine<B(!new), E(!new)>(F: Field<B, E>, A: seq<Bytes>, a: seq<E>, c: seq<E>, r: E, n: nat)
    requires FieldLaws(F) && Matrix(F, A, n) && |a| == |c| == n
    ensures ExtMatMul(F, A, Line(F.ext, a, c, r), n) == Line(F.ext, ExtMatMul(F, A, a, n), ExtMatMul(F, A, c, n), r)
  {
    hide Lift;
    hide FieldLaws;
    hide Char2Ring;
    ExtIsRing(F);
    forall i | 0 <= i < n
      ensures ExtMatMul(F, A, Line(F.ext, a, c, r), n)[i]
           == Line(F.ext, ExtMatMul(F, A, a, n), ExtMatMul(F, A, c, n), r)[i]
    {
      DotLineRight(F.ext, Lift(F, A[i], n), a, c, r, i + 1);
    }
  }

  lemma ExtIsRing<B(!new), E(!new)>(F: Field<B, E>)
    requires FieldLaws(F)
    ensures Char2Ring(F.ext)
  {
  }

  lemma DotLineRight<T(!new)>(R: Ring<T>, v: seq<T>, a: seq<T>, c: seq<T>, r: T, n: nat)
    requires Char2Ring(R) && n <= |v| && n <= |a| == |c|
    ensures Dot(R, v, Line(R, a, c, r), n) == R.Add(Dot(R, v, a, n), R.Mul(r, Dot(R, v, c, n)))
  {
    hide Char2Ring;
    DotComm(R, v, Line(R, a, c, r), n);
    DotAdd(R, a, Scale(R, r, c), v, n);
    DotScale(R, r, c, v, n);
    DotComm(R, v, a, n);
    DotComm(R, v, c, n);
  }

  // ---- one equation ----

  /** t1 = A x + b, packed. */
  function T1<B, E>(F: Field<B, E>, A: seq<Bytes>, b: Bytes, x: Bytes, n: nat): (r: Bytes)
    requires Matrix(F, A, n) && |b| == |x| == F.BaseBytes(n)
    ensures |r| == F.BaseBytes(n)
  {
    Xor(Pack(F, BaseMatMul(F, A, x, n)), b)
  }

  /** x^T A x + b^T x. */
  function Quadratic<B, E>(F: Field<B, E>, A: seq<Bytes>, b: Bytes, x: Bytes, n: nat): B
    requires Matrix(F, A, n) && |b| == |x| == F.BaseBytes(n)
  {
    F.base.Add(Dot(F.base, Coords(F, x, n), BaseMatMul(F, A, x, n), n),
               Dot(F.base, Coords(F, x, n), Coords(F, b, n), n))
  }

  function Z0<B, E>(F: Field<B, E>, A: seq<Bytes>, x0: seq<E>, n: nat): E
    requires Matrix(F, A, n) && |x0| == n
  {
    Dot(F.ext, ExtMatMul(F, A, x0, n), x0, n)
  }

  function Z1<B, E>(F: Field<B, E>, A: seq<Bytes>, t1: Bytes, x: Bytes, x0: seq<E>, n: nat): E
    requires Matrix(F, A, n) && |t1| == |x| == F.BaseBytes(n) && |x0| == n
  {
    F.ext.Add(Dot(F.ext, Lift(F, t1, n), x0, n), Dot(F.ext, ExtMatMul(F, A, x0, n), Lift(F, x, n), n))
  }

  /** The verifier's v_t^T v_x, without the y r^2 term. */
  function ZEval<B, E>(F: Field<B, E>, A: seq<Bytes>, b: Bytes, r: E, vx: seq<E>, n: nat): E
    requires Matrix(F, A, n) && |b| == F.BaseBytes(n) && |vx| == n
  {
    Dot(F.ext, VecAdd(F.ext, Scale(F.ext, r, Lift(F, b, n)), ExtMatMul(F, A, vx, n)), vx, n)
  }

  /** (t0 + r t1)^T (x0 + r x) has the coefficients z0 and z1, and t1^T x at r^2. */
  lemma QuadLine<T(!new)>(R: Ring<T>, t0: seq<T>, t1: seq<T>, x0: seq<T>, x: seq<T>, r: T, n: nat)
    requires Char2Ring(R) && |t0| == |t1| == |x0| == |x| == n
    ensures Dot(R, Line(R, t0, t1, r), Line(R, x0, x, r), n)
         == R.Add(R.Add(Dot(R, t0, x0, n), R.Mul(r, R.Add(Dot(R, t1, x0, n), Dot(R, t0, x, n)))),
                  R.Mul(R.Mul(r, r), Dot(R, t1, x, n)))
  {
    var v := Line(R, x0, x, r);
    DotAdd(R, t0, Scale(R, r, t1), v, n);
    DotScale(R, r, t1, v, n);
    DotLineRight(R, t0, x0, x, r, n);
    DotLineRight(R, t1, x0, x, r, n);
    var a, b, c, d := Dot(R, t0, x0, n), Dot(R, t0, x, n), Dot(R, t1, x0, n), Dot(R, t1, x, n);
    // (a + r b) + r (c + r d)
    Distribute(R, r, c, R.Mul(r, d));
    MulAssoc(R, r, r, d);
    AddAssoc(R, R.Add(a, R.Mul(r, b)), R.Mul(r, c), R.Mul(R.Mul(r, r), d));
    AddAssoc(R, a, R.Mul(r, b), R.Mul(r, c));
    AddComm(R, R.Mul(r, b), R.Mul(r, c));
    Distribute(R, r, c, b);
  }

  /** t1^T x is the value of the quadratic form. */
  lemma T1DotX<B(!new), E(!new)>(F: Field<B, E>, A: seq<Bytes>, b: Bytes, x: Bytes, n: nat)
    requires FieldLaws(F) && Matrix(F, A, n) && |b| == |x| == F.BaseBytes(n)
    ensures Dot(F.ext, Lift(F, T1(F, A, b, x, n), n), Lift(F, x, n), n) == F.Embed(Quadratic(F, A, b, x, n))
  {
    hide BaseMatMul;
    hide Xor;
    var ax, bs, xs := BaseMatMul(F, A, x, n), Coords(F, b, n), Coords(F, x, n);
    CoordsOfPack(F, ax);
    CoordsXor(F, Pack(F, ax), b, n);
    var t1 := VecAdd(F.base, ax, bs);
    EmbedDot(F, t1, xs, n);
    DotAdd(F.base, ax, bs, xs, n);
    DotComm(F.base, ax, xs, n);
    DotComm(F.base, bs, xs, n);
  }

  /** r b + A (x0 + r x) is the line from A x0 with slope t1. */
  lemma EvalT<B(!new), E(!new)>(F: Field<B, E>, A: seq<Bytes>, b: Bytes, x: Bytes, x0: seq<E>, r: E, n: nat)
    requires FieldLaws(F) && Matrix(F, A, n) && LowerTriangular(F, A, n)
    requires |b| == |x| == F.BaseBytes(n) && |x0| == n
    ensures VecAdd(F.ext, Scale(F.ext, r, Lift(F, b, n)), ExtMatMul(F, A, Line(F.ext, x0, Lift(F, x, n), r), n))
         == Line(F.ext, ExtMatMul(F, A, x0, n), Lift(F, T1(F, A, b, x, n), n), r)
  {
    hide BaseMatMul;
    hide ExtMatMul;
    hide Xor;
    var R := F.ext;
    var t0, lx, lb := ExtMatMul(F, A, x0, n), Lift(F, x, n), Lift(F, b, n);
    ExtMatMulLine(F, A, x0, lx, r, n);
    KernelsAgree(F, A, x, n);
    var ax := EmbedAll(F, BaseMatMul(F, A, x, n));
    CoordsOfPack(F, BaseMatMul(F, A, x, n));
    LiftXor(F, Pack(F, BaseMatMul(F, A, x, n)), b, n);
    assert Lift(F, T1(F, A, b, x, n), n) == VecAdd(R, ax, lb);
    forall k | 0 <= k < n
      ensures R.Add(R.Mul(r, lb[k]), R.Add(t0[k], R.Mul(r, ax[k]))) == R.Add(t0[k], R.Mul(r, R.Add(ax[k], lb[k])))
    {
      MoveSlope(R, r, lb[k], t0[k], ax[k]);
    }
  }

  lemma MoveSlope<T(!new)>(R: Ring<T>, r: T, b: T, t: T, a: T)
    requires Char2Ring(R)
    ensures R.Add(R.Mul(r, b), R.Add(t, R.Mul(r, a))) == R.Add(t, R.Mul(r, R.Add(a, b)))
  {
    AddComm(R, R.Mul(r, b), R.Add(t, R.Mul(r, a)));
    AddAssoc(R, t, R.Mul(r, a), R.Mul(r, b));
    Distribute(R, r, a, b);
  }

  /** The verifier's evaluation of one equation: z0 + r z1, plus y r^2. */
  lemma EquationEval<B(!new), E(!new)>(F: Field<B, E>, A: seq<Bytes>, b: Bytes, x: Bytes, x0: seq<E>, r: E, n: nat)
    requires FieldLaws(F) && Matrix(F, A, n) && LowerTriangular(F, A, n)
    requires |b| == |x| == F.BaseBytes(n) && |x0| == n
    ensures ZEval(F, A, b, r, Line(F.ext, x0, Lift(F, x, n), r), n)
         == F.ext.Add(F.ext.Add(Z0(F, A, x0, n), F.ext.Mul(r, Z1(F, A, T1(F, A, b, x, n), x, x0, n))),
                      F.ext.Mul(F.ext.Mul(r, r), F.Embed(Quadratic(F, A, b, x, n))))
  {
    hide T1;
    hide ExtMatMul;
    hide Lift;
    hide Quadratic;
    hide Line;
    EvalT(F, A, b, x, x0, r, n);
    QuadLine(F.ext, ExtMatMul(F, A, x0, n), Lift(F, T1(F, A, b, x, n), n), x0, Lift(F, x, n), r, n);
    T1DotX(F, A, b, x, n);
  }

  // ---- all equations, compressed and batched ----

  /** The public system: matrices, linear parts and values. */
  datatype System = System(A: seq<seq<Bytes>>, b: seq<Bytes>)

  ghost predicate ValidSystem<B, E>(s: Scheme<B, E>, q: System) {
    && Sized(s) && |q.A| == |q.b| == s.p.m
    && (forall i | 0 <= i < s.p.m :: Matrix(s.f, q.A[i], s.p.n))
    && (forall i | 0 <= i < s.p.m :: |q.b[i]| == s.XBytes())
  }

  ghost predicate TriangularSystem<B, E>(s: Scheme<B, E>, q: System)
    requires ValidSystem(s, q)
  {
    forall i | 0 <= i < s.p.m :: LowerTriangular(s.f, q.A[i], s.p.n)
  }

  function Pz0<B, E>(s: Scheme<B, E>, q: System, x0: seq<E>): (r: seq<E>)
    requires ValidSystem(s, q) && |x0| == s.p.n
    ensures |r| == s.p.m
  {
    seq(s.p.m, i requires 0 <= i < s.p.m => Z0(s.f, q.A[i], x0, s.p.n))
  }

  function Pz1<B, E>(s: Scheme<B, E>, q: System, x: Bytes, x0: seq<E>): (r: seq<E>)
    requires ValidSystem(s, q) && |x| == s.XBytes() && |x0| == s.p.n
    ensures |r| == s.p.m
  {
    seq(s.p.m, i requires 0 <= i < s.p.m =>
      Z1(s.f, q.A[i], T1(s.f, q.A[i], q.b[i], x, s.p.n), x, x0, s.p.n))
  }

  function PzEval<B, E>(s: Scheme<B, E>, q: System, y: Bytes, r: E, vx: seq<E>): (v: seq<E>)
    requires ValidSystem(s, q) && |y| == s.YBytes() && |vx| == s.p.n
    ensures |v| == s.p.m
  {
    VecAdd(s.f.ext, seq(s.p.m, i requires 0 <= i < s.p.m => ZEval(s.f, q.A[i], q.b[i], r, vx, s.p.n)),
           Scale(s.f.ext, s.f.ext.Mul(r, r), Lift(s.f, y, s.p.m)))
  }

  /** y holds the values of the quadratic forms at x. */
  ghost predicate Solves<B, E>(s: Scheme<B, E>, q: System, x: Bytes, y: Bytes)
    requires ValidSystem(s, q) && |x| == s.XBytes() && |y| == s.YBytes()
  {
    forall i | 0 <= i < s.p.m :: Coords(s.f, y, s.p.m)[i] == Quadratic(s.f, q.A[i], q.b[i], x, s.p.n)
  }

  function Basis<B, E>(F: Field<B, E>, mu: nat): (r: seq<E>)
    ensures |r| == mu
  {
    seq(mu, k requires 0 <= k < mu => F.basis(k))
  }

  /** phi: mu values at a time are combined along the basis of the extension. */
  function Phi<B, E>(s: Scheme<B, E>, z: seq<E>): (r: seq<E>)
    requires Sized(s) && |z| == s.p.m
    ensures |r| == s.p.m / s.p.mu
  {
    seq(s.p.m / s.p.mu, i requires 0 <= i < s.p.m / s.p.mu =>
      GroupInside(s.p.m, s.p.mu, i);
      Dot(s.f.ext, z[i * s.p.mu..i * s.p.mu + s.p.mu], Basis(s.f, s.p.mu), s.p.mu))
  }

  lemma GroupInside(m: nat, mu: nat, i: nat)
    requires mu > 0 && i < m / mu
    ensures i * mu + mu <= m
  {
    Naturals.DivMulBound(m, mu);
    Naturals.MulMono(i + 1, m / mu, mu);
    assert (i + 1) * mu == i * mu + mu;
  }

  /** Bytes of one row of the batching matrix. */
  function GammaBytes<B, E>(s: Scheme<B, E>): nat
    requires Sized(s)
  {
    s.p.m / s.p.mu * s.f.extBytes
  }

  /** The batching matrix drawn from the commitment. */
  function Gamma<B, E>(s: Scheme<B, E>, com: Bytes): (g: seq<seq<E>>)
    requires Sized(s)
    ensures |g| == s.p.eta && forall i | 0 <= i < s.p.eta :: |g[i]| == s.p.m / s.p.mu
  {
    var rows := Layout.Pieces(s.p.Squeeze([Truncate(8)] + com, 0, s.p.eta * GammaBytes(s)), GammaBytes(s), s.p.eta);
    seq(s.p.eta, i requires 0 <= i < s.p.eta => Decode(s.f, rows[i], s.p.m / s.p.mu))
  }

  /** phi, followed by the batching matrix where batching is used. */
  function Batch<B, E>(s: Scheme<B, E>, gamma: seq<seq<E>>, z: seq<E>): (r: seq<E>)
    requires Sized(s) && |z| == s.p.m
    requires |gamma| == s.p.eta && forall i | 0 <= i < s.p.eta :: |gamma[i]| == s.p.m / s.p.mu
    ensures |r| == s.p.eta
  {
    if s.p.batching then
      seq(s.p.eta, i requires 0 <= i < s.p.eta => Dot(s.f.ext, gamma[i], Phi(s, z), s.p.m / s.p.mu))
    else
      Phi(s, z)
  }

  function Alpha0<B, E>(s: Scheme<B, E>, com: Bytes, q: System, x0: seq<E>, u0: seq<E>): (r: seq<E>)
    requires ValidSystem(s, q) && |x0| == s.p.n && |u0| == s.p.eta
    ensures |r| == s.p.eta
  {
    VecAdd(s.f.ext, Batch(s, Gamma(s, com), Pz0(s, q, x0)), u0)
  }

  function Alpha1<B, E>(s: Scheme<B, E>, com: Bytes, q: System, x: Bytes, x0: seq<E>, u1: seq<E>): (r: seq<E>)
    requires ValidSystem(s, q) && |x| == s.XBytes() && |x0| == s.p.n && |u1| == s.p.eta
    ensures |r| == s.p.eta
  {
    VecAdd(s.f.ext, Batch(s, Gamma(s, com), Pz1(s, q, x, x0)), u1)
  }

  /** What the verifier computes for alpha0 from alpha1 and the evaluations at r. */
  function RecomputedAlpha0<B, E>(s: Scheme<B, E>, com: Bytes, q: System, y: Bytes, r: E, vx: seq<E>, vu: seq<E>, alpha1: seq<E>): (v: seq<E>)
    requires ValidSystem(s, q) && |y| == s.YBytes() && |vx| == s.p.n && |vu| == |alpha1| == s.p.eta
    ensures |v| == s.p.eta
  {
    VecAdd(s.f.ext, VecAdd(s.f.ext, Batch(s, Gamma(s, com), PzEval(s, q, y, r, vx)), vu), Scale(s.f.ext, r, alpha1))
  }

  /** On a triangular matrix the value of the form is the full double sum: x^T (A x) + b^T x without any bounds. */
  lemma QuadraticIsFullSum<B(!new), E(!new)>(F: Field<B, E>, A: seq<Bytes>, b: Bytes, x: Bytes, n: nat)
    requires FieldLaws(F) && Matrix(F, A, n) && LowerTriangular(F, A, n) && |b| == |x| == F.BaseBytes(n)
    ensures var xs := Coords(F, x, n);
            Quadratic(F, A, b, x, n)
            == F.base.Add(Dot(F.base, xs, seq(n, i requires 0 <= i < n => Dot(F.base, Coords(F, A[i], n), xs, n)), n),
                          Dot(F.base, Coords(F, b, n), xs, n))
  {
    var xs := Coords(F, x, n);
    forall i | 0 <= i < n ensures BaseMatMul(F, A, x, n)[i] == Dot(F.base, Coords(F, A[i], n), xs, n) {
      BaseBoundFits(F.perByte, i, n);
      DotZeroTail(F.base, Coords(F, A[i], n), xs, BaseBound(F.perByte, i), n);
    }
    assert BaseMatMul(F, A, x, n) == seq(n, i requires 0 <= i < n => Dot(F.base, Coords(F, A[i], n), xs, n));
    DotComm(F.base, xs, Coords(F, b, n), n);
  }

  /** A unit row of the batching matrix picks one compressed value, scaled. */
  lemma BatchSelects<B(!new), E(!new)>(s: Scheme<B, E>, gamma: seq<seq<E>>, z: seq<E>, i: nat, j: nat, c: E)
    requires ValidScheme(s) && s.p.batching && |z| == s.p.m && i < s.p.eta && j < s.p.m / s.p.mu
    requires |gamma| == s.p.eta && forall k | 0 <= k < s.p.eta :: |gamma[k]| == s.p.m / s.p.mu
    requires gamma[i] == VecZero(s.f.ext, s.p.m / s.p.mu)[j := c]
    ensures Batch(s, gamma, z)[i] == s.f.ext.Mul(c, Phi(s, z)[j])
  {
    hide FieldLaws;
    hide Phi;
    ExtIsRing(s.f);
    UnitDot(s.f.ext, gamma[i], Phi(s, z), j, c, s.p.m / s.p.mu);
  }

  lemma {:induction false} UnitDot<T(!new)>(R: Ring<T>, row: seq<T>, z: seq<T>, j: nat, c: T, n: nat)
    requires Char2Ring(R) && n <= |row| == |z| && j < |row| && row[j] == c
    requires forall k | 0 <= k < |row| && k != j :: row[k] == R.zero
    ensures Dot(R, row, z, n) == if j < n then R.Mul(c, z[j]) else R.zero
  {
    if n > 0 {
      UnitDot(R, row, z, j, c, n - 1);
      MulZero(R, z[n - 1]);
      AddZero(R, R.Mul(c, z[j]));
      AddZero(R, R.zero);
    }
  }

  /** Batching is additive in the matrix as well, so its entries are what it is made of. */
  lemma BatchMatrixAdds<B(!new), E(!new)>(s: Scheme<B, E>, g: seq<seq<E>>, g': seq<seq<E>>, h: seq<seq<E>>, z: seq<E>, i: nat)
    requires ValidScheme(s) && s.p.batching && |z| == s.p.m && i < s.p.eta && |g| == |g'| == |h| == s.p.eta
    requires forall k | 0 <= k < s.p.eta :: |g[k]| == |g'[k]| == |h[k]| == s.p.m / s.p.mu
    requires h[i] == VecAdd(s.f.ext, g[i], g'[i])
    ensures Batch(s, h, z)[i] == s.f.ext.Add(Batch(s, g, z)[i], Batch(s, g', z)[i])
  {
    hide FieldLaws;
    hide Phi;
    ExtIsRing(s.f);
    DotAdd(s.f.ext, g[i], g'[i], Phi(s, z), s.p.m / s.p.mu);
  }

  // ---- soundness of the equations, and completeness ----

  /** What the equations miss at x: zero everywhere exactly on solutions. */
  function Residual<B, E>(s: Scheme<B, E>, q: System, x: Bytes, y: Bytes): (r: seq<B>)
    requires ValidSystem(s, q) && |x| == s.XBytes() && |y| == s.YBytes()
    ensures |r| == s.p.m
  {
    seq(s.p.m, i requires 0 <= i < s.p.m =>
      s.f.base.Add(Coords(s.f, y, s.p.m)[i], Quadratic(s.f, q.A[i], q.b[i], x, s.p.n)))
  }

  /** Off solutions the evaluation of every equation lies r^2 times its residual beside the line z0 + r z1. */
  lemma PzEvalLine<B(!new), E(!new)>(s: Scheme<B, E>, q: System, x: Bytes, y: Bytes, x0: seq<E>, r: E)
    requires ValidScheme(s) && ValidSystem(s, q) && TriangularSystem(s, q)
    requires |x| == s.XBytes() && |y| == s.YBytes() && |x0| == s.p.n
    ensures PzEval(s, q, y, r, Line(s.f.ext, x0, Lift(s.f, x, s.p.n), r))
         == Line(s.f.ext, Line(s.f.ext, Pz0(s, q, x0), Pz1(s, q, x, x0), r), EmbedAll(s.f, Residual(s, q, x, y)), s.f.ext.Mul(r, r))
  {
    hide Z0;
    hide Z1;
    hide ZEval;
    hide T1;
    hide Quadratic;
    hide FieldLaws;
    hide Char2Ring;
    ExtIsRing(s.f);
    var R, vx, rr := s.f.ext, Line(s.f.ext, x0, Lift(s.f, x, s.p.n), r), s.f.ext.Mul(r, r);
    var line, res := Line(R, Pz0(s, q, x0), Pz1(s, q, x, x0), r), EmbedAll(s.f, Residual(s, q, x, y));
    forall i | 0 <= i < s.p.m ensures PzEval(s, q, y, r, vx)[i] == Line(R, line, res, rr)[i] {
      EquationEval(s.f, q.A[i], q.b[i], x, x0, r, s.p.n);
      var yi, qi := Coords(s.f, y, s.p.m)[i], Quadratic(s.f, q.A[i], q.b[i], x, s.p.n);
      EmbedSum(s.f, yi, qi);
      Distribute(R, rr, s.f.Embed(yi), s.f.Embed(qi));
      AddAssoc(R, line[i], R.Mul(rr, s.f.Embed(qi)), R.Mul(rr, s.f.Embed(yi)));
      AddComm(R, R.Mul(rr, s.f.Embed(qi)), R.Mul(rr, s.f.Embed(yi)));
    }
  }

  lemma EmbedSum<B(!new), E(!new)>(F: Field<B, E>, a: B, b: B)
    requires FieldLaws(F)
    ensures F.Embed(F.base.Add(a, b)) == F.ext.Add(F.Embed(a), F.Embed(b))
  {
    assert EmbedLaw(F, a, b);
  }

  lemma ResidualOfSolution<B(!new), E(!new)>(s: Scheme<B, E>, q: System, x: Bytes, y: Bytes)
    requires ValidScheme(s) && ValidSystem(s, q) && |x| == s.XBytes() && |y| == s.YBytes()
    ensures Solves(s, q, x, y) <==> Residual(s, q, x, y) == VecZero(s.f.base, s.p.m)
  {
    hide Quadratic;
    hide Coords;
    var R, res := s.f.base, Residual(s, q, x, y);
    forall i | 0 <= i < s.p.m
      ensures Coords(s.f, y, s.p.m)[i] == Quadratic(s.f, q.A[i], q.b[i], x, s.p.n) <==> res[i] == R.zero
    {
      var yi, qi := Coords(s.f, y, s.p.m)[i], Quadratic(s.f, q.A[i], q.b[i], x, s.p.n);
      AddSelf(R, qi);
      AddCancel(R, yi, qi);
      AddZero(R, qi);
    }
  }

  lemma PhiLine<B(!new), E(!new)>(s: Scheme<B, E>, a: seq<E>, c: seq<E>, r: E)
    requires ValidScheme(s) && |a| == |c| == s.p.m
    ensures Phi(s, Line(s.f.ext, a, c, r)) == Line(s.f.ext, Phi(s, a), Phi(s, c), r)
  {
    hide FieldLaws;
    hide Char2Ring;
    hide Basis;
    ExtIsRing(s.f);
    var R, mu, basis := s.f.ext, s.p.mu, Basis(s.f, s.p.mu);
    forall i | 0 <= i < s.p.m / mu
      ensures Phi(s, Line(R, a, c, r))[i] == Line(R, Phi(s, a), Phi(s, c), r)[i]
    {
      GroupInside(s.p.m, mu, i);
      GroupLine(R, a, c, r, basis, i * mu, mu);
    }
  }

  /** Combining a stretch of a line along a basis gives a point of the combined line. */
  lemma GroupLine<T(!new)>(R: Ring<T>, a: seq<T>, c: seq<T>, r: T, basis: seq<T>, at: nat, mu: nat)
    requires Char2Ring(R) && |a| == |c| && at + mu <= |a| && |basis| == mu
    ensures Dot(R, Line(R, a, c, r)[at..at + mu], basis, mu)
         == R.Add(Dot(R, a[at..at + mu], basis, mu), R.Mul(r, Dot(R, c[at..at + mu], basis, mu)))
  {
    hide Char2Ring;
    var ga, gc := a[at..at + mu], c[at..at + mu];
    assert Line(R, a, c, r)[at..at + mu] == Line(R, ga, gc, r);
    DotComm(R, Line(R, ga, gc, r), basis, mu);
    DotLineRight(R, basis, ga, gc, r, mu);
    DotComm(R, ga, basis, mu);
    DotComm(R, gc, basis, mu);
  }

  lemma BatchLine<B(!new), E(!new)>(s: Scheme<B, E>, gamma: seq<seq<E>>, a: seq<E>, c: seq<E>, r: E)
    requires ValidScheme(s) && |a| == |c| == s.p.m
    requires |gamma| == s.p.eta && forall i | 0 <= i < s.p.eta :: |gamma[i]| == s.p.m / s.p.mu
    ensures Batch(s, gamma, Line(s.f.ext, a, c, r)) == Line(s.f.ext, Batch(s, gamma, a), Batch(s, gamma, c), r)
  {
    hide FieldLaws;
    hide Char2Ring;
    hide Phi;
    ExtIsRing(s.f);
    PhiLine(s, a, c, r);
    if s.p.batching {
      forall i | 0 <= i < s.p.eta
        ensures Batch(s, gamma, Line(s.f.ext, a, c, r))[i] == Line(s.f.ext, Batch(s, gamma, a), Batch(s, gamma, c), r)[i]
      {
        DotLineRight(s.f.ext, gamma[i], Phi(s, a), Phi(s, c), r, s.p.m / s.p.mu);
      }
    }
  }

  /** For any x, solution or not, the recomputed alpha0 differs from the signer's by r^2 times the batched residual. */
  lemma AlphaDifference<B(!new), E(!new)>(s: Scheme<B, E>, com: Bytes, q: System, x: Bytes, y: Bytes, x0: seq<E>, u0: seq<E>, u1: seq<E>, r: E)
    requires ValidScheme(s) && ValidSystem(s, q) && TriangularSystem(s, q)
    requires |x| == s.XBytes() && |y| == s.YBytes() && |x0| == s.p.n && |u0| == |u1| == s.p.eta
    ensures RecomputedAlpha0(s, com, q, y, r, Line(s.f.ext, x0, Lift(s.f, x, s.p.n), r),
                             Line(s.f.ext, u0, u1, r), Alpha1(s, com, q, x, x0, u1))
         == VecAdd(s.f.ext, Alpha0(s, com, q, x0, u0),
                   Scale(s.f.ext, s.f.ext.Mul(r, r), Batch(s, Gamma(s, com), EmbedAll(s.f, Residual(s, q, x, y)))))
  {
    hide FieldLaws;
    hide Char2Ring;
    hide Batch;
    hide Gamma;
    hide Pz0;
    hide Pz1;
    hide PzEval;
    hide Residual;
    ExtIsRing(s.f);
    var R, rr, res := s.f.ext, s.f.ext.Mul(r, r), EmbedAll(s.f, Residual(s, q, x, y));
    var z0, z1, g := Pz0(s, q, x0), Pz1(s, q, x, x0), Gamma(s, com);
    PzEvalLine(s, q, x, y, x0, r);
    BatchLine(s, g, Line(R, z0, z1, r), res, rr);
    BatchLine(s, g, z0, z1, r);
    var b0, b1, d := Batch(s, g, z0), Batch(s, g, z1), Batch(s, g, res);
    forall i | 0 <= i < s.p.eta
      ensures R.Add(R.Add(R.Add(R.Add(b0[i], R.Mul(r, b1[i])), R.Mul(rr, d[i])), R.Add(u0[i], R.Mul(r, u1[i]))), R.Mul(r, R.Add(b1[i], u1[i])))
           == R.Add(R.Add(b0[i], u0[i]), R.Mul(rr, d[i]))
    {
      SlopesCancel(R, b0[i], b1[i], u0[i], u1[i], r);
      MoveLast(R, R.Add(b0[i], R.Mul(r, b1[i])), R.Mul(rr, d[i]), R.Add(u0[i], R.Mul(r, u1[i])), R.Mul(r, R.Add(b1[i], u1[i])));
    }
  }

  /** (a + d) + b + c = (a + b + c) + d. */
  lemma MoveLast<T(!new)>(R: Ring<T>, a: T, d: T, b: T, c: T)
    requires Char2Ring(R)
    ensures R.Add(R.Add(R.Add(a, d), b), c) == R.Add(R.Add(R.Add(a, b), c), d)
  {
    AddAssoc(R, a, d, b);
    AddComm(R, d, b);
    AddAssoc(R, a, b, d);
    AddAssoc(R, R.Add(a, b), d, c);
    AddComm(R, d, c);
    AddAssoc(R, R.Add(a, b), c, d);
  }

  /** It is the signer's exactly if that difference is zero. */
  lemma AlphaAgreesIff<B(!new), E(!new)>(s: Scheme<B, E>, com: Bytes, q: System, x: Bytes, y: Bytes, x0: seq<E>, u0: seq<E>, u1: seq<E>, r: E)
    requires ValidScheme(s) && ValidSystem(s, q) && TriangularSystem(s, q)
    requires |x| == s.XBytes() && |y| == s.YBytes() && |x0| == s.p.n && |u0| == |u1| == s.p.eta
    ensures RecomputedAlpha0(s, com, q, y, r, Line(s.f.ext, x0, Lift(s.f, x, s.p.n), r),
                             Line(s.f.ext, u0, u1, r), Alpha1(s, com, q, x, x0, u1))
            == Alpha0(s, com, q, x0, u0)
       <==> Scale(s.f.ext, s.f.ext.Mul(r, r), Batch(s, Gamma(s, com), EmbedAll(s.f, Residual(s, q, x, y)))) == VecZero(s.f.ext, s.p.eta)
  {
    AlphaDifference(s, com, q, x, y, x0, u0, u1, r);
    hide FieldLaws;
    hide Char2Ring;
    hide Batch;
    hide Gamma;
    hide Alpha0;
    hide Alpha1;
    hide RecomputedAlpha0;
    hide Residual;
    ExtIsRing(s.f);
    var R, a := s.f.ext, Alpha0(s, com, q, x0, u0);
    var d := Scale(R, R.Mul(r, r), Batch(s, Gamma(s, com), EmbedAll(s.f, Residual(s, q, x, y))));
    VecNothingAdded(R, a, d);
  }

  lemma VecNothingAdded<T(!new)>(R: Ring<T>, a: seq<T>, d: seq<T>)
    requires Char2Ring(R) && |a| == |d|
    ensures VecAdd(R, a, d) == a <==> d == VecZero(R, |d|)
  {
    forall i | 0 <= i < |a| ensures VecAdd(R, a, d)[i] == a[i] <==> d[i] == R.zero {
      NothingAdded(R, a[i], d[i]);
    }
  }

  /** The verifier recomputes the signer's alpha0, with or without batching. */
  lemma AlphaAgrees<B(!new), E(!new)>(s: Scheme<B, E>, com: Bytes, q: System, x: Bytes, y: Bytes, x0: seq<E>, u0: seq<E>, u1: seq<E>, r: E)
    requires ValidScheme(s) && ValidSystem(s, q) && TriangularSystem(s, q)
    requires |x| == s.XBytes() && |y| == s.YBytes() && |x0| == s.p.n && |u0| == |u1| == s.p.eta
    requires Solves(s, q, x, y)
    ensures RecomputedAlpha0(s, com, q, y, r, Line(s.f.ext, x0, Lift(s.f, x, s.p.n), r),
                             Line(s.f.ext, u0, u1, r), Alpha1(s, com, q, x, x0, u1))
         == Alpha0(s, com, q, x0, u0)
  {
    AlphaAgreesIff(s, com, q, x, y, x0, u0, u1, r);
    ResidualOfSolution(s, q, x, y);
    ExtIsRing(s.f);
    hide FieldLaws;
    hide Char2Ring;
    hide Residual;
    hide Solves;
    hide Gamma;
    hide Alpha0;
    hide Alpha1;
    hide RecomputedAlpha0;
    BatchZeros(s, Gamma(s, com));
    ScaleZeros(s.f.ext, s.f.ext.Mul(r, r), s.p.eta);
  }

  lemma ScaleZeros<T(!new)>(R: Ring<T>, k: T, n: nat)
    requires Char2Ring(R)
    ensures Scale(R, k, VecZero(R, n)) == VecZero(R, n)
  {
    MulZero(R, k);
  }

  /** Nothing is batched to nothing. */
  lemma BatchZeros<B(!new), E(!new)>(s: Scheme<B, E>, gamma: seq<seq<E>>)
    requires ValidScheme(s)
    requires |gamma| == s.p.eta && forall i | 0 <= i < s.p.eta :: |gamma[i]| == s.p.m / s.p.mu
    ensures Batch(s, gamma, EmbedAll(s.f, VecZero(s.f.base, s.p.m))) == VecZero(s.f.ext, s.p.eta)
  {
    EmbedZero(s.f);
    ExtIsRing(s.f);
    hide FieldLaws;
    hide Char2Ring;
    var R, z, zero := s.f.ext, VecZero(s.f.ext, s.p.m), s.f.ext.zero;
    assert EmbedAll(s.f, VecZero(s.f.base, s.p.m)) == z;
    AddSelf(R, zero);
    MulZero(R, zero);
    // z = z + 1 z, so its batch is its own double
    MulOne(R, zero);
    assert Line(R, z, z, R.one) == z;
    BatchLine(s, gamma, z, z, R.one);
    hide Batch;
    var b := Batch(s, gamma, z);
    forall i | 0 <= i < s.p.eta ensures b[i] == zero {
      MulOne(R, b[i]);
      AddSelf(R, b[i]);
    }
  }

  /** (b0 + r b1) + (u0 + r u1) + r (b1 + u1) = b0 + u0. */
  lemma SlopesCancel<T(!new)>(R: Ring<T>, b0: T, b1: T, u0: T, u1: T, r: T)
    requires Char2Ring(R)
    ensures R.Add(R.Add(R.Add(b0, R.Mul(r, b1)), R.Add(u0, R.Mul(r, u1))), R.Mul(r, R.Add(b1, u1))) == R.Add(b0, u0)
  {
    AddSwap(R, b0, R.Mul(r, b1), u0, R.Mul(r, u1));
    Distribute(R, r, b1, u1);
    AddCancel(R, R.Add(b0, u0), R.Mul(r, R.Add(b1, u1)));
  }
}
