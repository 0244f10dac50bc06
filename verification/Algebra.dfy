/** Commutative rings of characteristic two, and the linear algebra done over them. */
module Algebra {
  /** A ring is given by its operations; the laws are stated by `Char2Ring`. */
  datatype Ring<!T> = Ring(zero: T, one: T, add: (T, T) -> T, mul: (T, T) -> T)
  {
    function Add(a: T, b: T): T { add(a, b) }

    function Mul(a: T, b: T): T { mul(a, b) }
  }

  ghost predicate GroupLaws<T>(R: Ring<T>, a: T, b: T, c: T) {
    && R.Add(a, b) == R.Add(b, a)
    && R.Add(R.Add(a, b), c) == R.Add(a, R.Add(b, c))
    && R.Add(a, R.zero) == a
    && R.Add(a, a) == R.zero
  }

  ghost predicate ProductLaws<T>(R: Ring<T>, a: T, b: T, c: T) {
    && R.Mul(a, b) == R.Mul(b, a)
    && R.Mul(R.Mul(a, b), c) == R.Mul(a, R.Mul(b, c))
    && R.Mul(a, R.one) == a
    && R.Mul(a, R.Add(b, c)) == R.Add(R.Mul(a, b), R.Mul(a, c))
  }

  /** Addition is commutative and associative, and every element is its own inverse. */
  ghost predicate Char2Group<T(!new)>(R: Ring<T>) {
    forall a: T, b: T, c: T :: GroupLaws(R, a, b, c)
  }

  ghost predicate Char2Ring<T(!new)>(R: Ring<T>) {
    && Char2Group(R)
    && forall a: T, b: T, c: T :: ProductLaws(R, a, b, c)
  }

  ghost predicate AdditiveAt<S, T>(R: Ring<S>, Q: Ring<T>, f: S -> T, a: S, b: S) {
    f(R.Add(a, b)) == Q.Add(f(a), f(b))
  }

  /** f respects addition. */
  ghost predicate Additive<S(!new), T>(R: Ring<S>, Q: Ring<T>, f: S -> T) {
    forall a: S, b: S :: AdditiveAt(R, Q, f, a, b)
  }

  lemma AddComm<T(!new)>(R: Ring<T>, a: T, b: T)
    requires Char2Group(R)
    ensures R.Add(a, b) == R.Add(b, a)
  {
    assert GroupLaws(R, a, b, b);
  }

  lemma AddAssoc<T(!new)>(R: Ring<T>, a: T, b: T, c: T)
    requires Char2Group(R)
    ensures R.Add(R.Add(a, b), c) == R.Add(a, R.Add(b, c))
  {
    assert GroupLaws(R, a, b, c);
  }

  lemma AddZero<T(!new)>(R: Ring<T>, a: T)
    requires Char2Group(R)
    ensures R.Add(a, R.zero) == a == R.Add(R.zero, a)
  {
    assert GroupLaws(R, a, R.zero, a);
  }

  lemma AddSelf<T(!new)>(R: Ring<T>, a: T)
    requires Char2Group(R)
    ensures R.Add(a, a) == R.zero
  {
    assert GroupLaws(R, a, a, a);
  }

  lemma AddCancel<T(!new)>(R: Ring<T>, a: T, b: T)
    requires Char2Group(R)
    ensures R.Add(R.Add(a, b), b) == a == R.Add(b, R.Add(b, a))
  {
    AddAssoc(R, a, b, b);
    AddSelf(R, b);
    AddZero(R, a);
    AddAssoc(R, b, b, a);
  }

  lemma NothingAdded<T(!new)>(R: Ring<T>, a: T, b: T)
    requires Char2Group(R)
    ensures R.Add(a, b) == a <==> b == R.zero
  {
    AddCancel(R, b, a);
    AddSelf(R, a);
    AddZero(R, a);
  }

  lemma AddSwap<T(!new)>(R: Ring<T>, a: T, b: T, c: T, d: T)
    requires Char2Group(R)
    ensures R.Add(R.Add(a, b), R.Add(c, d)) == R.Add(R.Add(a, c), R.Add(b, d))
  {
    AddAssoc(R, a, b, R.Add(c, d));
    AddAssoc(R, b, c, d);
    AddComm(R, b, c);
    AddAssoc(R, c, b, d);
    AddAssoc(R, a, c, R.Add(b, d));
  }

  lemma MulComm<T(!new)>(R: Ring<T>, a: T, b: T)
    requires Char2Ring(R)
    ensures R.Mul(a, b) == R.Mul(b, a)
  {
    assert ProductLaws(R, a, b, b);
  }

  lemma MulAssoc<T(!new)>(R: Ring<T>, a: T, b: T, c: T)
    requires Char2Ring(R)
    ensures R.Mul(R.Mul(a, b), c) == R.Mul(a, R.Mul(b, c))
  {
    assert ProductLaws(R, a, b, c);
  }

  lemma MulOne<T(!new)>(R: Ring<T>, a: T)
    requires Char2Ring(R)
    ensures R.Mul(a, R.one) == a == R.Mul(R.one, a)
  {
    assert ProductLaws(R, a, R.one, a);
  }

  lemma Distribute<T(!new)>(R: Ring<T>, a: T, b: T, c: T)
    requires Char2Ring(R)
    ensures R.Mul(a, R.Add(b, c)) == R.Add(R.Mul(a, b), R.Mul(a, c))
    ensures R.Mul(R.Add(b, c), a) == R.Add(R.Mul(b, a), R.Mul(c, a))
  {
    assert ProductLaws(R, a, b, c);
    MulComm(R, a, R.Add(b, c));
    MulComm(R, a, b);
    MulComm(R, a, c);
  }

  lemma MulZero<T(!new)>(R: Ring<T>, a: T)
    requires Char2Ring(R)
    ensures R.Mul(a, R.zero) == R.zero == R.Mul(R.zero, a)
  {
    AddSelf(R, R.zero);
    Distribute(R, a, R.zero, R.zero);
    AddSelf(R, R.Mul(a, R.zero));
    MulComm(R, a, R.zero);
  }

  lemma AdditiveZero<S(!new), T(!new)>(R: Ring<S>, Q: Ring<T>, f: S -> T)
    requires Char2Group(R) && Char2Group(Q) && Additive(R, Q, f)
    ensures f(R.zero) == Q.zero
  {
    AddSelf(R, R.zero);
    assert AdditiveAt(R, Q, f, R.zero, R.zero);
    AddSelf(Q, f(R.zero));
  }

  // ---- powers ----

  function Power<T>(R: Ring<T>, a: T, k: nat): T {
    if k == 0 then R.one else R.Mul(a, Power(R, a, k - 1))
  }

  lemma {:induction false} PowerAdd<T(!new)>(R: Ring<T>, a: T, j: nat, k: nat)
    requires Char2Ring(R)
    ensures Power(R, a, j + k) == R.Mul(Power(R, a, j), Power(R, a, k))
  {
    if j == 0 {
      MulOne(R, Power(R, a, k));
    } else {
      PowerAdd(R, a, j - 1, k);
      MulAssoc(R, a, Power(R, a, j - 1), Power(R, a, k));
    }
  }

  // ---- vectors ----

  function VecZero<T>(R: Ring<T>, n: nat): (v: seq<T>)
    ensures |v| == n && forall i | 0 <= i < n :: v[i] == R.zero
  {
    seq(n, i => R.zero)
  }

  function VecAdd<T>(R: Ring<T>, a: seq<T>, b: seq<T>): (c: seq<T>)
    requires |a| == |b|
    ensures |c| == |a| && forall i | 0 <= i < |a| :: c[i] == R.Add(a[i], b[i])
  {
    seq(|a|, i requires 0 <= i < |a| => R.Add(a[i], b[i]))
  }

  function Scale<T>(R: Ring<T>, k: T, a: seq<T>): (c: seq<T>)
    ensures |c| == |a| && forall i | 0 <= i < |a| :: c[i] == R.Mul(k, a[i])
  {
    seq(|a|, i requires 0 <= i < |a| => R.Mul(k, a[i]))
  }

  /** Inner product of the first n coordinates. */
  function Dot<T>(R: Ring<T>, a: seq<T>, b: seq<T>, n: nat): T
    requires n <= |a| && n <= |b|
  {
    if n == 0 then R.zero else R.Add(Dot(R, a, b, n - 1), R.Mul(a[n - 1], b[n - 1]))
  }

  lemma {:induction false} DotComm<T(!new)>(R: Ring<T>, a: seq<T>, b: seq<T>, n: nat)
    requires Char2Ring(R) && n <= |a| && n <= |b|
    ensures Dot(R, a, b, n) == Dot(R, b, a, n)
  {
    if n > 0 {
      DotComm(R, a, b, n - 1);
      MulComm(R, a[n - 1], b[n - 1]);
    }
  }

  lemma {:induction false} DotAdd<T(!new)>(R: Ring<T>, a: seq<T>, b: seq<T>, v: seq<T>, n: nat)
    requires Char2Ring(R) && n <= |a| == |b| && n <= |v|
    ensures Dot(R, VecAdd(R, a, b), v, n) == R.Add(Dot(R, a, v, n), Dot(R, b, v, n))
  {
    if n == 0 {
      AddSelf(R, R.zero);
    } else {
      DotAdd(R, a, b, v, n - 1);
      Distribute(R, v[n - 1], a[n - 1], b[n - 1]);
      AddSwap(R, Dot(R, a, v, n - 1), Dot(R, b, v, n - 1), R.Mul(a[n - 1], v[n - 1]), R.Mul(b[n - 1], v[n - 1]));
    }
  }

  lemma {:induction false} DotScale<T(!new)>(R: Ring<T>, k: T, a: seq<T>, v: seq<T>, n: nat)
    requires Char2Ring(R) && n <= |a| && n <= |v|
    ensures Dot(R, Scale(R, k, a), v, n) == R.Mul(k, Dot(R, a, v, n))
  {
    if n == 0 {
      MulZero(R, k);
    } else {
      DotScale(R, k, a, v, n - 1);
      MulAssoc(R, k, a[n - 1], v[n - 1]);
      Distribute(R, k, Dot(R, a, v, n - 1), R.Mul(a[n - 1], v[n - 1]));
    }
  }

  /** Coordinates past `m` that are zero on the left do not count. */
  lemma {:induction false} DotZeroTail<T(!new)>(R: Ring<T>, a: seq<T>, v: seq<T>, m: nat, n: nat)
    requires Char2Ring(R) && m <= n <= |a| && n <= |v|
    requires forall i | m <= i < n :: a[i] == R.zero
    ensures Dot(R, a, v, n) == Dot(R, a, v, m)
  {
    if m < n {
      DotZeroTail(R, a, v, m, n - 1);
      MulZero(R, v[n - 1]);
      AddZero(R, Dot(R, a, v, n - 1));
    }
  }

  lemma VecAddAssoc<T(!new)>(R: Ring<T>, a: seq<T>, b: seq<T>, c: seq<T>)
    requires Char2Group(R) && |a| == |b| == |c|
    ensures VecAdd(R, VecAdd(R, a, b), c) == VecAdd(R, a, VecAdd(R, b, c))
  {
    forall i | 0 <= i < |a| ensures VecAdd(R, VecAdd(R, a, b), c)[i] == VecAdd(R, a, VecAdd(R, b, c))[i] {
      AddAssoc(R, a[i], b[i], c[i]);
    }
  }

  lemma VecAddZero<T(!new)>(R: Ring<T>, a: seq<T>)
    requires Char2Group(R)
    ensures VecAdd(R, a, VecZero(R, |a|)) == a
  {
    forall i | 0 <= i < |a| ensures VecAdd(R, a, VecZero(R, |a|))[i] == a[i] {
      AddZero(R, a[i]);
    }
  }

  // ---- points on a line ----

  /** (a + w b) + r (c + b) = (a + r c) + (r + w) b: adding b to the slope and w b to the offset. */
  lemma LineStep<T(!new)>(R: Ring<T>, a: T, c: T, b: T, w: T, r: T)
    requires Char2Ring(R)
    ensures R.Add(R.Add(a, R.Mul(w, b)), R.Mul(r, R.Add(c, b)))
         == R.Add(R.Add(a, R.Mul(r, c)), R.Mul(R.Add(r, w), b))
  {
    Distribute(R, r, c, b);
    AddSwap(R, a, R.Mul(w, b), R.Mul(r, c), R.Mul(r, b));
    Distribute(R, b, r, w);
    AddComm(R, R.Mul(w, b), R.Mul(r, b));
  }

  /** The value at r of the line with offset a and slope c. */
  function Line<T>(R: Ring<T>, a: seq<T>, c: seq<T>, r: T): (v: seq<T>)
    requires |a| == |c|
    ensures |v| == |a|
  {
    VecAdd(R, a, Scale(R, r, c))
  }

  lemma LineExtend<T(!new)>(R: Ring<T>, a: seq<T>, c: seq<T>, b: seq<T>, w: T, r: T)
    requires Char2Ring(R) && |a| == |b| == |c|
    ensures Line(R, VecAdd(R, a, Scale(R, w, b)), VecAdd(R, c, b), r)
         == VecAdd(R, Line(R, a, c, r), Scale(R, R.Add(r, w), b))
  {
    forall i | 0 <= i < |a|
      ensures Line(R, VecAdd(R, a, Scale(R, w, b)), VecAdd(R, c, b), r)[i]
           == VecAdd(R, Line(R, a, c, r), Scale(R, R.Add(r, w), b))[i]
    {
      LineStep(R, a[i], c[i], b[i], w, r);
    }
  }

  /** At its own point the step does not move the line. */
  lemma LineHidden<T(!new)>(R: Ring<T>, a: seq<T>, c: seq<T>, b: seq<T>, r: T)
    requires Char2Ring(R) && |a| == |b| == |c|
    ensures Line(R, VecAdd(R, a, Scale(R, r, b)), VecAdd(R, c, b), r) == Line(R, a, c, r)
  {
    LineExtend(R, a, c, b, r, r);
    AddSelf(R, r);
    forall i | 0 <= i < |a| ensures VecAdd(R, Line(R, a, c, r), Scale(R, R.zero, b))[i] == Line(R, a, c, r)[i] {
      MulZero(R, b[i]);
      AddZero(R, Line(R, a, c, r)[i]);
    }
  }
}
