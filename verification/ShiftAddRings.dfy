/**
 * Shift-and-add multiplication in general: an additive shift and the bits of the factors
 * make a group of characteristic two a commutative ring.
 */
module ShiftAddRings {
  import opened Algebra

  /** t[0] + f(t[1] + f(t[2] + ...)). */
  function Horner<T>(R: Ring<T>, f: T -> T, t: seq<T>): T {
    if |t| == 0 then R.zero else R.Add(t[0], f(Horner(R, f, t[1..])))
  }

  /** Multiplication by bits: the Horner evaluation of x taken where a bit is set. */
  function ShiftAdd<T>(R: Ring<T>, f: T -> T, x: T, bits: seq<bool>): T {
    Horner(R, f, Selected(R, x, bits))
  }

  function Selected<T>(R: Ring<T>, x: T, bits: seq<bool>): (t: seq<T>)
    ensures |t| == |bits|
    ensures forall i | 0 <= i < |bits| :: t[i] == if bits[i] then x else R.zero
  {
    seq(|bits|, i requires 0 <= i < |bits| => if bits[i] then x else R.zero)
  }

  lemma {:induction false} HornerAdd<T(!new)>(R: Ring<T>, f: T -> T, a: seq<T>, b: seq<T>, c: seq<T>)
    requires Char2Group(R) && Additive(R, R, f)
    requires |a| == |b| == |c|
    requires forall i | 0 <= i < |a| :: c[i] == R.Add(a[i], b[i])
    ensures Horner(R, f, c) == R.Add(Horner(R, f, a), Horner(R, f, b))
  {
    if |a| == 0 {
      AddSelf(R, R.zero);
    } else {
      HornerAdd(R, f, a[1..], b[1..], c[1..]);
      var ha, hb := Horner(R, f, a[1..]), Horner(R, f, b[1..]);
      assert AdditiveAt(R, R, f, ha, hb);
      AddSwap(R, a[0], b[0], f(ha), f(hb));
    }
  }

  /** An additive map that commutes with the shift can be applied term by term. */
  lemma {:induction false} HornerMap<T(!new)>(R: Ring<T>, f: T -> T, g: T -> T, a: seq<T>, c: seq<T>)
    requires Char2Group(R) && Additive(R, R, f) && Additive(R, R, g)
    requires forall x: T {:trigger g(f(x))} :: g(f(x)) == f(g(x))
    requires |a| == |c|
    requires forall i | 0 <= i < |a| :: c[i] == g(a[i])
    ensures Horner(R, f, c) == g(Horner(R, f, a))
  {
    if |a| == 0 {
      AdditiveZero(R, R, g);
    } else {
      HornerMap(R, f, g, a[1..], c[1..]);
      var h := Horner(R, f, a[1..]);
      assert AdditiveAt(R, R, g, a[0], f(h));
      assert g(f(h)) == f(g(h));
    }
  }

  lemma ShiftAddLeft<T(!new)>(R: Ring<T>, f: T -> T, x: T, x': T, bits: seq<bool>)
    requires Char2Group(R) && Additive(R, R, f)
    ensures ShiftAdd(R, f, R.Add(x, x'), bits) == R.Add(ShiftAdd(R, f, x, bits), ShiftAdd(R, f, x', bits))
  {
    AddSelf(R, R.zero);
    HornerAdd(R, f, Selected(R, x, bits), Selected(R, x', bits), Selected(R, R.Add(x, x'), bits));
  }

  lemma ShiftAddShift<T(!new)>(R: Ring<T>, f: T -> T, x: T, bits: seq<bool>)
    requires Char2Group(R) && Additive(R, R, f)
    ensures ShiftAdd(R, f, f(x), bits) == f(ShiftAdd(R, f, x, bits))
  {
    AdditiveZero(R, R, f);
    HornerMap(R, f, f, Selected(R, x, bits), Selected(R, f(x), bits));
  }

  /** x * (y * z) rearranged: multiplying a shift-and-add product by further bits. */
  lemma ShiftAddTwice<T(!new)>(R: Ring<T>, f: T -> T, x: T, ys: seq<bool>, zs: seq<bool>)
    requires Char2Group(R) && Additive(R, R, f)
    ensures ShiftAdd(R, f, ShiftAdd(R, f, x, zs), ys) == ShiftAdd(R, f, ShiftAdd(R, f, x, ys), zs)
  {
    var g := (t: T) => ShiftAdd(R, f, t, ys);
    forall a: T, b: T ensures AdditiveAt(R, R, g, a, b) {
      ShiftAddLeft(R, f, a, b, ys);
    }
    forall a: T ensures g(f(a)) == f(g(a)) {
      ShiftAddShift(R, f, a, ys);
    }
    AdditiveZero(R, R, g);
    HornerMap(R, f, g, Selected(R, x, zs), Selected(R, g(x), zs));
  }

  // ---- the ring it makes ----

  /** Products are formed by shifting and adding along the bits of the second factor. */
  ghost predicate ProductLaw<T>(R: Ring<T>, f: T -> T, bits: T -> seq<bool>, x: T, y: T) {
    R.Mul(x, y) == ShiftAdd(R, f, x, bits(y))
  }

  /** The bits of an element, taken from one, give the element. */
  ghost predicate OneLaw<T>(R: Ring<T>, f: T -> T, bits: T -> seq<bool>, y: T) {
    ShiftAdd(R, f, R.one, bits(y)) == y
  }

  ghost predicate ShiftAddLaws<T(!new)>(R: Ring<T>, f: T -> T, bits: T -> seq<bool>) {
    && Char2Group(R) && Additive(R, R, f)
    && (forall x: T, y: T :: ProductLaw(R, f, bits, x, y))
    && (forall y: T :: OneLaw(R, f, bits, y))
  }

  lemma ProductTwice<T(!new)>(R: Ring<T>, f: T -> T, bits: T -> seq<bool>, x: T, y: T, z: T)
    requires ShiftAddLaws(R, f, bits)
    ensures R.Mul(R.Mul(x, y), z) == R.Mul(R.Mul(x, z), y)
  {
    assert ProductLaw(R, f, bits, x, y) && ProductLaw(R, f, bits, x, z);
    assert ProductLaw(R, f, bits, R.Mul(x, y), z) && ProductLaw(R, f, bits, R.Mul(x, z), y);
    ShiftAddTwice(R, f, x, bits(z), bits(y));
  }

  lemma ProductOne<T(!new)>(R: Ring<T>, f: T -> T, bits: T -> seq<bool>, y: T)
    requires ShiftAddLaws(R, f, bits)
    ensures R.Mul(R.one, y) == y
  {
    assert ProductLaw(R, f, bits, R.one, y) && OneLaw(R, f, bits, y);
  }

  /** x y = (1 x) y = (1 y) x. */
  lemma ProductComm<T(!new)>(R: Ring<T>, f: T -> T, bits: T -> seq<bool>, x: T, y: T)
    requires ShiftAddLaws(R, f, bits)
    ensures R.Mul(x, y) == R.Mul(y, x)
  {
    ProductOne(R, f, bits, x);
    ProductOne(R, f, bits, y);
    ProductTwice(R, f, bits, R.one, x, y);
  }

  lemma ProductDistributes<T(!new)>(R: Ring<T>, f: T -> T, bits: T -> seq<bool>, x: T, y: T, z: T)
    requires ShiftAddLaws(R, f, bits)
    ensures R.Mul(x, R.Add(y, z)) == R.Add(R.Mul(x, y), R.Mul(x, z))
  {
    assert ProductLaw(R, f, bits, y, x) && ProductLaw(R, f, bits, z, x) && ProductLaw(R, f, bits, R.Add(y, z), x);
    ShiftAddLeft(R, f, y, z, bits(x));
    ProductComm(R, f, bits, x, y);
    ProductComm(R, f, bits, x, z);
    ProductComm(R, f, bits, x, R.Add(y, z));
  }

  lemma ShiftAddIsRing<T(!new)>(R: Ring<T>, f: T -> T, bits: T -> seq<bool>)
    requires ShiftAddLaws(R, f, bits)
    ensures Char2Ring(R)
  {
    forall x: T, y: T, z: T ensures ProductLaws(R, x, y, z) {
      hide ShiftAddLaws;
      ProductComm(R, f, bits, x, y);
      ProductTwice(R, f, bits, y, x, z);
      ProductComm(R, f, bits, R.Mul(y, z), x);
      ProductOne(R, f, bits, x);
      ProductComm(R, f, bits, x, R.one);
      ProductDistributes(R, f, bits, x, y, z);
    }
  }
}
