/**
 * The order in which VOLE keys are visited: chunk numbers in Gray code, positions within a
 * chunk unchanged. Indices below 2^k are their k bits, lowest first.
 */
module KeyIndexPermutation {
  import opened Naturals
  import opened BitPolynomials

  function Get(s: Poly, k: nat): bool {
    k < |s| && s[k]
  }

  /** s >> k. */
  function ShiftDown(s: Poly, k: nat): (r: Poly)
    ensures |r| == |s|
  {
    seq(|s|, i requires 0 <= i < |s| => Get(s, i + k))
  }

  /** The bits from `shift` on: & -(1 << shift). */
  function HighBits(s: Poly, shift: nat): (r: Poly)
    ensures |r| == |s|
  {
    seq(|s|, i requires 0 <= i < |s| => i >= shift && s[i])
  }

  /** i ^ ((i >> 1) & -VOLE_WIDTH). */
  function Permute(s: Poly, shift: nat): (r: Poly)
    ensures |r| == |s|
  {
    Plus(s, HighBits(ShiftDown(s, 1), shift))
  }

  /** The exclusive-or of the bits in [a, b). */
  function XorRange(s: Poly, a: nat, b: nat): bool
    decreases b
  {
    if b <= a then false else XorRange(s, a, b - 1) != Get(s, b - 1)
  }

  /** Undoing the Gray code: a bit of the chunk number is the exclusive-or of all bits from it on. */
  function Inverse(s: Poly, shift: nat): (r: Poly)
    ensures |r| == |s|
  {
    seq(|s|, k requires 0 <= k < |s| => if k >= shift then XorRange(s, k, |s|) else s[k])
  }

  lemma {:induction false} XorRangeSplit(s: Poly, a: nat, m: nat, b: nat)
    requires a <= m <= b
    ensures XorRange(s, a, b) == (XorRange(s, a, m) != XorRange(s, m, b))
    decreases b
  {
    if m < b {
      XorRangeSplit(s, a, m, b - 1);
    }
  }

  /** Bits past the end do not count. */
  lemma {:induction false} XorRangePastEnd(s: Poly, a: nat, b: nat)
    requires |s| <= b
    ensures XorRange(s, a, b) == XorRange(s, a, |s|)
    decreases b
  {
    if |s| < b {
      XorRangePastEnd(s, a, b - 1);
      if b <= a {
        NothingPastEnd(s, a, |s|);
      }
    }
  }

  lemma NothingPastEnd(s: Poly, a: nat, b: nat)
    requires b <= a
    ensures !XorRange(s, a, b)
  {
  }

  lemma RangesDouble(i: Poly, j: Poly, s: nat)
    requires s >= 1 && |j| == |i| && forall k | 0 <= k < |i| :: j[k] == XorRange(i, k, k + s)
    ensures forall k | 0 <= k < |i| :: Plus(j, ShiftDown(j, s))[k] == XorRange(i, k, k + 2 * s)
  {
    hide XorRange;
    forall k | 0 <= k < |i| ensures Plus(j, ShiftDown(j, s))[k] == XorRange(i, k, k + 2 * s) {
      XorRangeSplit(i, k, k + s, k + 2 * s);
      assert Plus(j, ShiftDown(j, s))[k] == (j[k] != Get(j, k + s));
      assert j[k] == XorRange(i, k, k + s);
      if k + s >= |i| {
        XorRangePastEnd(i, k + s, k + 2 * s);
        NothingPastEnd(i, k + s, |i|);
      } else {
        assert j[k + s] == XorRange(i, k + s, k + s + s);
        assert k + s + s == k + 2 * s;
      }
    }
  }

  /** The loop: every pass doubles the number of bits that have been added up. */
  method ComputeInverse(i: Poly, shift: nat) returns (r: Poly)
    requires shift <= |i|
    ensures r == Inverse(i, shift)
  {
    var j := i;
    var s := 1;
    while s < |i| - shift
      invariant s >= 1 && |j| == |i|
      invariant forall k | 0 <= k < |i| :: j[k] == XorRange(i, k, k + s)
    {
      RangesDouble(i, j, s);
      j := Plus(j, ShiftDown(j, s));
      s := 2 * s;
    }
    forall k | shift <= k < |i| ensures j[k] == XorRange(i, k, |i|) {
      XorRangePastEnd(i, k, k + s);
    }
    hide XorRange;
    r := seq(|i|, k requires 0 <= k < |i| => if k >= shift then j[k] else i[k]);
  }

  // ---- a permutation, linear in both directions ----

  lemma {:induction false} XorRangeTelescopes(s: Poly, shift: nat, a: nat, b: nat)
    requires shift <= a <= b <= |s|
    ensures XorRange(Permute(s, shift), a, b) == (Get(s, a) != Get(s, b))
    decreases b
  {
    if a < b {
      XorRangeTelescopes(s, shift, a, b - 1);
    }
  }

  /** The inverse undoes the permutation on every index. */
  lemma InversePermutes(s: Poly, shift: nat)
    ensures Inverse(Permute(s, shift), shift) == s
  {
    forall k | 0 <= k < |s| ensures Inverse(Permute(s, shift), shift)[k] == s[k] {
      if k >= shift {
        XorRangeTelescopes(s, shift, k, |s|);
      }
    }
  }

  /** And the permutation undoes the inverse. */
  lemma PermuteInverse(s: Poly, shift: nat)
    ensures Permute(Inverse(s, shift), shift) == s
  {
    var j := Inverse(s, shift);
    forall k | 0 <= k < |s| ensures Permute(j, shift)[k] == s[k] {
      if k >= shift {
        XorRangeSplit(s, k, k + 1, |s|);
        XorRangeOne(s, k);
        NothingPastEnd(s, |s|, |s|);
        assert Get(j, k + 1) == XorRange(s, k + 1, |s|);
      }
    }
  }

  lemma XorRangeOne(s: Poly, k: nat)
    ensures XorRange(s, k, k + 1) == Get(s, k)
  {
    NothingPastEnd(s, k, k);
  }

  lemma {:induction false} XorRangePlus(a: Poly, b: Poly, lo: nat, hi: nat)
    requires |a| == |b|
    ensures XorRange(Plus(a, b), lo, hi) == (XorRange(a, lo, hi) != XorRange(b, lo, hi))
    decreases hi
  {
    if lo < hi {
      XorRangePlus(a, b, lo, hi - 1);
    }
  }

  /** The inverse is linear over exclusive-or. */
  lemma InversePlus(a: Poly, b: Poly, shift: nat)
    requires |a| == |b|
    ensures Inverse(Plus(a, b), shift) == Plus(Inverse(a, shift), Inverse(b, shift))
  {
    forall k | 0 <= k < |a| ensures Inverse(Plus(a, b), shift)[k] == Plus(Inverse(a, shift), Inverse(b, shift))[k] {
      XorRangePlus(a, b, k, |a|);
    }
  }

  // ---- the increment ----

  /** Adding 2^at by rippling the carry; a carry out of the top is dropped. */
  function AddPow2(s: Poly, at: nat): (r: Poly)
    ensures |r| == |s|
  {
    if |s| == 0 then []
    else if at > 0 then [s[0]] + AddPow2(s[1..], at - 1)
    else if s[0] then [false] + AddPow2(s[1..], 0)
    else [true] + s[1..]
  }

  /** Rippling the carry is addition. */
  lemma {:induction false} AddPow2IsAddition(i: nat, at: nat, k: nat)
    ensures BitsOfNat(i + Pow2(at), k) == AddPow2(BitsOfNat(i, k), at)
  {
    if k > 0 {
      var s := BitsOfNat(i, k);
      assert s[1..] == BitsOfNat(i / 2, k - 1);
      if at > 0 {
        AddPow2IsAddition(i / 2, at - 1, k - 1);
        HalfOfSum(i, Pow2(at - 1));
      } else if i % 2 == 1 {
        AddPow2IsAddition(i / 2, 0, k - 1);
      }
    }
  }

  lemma HalfOfSum(i: nat, p: nat)
    ensures (i + 2 * p) / 2 == i / 2 + p && (i + 2 * p) % 2 == i % 2
  {
  }

  /** Where the carry stops: the first clear bit from `at` on. */
  function CarryEnd(s: Poly, at: nat): (b: nat)
    requires at <= |s|
    ensures at <= b <= |s|
    decreases |s| - at
  {
    if at < |s| && s[at] then CarryEnd(s, at + 1) else at
  }

  lemma {:induction false} CarryEndTail(s: Poly, at: nat)
    requires |s| > 0 && 1 <= at <= |s|
    ensures CarryEnd(s, at) == CarryEnd(s[1..], at - 1) + 1
    decreases |s| - at
  {
    if at < |s| && s[at] {
      CarryEndTail(s, at + 1);
    }
  }

  function Run(k: nat, a: nat, b: nat): (r: Poly)
    ensures |r| == k
  {
    seq(k, i requires 0 <= i < k => a <= i <= b)
  }

  /** An addition flips the bits from `at` to where the carry stops. */
  lemma {:induction false} AdditionFlips(s: Poly, at: nat)
    requires at <= |s|
    ensures Plus(s, AddPow2(s, at)) == Run(|s|, at, CarryEnd(s, at))
  {
    if |s| > 0 && (at > 0 || s[0]) {
      var rest := if at > 0 then at - 1 else 0;
      AdditionFlips(s[1..], rest);
      CarryEndTail(s, rest + 1);
      var p, t := Plus(s, AddPow2(s, at)), Plus(s[1..], AddPow2(s[1..], rest));
      assert p[1..] == t;
      forall i | 0 <= i < |s| ensures p[i] == Run(|s|, at, CarryEnd(s, at))[i] {
        if i > 0 {
          assert p[i] == t[i - 1];
        }
      }
    }
  }

  lemma {:induction false} NatOfBitsAtLeast(s: Poly, b: nat)
    requires b < |s| && s[b]
    ensures NatOfBits(s) >= Pow2(b)
  {
    if b > 0 {
      NatOfBitsAtLeast(s[1..], b - 1);
    }
  }

  lemma {:induction false} NatOfBitsBelow(s: Poly, b: nat)
    requires ZeroFrom(s, b)
    ensures NatOfBits(s) < Pow2(b)
  {
    if |s| > 0 {
      if b > 0 {
        NatOfBitsBelow(s[1..], b - 1);
      } else {
        NatOfBitsBelow(s[1..], 0);
      }
    }
  }

  /** Without overflow the carry stops inside. */
  lemma {:induction false} CarryStops(s: Poly, at: nat)
    requires at < |s| && NatOfBits(s) + Pow2(at) < Pow2(|s|)
    ensures CarryEnd(s, at) < |s|
  {
    if at > 0 {
      CarryStops(s[1..], at - 1);
      CarryEndTail(s, at);
    } else if s[0] {
      if |s| > 1 {
        CarryStops(s[1..], 0);
      }
      CarryEndTail(s, 1);
    }
  }

  /** The bits of a difference that lie in the low part or have the given parity. */
  function OfParity(s: Poly, shift: nat, odd: bool): (r: Poly)
    ensures |r| == |s|
  {
    seq(|s|, i requires 0 <= i < |s| => s[i] && ((i % 2 == 1) == odd || i < shift))
  }

  /** The larger of the two masked differences. */
  function Increment(diff: Poly, shift: nat): (r: Poly)
    ensures |r| == |diff|
  {
    var (even, odd) := (OfParity(diff, shift, false), OfParity(diff, shift, true));
    if NatOfBits(odd) > NatOfBits(even) then odd else even
  }

  /** The exclusive-or of a run of ones from k on: whether its length is odd. */
  lemma {:induction false} XorRangeOfRun(n: nat, a: nat, b: nat, k: nat, e: nat)
    requires a <= k && b < n && k <= e <= n
    ensures XorRange(Run(n, a, b), k, e) == if k > b then false else if e > b then (b - k) % 2 == 0 else (e - k) % 2 == 1
    decreases e
  {
    if k < e {
      XorRangeOfRun(n, a, b, k, e - 1);
    }
  }

  /** Unpermuting a run of ones keeps its low part and every other bit above. */
  lemma InverseOfRun(n: nat, shift: nat, a: nat, b: nat)
    requires a <= shift <= n && a <= b < n
    ensures Inverse(Run(n, a, b), shift) == OfParity(Run(n, a, b), shift, b % 2 == 1)
  {
    forall k | shift <= k < n ensures XorRange(Run(n, a, b), k, n) == (k <= b && (k % 2 == 1) == (b % 2 == 1)) {
      XorRangeOfRun(n, a, b, k, n);
      if k <= b {
        SameParity(k, b);
      }
    }
  }

  lemma SameParity(k: nat, b: nat)
    requires k <= b
    ensures (b - k) % 2 == 0 <==> k % 2 == b % 2
  {
  }

  /** The larger masked run is the one that keeps its top bit. */
  lemma IncrementOfRun(n: nat, shift: nat, a: nat, b: nat)
    requires a <= shift <= n && a <= b < n
    ensures Increment(Run(n, a, b), shift) == OfParity(Run(n, a, b), shift, b % 2 == 1)
  {
    var diff := Run(n, a, b);
    var kept, lost := OfParity(diff, shift, b % 2 == 1), OfParity(diff, shift, b % 2 == 0);
    if b >= shift {
      NatOfBitsAtLeast(kept, b);
      NatOfBitsBelow(lost, b);
    } else {
      assert kept == lost;
    }
  }

  /**
   * The fast increment: for an offset that is a power of two and at most the width of a chunk,
   * it is the change of the unpermuted index.
   */
  lemma FastIncrement(i: nat, at: nat, shift: nat, k: nat)
    requires at <= shift <= k && at < k && i + Pow2(at) < Pow2(k)
    ensures Increment(Plus(BitsOfNat(i, k), BitsOfNat(i + Pow2(at), k)), shift)
         == Plus(Inverse(BitsOfNat(i, k), shift), Inverse(BitsOfNat(i + Pow2(at), k), shift))
  {
    hide BitsOfNat;
    hide Increment;
    hide Inverse;
    var s, t := BitsOfNat(i, k), BitsOfNat(i + Pow2(at), k);
    NatOfBitsOfNat(i, k);
    QuotientUnique(i, Pow2(k), 0);
    AddPow2IsAddition(i, at, k);
    AdditionFlips(s, at);
    CarryStops(s, at);
    var b := CarryEnd(s, at);
    InversePlus(s, t, shift);
    InverseOfRun(k, shift, at, b);
    IncrementOfRun(k, shift, at, b);
  }
}
