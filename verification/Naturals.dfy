/** Powers of two, halving, and division by a positive stride. */
module Naturals {
  function Pow2(k: nat): (p: nat)
    ensures p >= 1
  {
    if k == 0 then 1 else 2 * Pow2(k - 1)
  }

  /** x >> k. */
  function ShiftRight(x: nat, k: nat): nat {
    if k == 0 then x else ShiftRight(x / 2, k - 1)
  }

  lemma {:induction false} ShiftRightSucc(x: nat, k: nat)
    ensures ShiftRight(x, k + 1) == ShiftRight(x, k) / 2
  {
    if k > 0 {
      ShiftRightSucc(x / 2, k - 1);
    }
  }

  /** The quotient is the only q with q * d <= x < (q + 1) * d. */
  lemma QuotientUnique(x: nat, d: nat, q: nat)
    requires d > 0 && q * d <= x < q * d + d
    ensures x / d == q && x % d == x - q * d
  {
    var q' := x / d;
    assert x == q' * d + x % d;
    MulMono(q' + 1, q, d);
    MulMono(q + 1, q', d);
  }

  lemma {:induction false} MulMono(a: int, b: int, d: nat)
    ensures a <= b ==> a * d <= b * d
    decreases b - a
  {
    if a < b {
      MulMono(a, b - 1, d);
      assert b * d == (b - 1) * d + d;
    }
  }

  lemma DivMulBound(x: nat, d: nat)
    requires d > 0
    ensures (x / d) * d <= x < (x / d) * d + d
    ensures x - (x / d) * d == x % d
  {
  }

  function CeilDiv(x: nat, d: nat): nat
    requires d > 0
  {
    (x + d - 1) / d
  }

  /** Every index below x falls in one of the CeilDiv(x, d) strides. */
  lemma CeilDivCovers(x: nat, d: nat)
    requires d > 0
    ensures x <= CeilDiv(x, d) * d < x + d
  {
    DivMulBound(x + d - 1, d);
  }

  lemma CeilDivMono(a: nat, b: nat, d: nat)
    requires d > 0 && a <= b
    ensures CeilDiv(a, d) <= CeilDiv(b, d)
  {
    CeilDivCovers(a, d);
    CeilDivCovers(b, d);
    var m, n := CeilDiv(a, d), CeilDiv(b, d);
    hide CeilDiv;
    MulMono(n + 1, m, d);
    assert (n + 1) * d == n * d + d;
  }

  // ---- binary expansions, least significant bit first ----

  function NatOfBits(s: seq<bool>): nat {
    if |s| == 0 then 0 else (if s[0] then 1 else 0) + 2 * NatOfBits(s[1..])
  }

  /** The k low bits of n. */
  function BitsOfNat(n: nat, k: nat): (s: seq<bool>)
    ensures |s| == k
  {
    if k == 0 then [] else [n % 2 == 1] + BitsOfNat(n / 2, k - 1)
  }

  lemma ModDouble(n: nat, d: nat)
    requires d > 0
    ensures n % (2 * d) == n % 2 + 2 * (n / 2 % d)
  {
    var h := n / 2;
    DivMulBound(h, d);
    var q := h / d;
    assert q * (2 * d) == 2 * (q * d);
    assert n == 2 * h + n % 2;
    QuotientUnique(n, 2 * d, q);
  }

  lemma {:induction false} NatOfBitsOfNat(n: nat, k: nat)
    ensures NatOfBits(BitsOfNat(n, k)) == n % Pow2(k)
  {
    if k > 0 {
      NatOfBitsOfNat(n / 2, k - 1);
      ModDouble(n, Pow2(k - 1));
      assert BitsOfNat(n, k)[1..] == BitsOfNat(n / 2, k - 1);
    }
  }
}
