/** The opening challenge: sampled from a hash and the least nonce that passes the grinding test. */
module Challenge {
  import opened ByteStrings
  import opened Naturals
  import opened Common
  import opened Blc

  const WORD: nat := 0x1_0000_0000

  /** The four bytes of a 32-bit nonce, lowest first. */
  function NonceBytes(n: nat): (b: Bytes)
    ensures |b| == 4
  {
    [Truncate(n), Truncate(n / 0x100), Truncate(n / 0x1_0000), Truncate(n / 0x100_0000)]
  }

  /** The bytes drawn for a hash and a nonce: two per repetition, and two for grinding. */
  function Draw(p: Params, hash: Bytes, nonce: Bytes): (tmp: Bytes)
    ensures |tmp| == 2 * p.tau + 2
  {
    p.Squeeze([Truncate(5)] + hash + nonce, 0, 2 * p.tau + 2)
  }

  /** The little-endian 16-bit number at position i, and-ed with a mask of `bits` bits. */
  function Masked16(tmp: Bytes, i: nat, bits: nat): nat
    requires i + 1 < |tmp|
  {
    (tmp[i].ToNat() + 256 * tmp[i + 1].ToNat()) % Pow2(bits)
  }

  function IStar(p: Params, tmp: Bytes): (r: seq<nat>)
    requires |tmp| == 2 * p.tau + 2
    ensures ValidChallenge(p, r)
  {
    seq(p.tau, e requires 0 <= e < p.tau => Masked16(tmp, 2 * e, p.log))
  }

  function GrindingValue(p: Params, tmp: Bytes): nat
    requires |tmp| == 2 * p.tau + 2
  {
    Masked16(tmp, 2 * p.tau, p.w)
  }

  /** A 16-bit number drawn low byte first gives its low bits. */
  lemma DrawnNumber(tmp: Bytes, i: nat, bits: nat, x: nat)
    requires i + 1 < |tmp| && x < 65536 && tmp[i] == Truncate(x) && tmp[i + 1] == Truncate(x / 256)
    ensures Masked16(tmp, i, bits) == x % Pow2(bits)
  {
    TwoDigits(x);
    hide Truncate;
    hide Byte.ToNat;
    hide Pow2;
    assert tmp[i].ToNat() + 256 * tmp[i + 1].ToNat() == x;
  }

  lemma TwoDigits(x: nat)
    requires x < 65536
    ensures Truncate(x).ToNat() + 256 * Truncate(x / 256).ToNat() == x
  {
    hide Truncate;
    hide Byte.ToNat;
    TruncateToNat(x);
    TruncateToNat(x / 256);
  }

  /** The nonce can be read off its bytes, lowest first. */
  lemma NonceReadBack(n: nat)
    requires n < WORD
    ensures var b := NonceBytes(n);
            b[0].ToNat() + 0x100 * b[1].ToNat() + 0x1_0000 * b[2].ToNat() + 0x100_0000 * b[3].ToNat() == n
  {
    TruncateToNat(n);
    TruncateToNat(n / 0x100);
    TruncateToNat(n / 0x1_0000);
    TruncateToNat(n / 0x100_0000);
    hide Truncate;
    hide Byte.ToNat;
    FourDigits(n);
  }

  lemma FourDigits(n: nat)
    requires n < WORD
    ensures n % 256 + 0x100 * (n / 0x100 % 256) + 0x1_0000 * (n / 0x1_0000 % 256) + 0x100_0000 * (n / 0x100_0000 % 256) == n
  {
    var a, b, c := n / 0x100, n / 0x1_0000, n / 0x100_0000;
    assert a / 0x100 == b && b / 0x100 == c;
  }

  predicate Good(p: Params, hash: Bytes, n: nat) {
    GrindingValue(p, Draw(p, hash, NonceBytes(n))) == 0
  }

  /** Some 32-bit nonce passes; without one the search does not end. */
  ghost predicate Winnable(p: Params, hash: Bytes) {
    exists n: nat | n < WORD :: Good(p, hash, n)
  }

  ghost predicate IsLeastGood(p: Params, hash: Bytes, n: nat) {
    n < WORD && Good(p, hash, n) && forall k: nat | k < n :: !Good(p, hash, k)
  }

  lemma {:induction false} FindLeastGood(p: Params, hash: Bytes, n: nat) returns (least: nat)
    requires n < WORD && Good(p, hash, n)
    ensures IsLeastGood(p, hash, least)
    decreases n
  {
    hide Good;
    if k: nat :| k < n && Good(p, hash, k) {
      least := FindLeastGood(p, hash, k);
    } else {
      least := n;
    }
  }

  lemma LeastGoodExists(p: Params, hash: Bytes)
    requires Winnable(p, hash)
    ensures exists n: nat :: IsLeastGood(p, hash, n)
  {
    hide Good;
    var n: nat :| n < WORD && Good(p, hash, n);
    var least := FindLeastGood(p, hash, n);
  }

  /** The least nonce that passes. */
  ghost function LeastGood(p: Params, hash: Bytes): (n: nat)
    requires Winnable(p, hash)
    ensures IsLeastGood(p, hash, n)
  {
    hide Good;
    LeastGoodExists(p, hash);
    var n: nat :| IsLeastGood(p, hash, n);
    n
  }

  /** What signing draws: the least good nonce and the challenge it gives. */
  ghost function WinningNonce(p: Params, hash: Bytes): (b: Bytes)
    requires Winnable(p, hash)
    ensures |b| == 4 && GrindingValue(p, Draw(p, hash, b)) == 0
  {
    NonceBytes(LeastGood(p, hash))
  }

  ghost function WinningChallenge(p: Params, hash: Bytes): (r: seq<nat>)
    requires Winnable(p, hash)
    ensures ValidChallenge(p, r)
  {
    IStar(p, Draw(p, hash, WinningNonce(p, hash)))
  }

  // ---- reading a draw ----

  method ReadChallenge(p: Params, tmp: Bytes) returns (iStar: seq<nat>, val: nat)
    requires |tmp| == 2 * p.tau + 2
    ensures iStar == IStar(p, tmp) && val == GrindingValue(p, tmp)
  {
    hide Masked16;
    iStar := [];
    for e := 0 to p.tau
      invariant |iStar| == e && forall k | 0 <= k < e :: iStar[k] == Masked16(tmp, 2 * k, p.log)
    {
      iStar := iStar + [Masked16(tmp, 2 * e, p.log)];
    }
    val := Masked16(tmp, 2 * p.tau, p.w);
  }

  // ---- the two searches ----

  /** One nonce after the other. */
  method SampleSerial(p: Params, hash: Bytes) returns (iStar: seq<nat>, nonce: Bytes)
    requires Winnable(p, hash)
    ensures nonce == WinningNonce(p, hash) && iStar == WinningChallenge(p, hash)
  {
    hide Draw;
    hide GrindingValue;
    hide NonceBytes;
    hide IStar;
    ghost var least := LeastGood(p, hash);
    var nonceInt: nat := 0;
    var val: nat := 1;
    nonce, iStar := [], [];
    while val != 0
      invariant val != 0 ==> nonceInt <= least
      invariant val == 0 ==> nonce == NonceBytes(least) && iStar == IStar(p, Draw(p, hash, nonce))
      decreases if val == 0 then 0 else least - nonceInt + 1
    {
      nonce := NonceBytes(nonceInt);
      iStar, val := ReadChallenge(p, Draw(p, hash, nonce));
      assert val == 0 <==> Good(p, hash, nonceInt);
      nonceInt := (nonceInt + 1) % WORD;
    }
  }

  /** Lane i of four tries the nonces i, i + 4, i + 8, ... */
  ghost predicate Lanes(nonceInt: seq<nat>, base: nat, next: nat) {
    |nonceInt| == 4 && forall i | 0 <= i < 4 :: nonceInt[i] == if i < next then (base + i + 4) % WORD else base + i
  }

  /** No lane has wrapped around as long as a good nonce lies ahead. */
  lemma NextRound(nonceInt: seq<nat>, round: nat, least: nat)
    requires Lanes(nonceInt, 4 * round, 4) && 4 * round + 4 <= least < WORD
    ensures Lanes(nonceInt, 4 * (round + 1), 0)
  {
  }

  method SampleX4(p: Params, hash: Bytes) returns (iStar: seq<nat>, nonce: Bytes)
    requires Winnable(p, hash)
    ensures nonce == WinningNonce(p, hash) && iStar == WinningChallenge(p, hash)
  {
    hide Draw;
    hide GrindingValue;
    hide NonceBytes;
    hide IStar;
    ghost var least := LeastGood(p, hash);
    var nonceInt: seq<nat> := [0, 1, 2, 3];
    ghost var round: nat := 0;
    var found := false;
    nonce, iStar := [], [];
    while !found
      invariant !found ==> 4 * round <= least && Lanes(nonceInt, 4 * round, 0)
      invariant found ==> nonce == NonceBytes(least) && iStar == IStar(p, Draw(p, hash, nonce))
      decreases if found then 0 else least - 4 * round + 1
    {
      var nonces := seq(4, i requires 0 <= i < 4 => NonceBytes(nonceInt[i]));
      var draws := seq(4, i requires 0 <= i < 4 => Draw(p, hash, nonces[i]));
      for i := 0 to 4
        invariant !found && 4 * round + i <= least && Lanes(nonceInt, 4 * round, i)
      {
        var val;
        iStar, val := ReadChallenge(p, draws[i]);
        assert val == 0 <==> Good(p, hash, 4 * round + i);
        if val == 0 {
          found := true;
          nonce := nonces[i];
          break;
        }
        nonceInt := nonceInt[i := (nonceInt[i] + 4) % WORD];
      }
      if !found {
        NextRound(nonceInt, round, least);
      }
      round := round + 1;
    }
  }
}
