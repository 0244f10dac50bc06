/**
 * What the hashes bind: wherever two different inputs are accepted for the same digest, two
 * different strings with equal XOF output can be written down.
 */
module Binding {
  import opened ByteStrings
  import opened Naturals
  import opened Layout
  import opened Fields
  import opened Common
  import opened Schemes
  import opened Blc
  import opened Piop
  import opened Challenge
  import opened KeyGen
  import opened Signatures
  import ExpandMq

  // ---- collisions ----

  /** Two different strings of the same domain, which their first byte tells, with the same output. */
  predicate Collide(p: Params, domain: nat, len: nat, u: Bytes, v: Bytes) {
    && u != v && |u| > 0 && |v| > 0 && u[0] == v[0] && u[0].ToNat() == domain
    && p.Squeeze(u, 0, len) == p.Squeeze(v, 0, len)
  }

  lemma Prefixed(p: Params, domain: nat, len: nat, a: Bytes, b: Bytes)
    requires domain < 256 && a != b
    requires p.Squeeze([Truncate(domain)] + a, 0, len) == p.Squeeze([Truncate(domain)] + b, 0, len)
    ensures Collide(p, domain, len, [Truncate(domain)] + a, [Truncate(domain)] + b)
  {
    TruncateToNat(domain);
    hide Truncate;
    hide Byte.ToNat;
    hide Params.Squeeze;
    var u, v := [Truncate(domain)] + a, [Truncate(domain)] + b;
    assert u[1..] == a && v[1..] == b;
  }

  lemma HashCollides(p: Params, domain: nat, a: Bytes, b: Bytes)
    requires domain < 256 && a != b && p.Hash(domain, a) == p.Hash(domain, b)
    ensures Collide(p, domain, p.DigestSize(), [Truncate(domain)] + a, [Truncate(domain)] + b)
  {
    hide Truncate;
    hide Collide;
    hide Params.Squeeze;
    Prefixed(p, domain, p.DigestSize(), a, b);
  }

  /** Strings made of two parts differ if a part does and the second parts are equally long. */
  lemma PartsDiffer<T>(a: seq<T>, x: seq<T>, b: seq<T>, y: seq<T>)
    requires |x| == |y| && (a != b || x != y)
    ensures a + x != b + y
  {
    var s, t := a + x, b + y;
    if |a| == |b| {
      assert a == s[..|a|] && b == t[..|b|];
      assert x == s[|a|..] && y == t[|b|..];
    }
  }

  // ---- the line commitment ----

  lemma ConcatInjective<T>(a: seq<seq<T>>, b: seq<seq<T>>, size: nat)
    requires AllLength(a, size) && AllLength(b, size) && |a| == |b| && a != b
    ensures Concat(a) != Concat(b)
  {
    hide Concat;
    hide Pieces;
    PiecesOfConcat(a, size, []);
    PiecesOfConcat(b, size, []);
    assert Concat(a) + [] == Concat(a) && Concat(b) + [] == Concat(b);
  }

  /** The corrections, end to end, are the last section of the opening. */
  lemma SentDeltas<B, E>(s: Scheme<B, E>, opening: Bytes)
    requires Sized(s) && |opening| == OpeningSize(s)
    ensures |opening| >= DeltaOffset(s.p) && Concat(ReadDeltas(s, opening)) == opening[DeltaOffset(s.p)..]
  {
    OffsetsFit(s);
    hide OpeningSize;
    hide DeltaOffset;
    hide Concat;
    hide Pieces;
    var tail := opening[DeltaOffset(s.p)..];
    ConcatOfPieces(tail, s.XBytes() - s.p.seedSize, s.p.tau);
  }

  lemma CommitmentAbsorbs<B, E>(s: Scheme<B, E>, salt: Bytes, opening: Bytes, iStar: seq<nat>)
    requires Sized(s) && |salt| == s.p.saltSize && |opening| == OpeningSize(s) && ValidChallenge(s.p, iStar)
    ensures |opening| >= DeltaOffset(s.p)
    ensures VerifierCom1(s, salt, opening, iStar)
         == s.p.Squeeze([Truncate(7)] + (Concat(VerifierHashes(s, salt, opening, iStar)) + opening[DeltaOffset(s.p)..]), 0, s.p.DigestSize())
  {
    hide OpeningSize;
    hide DeltaOffset;
    hide VerifierHashes;
    hide ReadDeltas;
    hide Truncate;
    SentDeltas(s, opening);
  }

  /** Two openings that lead to one commitment agree on all corrections and digests, or collide under byte 7. */
  lemma CommitmentBinds<B, E>(s: Scheme<B, E>, salt: Bytes, opening: Bytes, iStar: seq<nat>,
                              salt': Bytes, opening': Bytes, iStar': seq<nat>)
    requires Sized(s) && |salt| == |salt'| == s.p.saltSize && |opening| == |opening'| == OpeningSize(s)
    requires ValidChallenge(s.p, iStar) && ValidChallenge(s.p, iStar')
    requires VerifierCom1(s, salt, opening, iStar) == VerifierCom1(s, salt', opening', iStar')
    requires ReadDeltas(s, opening) != ReadDeltas(s, opening')
          || VerifierHashes(s, salt, opening, iStar) != VerifierHashes(s, salt', opening', iStar')
    ensures |opening| >= DeltaOffset(s.p)
    ensures Collide(s.p, 7, s.p.DigestSize(),
                    [Truncate(7)] + (Concat(VerifierHashes(s, salt, opening, iStar)) + opening[DeltaOffset(s.p)..]),
                    [Truncate(7)] + (Concat(VerifierHashes(s, salt', opening', iStar')) + opening'[DeltaOffset(s.p)..]))
  {
    var h, h' := VerifierHashes(s, salt, opening, iStar), VerifierHashes(s, salt', opening', iStar');
    assert AllLength(h, s.p.DigestSize()) && AllLength(h', s.p.DigestSize());
    CommitmentAbsorbs(s, salt, opening, iStar);
    CommitmentAbsorbs(s, salt', opening', iStar');
    SentDeltas(s, opening);
    SentDeltas(s, opening');
    hide OpeningSize;
    hide DeltaOffset;
    hide VerifierHashes;
    hide VerifierCom1;
    hide Collide;
    hide Truncate;
    hide Params.Squeeze;
    hide ReadDeltas;
    var tail, tail' := opening[DeltaOffset(s.p)..], opening'[DeltaOffset(s.p)..];
    if h != h' {
      ConcatInjective(h, h', s.p.DigestSize());
    }
    PartsDiffer(Concat(h), tail, Concat(h'), tail');
    Prefixed(s.p, 7, s.p.DigestSize(), Concat(h) + tail, Concat(h') + tail');
  }

  /** Two lists of leaf commitments with one digest are equal, or collide under byte 6. */
  lemma LeavesBind(p: Params, coms: seq<Bytes>, coms': seq<Bytes>)
    requires |coms| == |coms'| && AllLength(coms, p.DigestSize()) && AllLength(coms', p.DigestSize())
    requires coms != coms' && HashComs(p, coms) == HashComs(p, coms')
    ensures Collide(p, 6, p.DigestSize(), [Truncate(6)] + Concat(coms), [Truncate(6)] + Concat(coms'))
  {
    hide Collide;
    hide Truncate;
    ConcatInjective(coms, coms', p.DigestSize());
    HashCollides(p, 6, Concat(coms), Concat(coms'));
  }

  /**
   * The verifier's leaf commitments of every repetition and all corrections are bound by the
   * commitment: two openings that lead to the same one agree on them, or a collision is found.
   */
  lemma OpeningBinds<B, E>(s: Scheme<B, E>, salt: Bytes, opening: Bytes, iStar: seq<nat>,
                           salt': Bytes, opening': Bytes, iStar': seq<nat>, e: nat) returns (domain: nat, u: Bytes, v: Bytes)
    requires Sized(s) && |salt| == |salt'| == s.p.saltSize && |opening| == |opening'| == OpeningSize(s)
    requires ValidChallenge(s.p, iStar) && ValidChallenge(s.p, iStar') && e < s.p.tau
    requires VerifierCom1(s, salt, opening, iStar) == VerifierCom1(s, salt', opening', iStar')
    requires VerifierComs(s, salt, opening, iStar, e) != VerifierComs(s, salt', opening', iStar', e)
    ensures domain == 6 || domain == 7
    ensures Collide(s.p, domain, s.p.DigestSize(), u, v)
  {
    hide Collide;
    hide Truncate;
    hide VerifierComs;
    hide VerifierCom1;
    hide ReadDeltas;
    hide HashComs;
    hide OpeningSize;
    hide DeltaOffset;
    var coms, coms' := VerifierComs(s, salt, opening, iStar, e), VerifierComs(s, salt', opening', iStar', e);
    VerifierHashOfComs(s, salt, opening, iStar, e);
    VerifierHashOfComs(s, salt', opening', iStar', e);
    if HashComs(s.p, coms) == HashComs(s.p, coms') {
      LeavesBind(s.p, coms, coms');
      domain, u, v := 6, [Truncate(6)] + Concat(coms), [Truncate(6)] + Concat(coms');
    } else {
      var h, h' := VerifierHashes(s, salt, opening, iStar), VerifierHashes(s, salt', opening', iStar');
      assert h[e] != h'[e];
      CommitmentBinds(s, salt, opening, iStar, salt', opening', iStar');
      domain := 7;
      u := [Truncate(7)] + (Concat(h) + opening[DeltaOffset(s.p)..]);
      v := [Truncate(7)] + (Concat(h') + opening'[DeltaOffset(s.p)..]);
    }
  }

  /** The leaf commitments the verifier hashes in one repetition. */
  function VerifierComs<B, E>(s: Scheme<B, E>, salt: Bytes, opening: Bytes, iStar: seq<nat>, e: nat): (r: seq<Bytes>)
    requires Sized(s) && |salt| == s.p.saltSize && |opening| == OpeningSize(s) && ValidChallenge(s.p, iStar) && e < s.p.tau
    ensures |r| == s.p.NbEvals() && AllLength(r, s.p.DigestSize())
  {
    KnownComs(s, salt, e, KnownLeaves(s, salt, e, ReadPaths(s, opening)[e], iStar[e]), ReadComs(s, opening)[e], iStar[e])
  }

  lemma VerifierHashOfComs<B, E>(s: Scheme<B, E>, salt: Bytes, opening: Bytes, iStar: seq<nat>, e: nat)
    requires Sized(s) && |salt| == s.p.saltSize && |opening| == OpeningSize(s) && ValidChallenge(s.p, iStar) && e < s.p.tau
    ensures VerifierHashes(s, salt, opening, iStar)[e] == HashComs(s.p, VerifierComs(s, salt, opening, iStar, e))
  {
    hide HashComs;
    hide KnownComs;
    hide KnownLeaves;
    hide ReadPaths;
    hide ReadComs;
  }

  /** Where the sections of an opening lie: paths, commitments to hidden leaves, corrections. */
  lemma OpeningOffsets<B, E>(s: Scheme<B, E>, c: Secret, iStar: seq<nat>, com: nat, delta: nat)
    requires ValidSecret(s, c) && ValidChallenge(s.p, iStar)
    requires com == s.p.tau * (s.p.log * s.p.seedSize) && com <= delta && delta - com == s.p.tau * (2 * s.p.seedSize)
    ensures delta <= |Opening(s, c, iStar)|
    ensures Opening(s, c, iStar)[..com] == Concat(OpenedPaths(s, c, iStar))
    ensures Opening(s, c, iStar)[com..delta] == Concat(OpenedComs(s, c, iStar))
    ensures Opening(s, c, iStar)[delta..] == Concat(SignerDeltas(s, c))
  {
    var a, b, d := OpenedPaths(s, c, iStar), OpenedComs(s, c, iStar), SignerDeltas(s, c);
    ConcatLength(a, s.p.log * s.p.seedSize);
    ConcatLength(b, s.p.DigestSize());
    ConcatLength(d, s.XBytes() - s.p.seedSize);
    var o := Opening(s, c, iStar);
    assert o == Concat(a) + Concat(b) + Concat(d);
    hide *;
    ThreeSections(o, Concat(a), Concat(b), Concat(d), com, delta);
  }

  lemma ThreeSections<T>(o: seq<T>, x: seq<T>, y: seq<T>, z: seq<T>, m: nat, n: nat)
    requires o == x + y + z && |x| == m && |y| == n - m
    ensures n <= |o| && o[..m] == x && o[m..n] == y && o[n..] == z
  {
  }

  // ---- signatures ----

  /** Two accepted signatures with one com2 have the same alpha1 and recompute the same alpha0, or collide under byte 3. */
  lemma CoefficientsBind<B, E>(s: Scheme<B, E>, pk: Bytes, msg: Bytes, q: Parts, pk': Bytes, msg': Bytes, q': Parts)
    requires Sized(s) && |pk| == |pk'| == PkSize(s) && PartsFit(s, q) && PartsFit(s, q')
    requires |q.Join()| == |q'.Join()| == SigSize(s)
    requires Accepts(s, pk, msg, q.Join()) && Accepts(s, pk', msg', q'.Join()) && q.com2 == q'.com2
    requires q.alpha1 != q'.alpha1
    ensures Collide(s.p, 3, s.p.DigestSize(),
                    [Truncate(3)] + (AcceptedAlpha0(s, pk, msg, q) + q.alpha1),
                    [Truncate(3)] + (AcceptedAlpha0(s, pk', msg', q') + q'.alpha1))
  {
    ParseJoin(s, q);
    ParseJoin(s, q');
    hide Collide;
    hide Truncate;
    hide Parse;
    hide Parts.Join;
    hide VerifierCom1;
    hide VerifierAlpha0;
    hide GrindingValue;
    hide Params.Squeeze;
    var a, a' := AcceptedAlpha0(s, pk, msg, q), AcceptedAlpha0(s, pk', msg', q');
    PartsDiffer(a, q.alpha1, a', q'.alpha1);
    HashCollides(s.p, 3, a + q.alpha1, a' + q'.alpha1);
  }

  /** The serialized coefficients the verifier recomputes for a signature. */
  function AcceptedAlpha0<B, E>(s: Scheme<B, E>, pk: Bytes, msg: Bytes, q: Parts): Bytes
    requires Sized(s) && |pk| == PkSize(s) && PartsFit(s, q)
  {
    Concat(EncodeAll(s, VerifierAlpha0(s, pk, q, IStar(s.p, VerifierDraw(s.p, pk, msg, q)))))
  }

  /** The draw of a challenge binds key, both commitments, message and nonce. */
  lemma DrawBinds(p: Params, pk: Bytes, com1: Bytes, com2: Bytes, msg: Bytes, nonce: Bytes,
                  pk': Bytes, com1': Bytes, com2': Bytes, msg': Bytes, nonce': Bytes)
    returns (domain: nat, len: nat, u: Bytes, v: Bytes)
    requires |pk| == |pk'| && |com1| == |com1'| && |com2| == |com2'| && |nonce| == |nonce'|
    requires (pk, com1, com2, msg, nonce) != (pk', com1', com2', msg', nonce')
    requires Draw(p, ChallengeHash(p, pk, com1, com2, msg), nonce) == Draw(p, ChallengeHash(p, pk', com1', com2', msg'), nonce')
    ensures (domain == 5 && len == 2 * p.tau + 2) || ((domain == 2 || domain == 4) && len == p.DigestSize())
    ensures Collide(p, domain, len, u, v)
  {
    hide Collide;
    hide Truncate;
    hide Params.Squeeze;
    hide Params.Hash;
    var h, h' := ChallengeHash(p, pk, com1, com2, msg), ChallengeHash(p, pk', com1', com2', msg');
    var m, m' := MessageHash(p, msg), MessageHash(p, msg');
    if h != h' || nonce != nonce' {
      PartsDiffer(h, nonce, h', nonce');
      assert [Truncate(5)] + h + nonce == [Truncate(5)] + (h + nonce) && [Truncate(5)] + h' + nonce' == [Truncate(5)] + (h' + nonce');
      Prefixed(p, 5, 2 * p.tau + 2, h + nonce, h' + nonce');
      domain, len, u, v := 5, 2 * p.tau + 2, [Truncate(5)] + (h + nonce), [Truncate(5)] + (h' + nonce');
    } else if msg != msg' && m == m' {
      HashCollides(p, 2, msg, msg');
      domain, len, u, v := 2, p.DigestSize(), [Truncate(2)] + msg, [Truncate(2)] + msg';
    } else {
      HeadsDiffer(pk, com1, com2, m, pk', com1', com2', m');
      HashCollides(p, 4, pk + com1 + com2 + m, pk' + com1' + com2' + m');
      domain, len := 4, p.DigestSize();
      u, v := [Truncate(4)] + (pk + com1 + com2 + m), [Truncate(4)] + (pk' + com1' + com2' + m');
    }
  }

  lemma HeadsDiffer<T>(a: seq<T>, b: seq<T>, c: seq<T>, d: seq<T>, a': seq<T>, b': seq<T>, c': seq<T>, d': seq<T>)
    requires |a| == |a'| && |b| == |b'| && |c| == |c'| && |d| == |d'|
    requires a != a' || b != b' || c != c' || d != d'
    ensures a + b + c + d != a' + b' + c' + d'
  {
    if a != a' || b != b' {
      PartsDiffer(a, b, a', b');
    }
    if a + b != a' + b' || c != c' {
      PartsDiffer(a + b, c, a' + b', c');
    }
    PartsDiffer(a + b + c, d, a' + b' + c', d');
  }

  // ---- seeds ----

  /** Different equations, or different equation seeds, are expanded from different strings of byte 1. */
  lemma EquationSeedBinds(p: Params, mseedEq: Bytes, i: nat, mseedEq': Bytes, i': nat)
    requires |mseedEq| == |mseedEq'| && i < 65536 && i' < 65536 && (mseedEq != mseedEq' || i != i')
    requires ExpandMq.EquationSeed(p, mseedEq, i) == ExpandMq.EquationSeed(p, mseedEq', i')
    ensures Collide(p, 1, p.seedSize, [Truncate(1)] + (mseedEq + [Truncate(i), Truncate(i / 256)]),
                                      [Truncate(1)] + (mseedEq' + [Truncate(i'), Truncate(i' / 256)]))
  {
    hide Collide;
    hide Truncate;
    hide Params.Squeeze;
    if i != i' {
      IndexBytes(i, i');
    }
    var w, w' := [Truncate(i), Truncate(i / 256)], [Truncate(i'), Truncate(i' / 256)];
    PartsDiffer(mseedEq, w, mseedEq', w');
    assert [Truncate(1)] + mseedEq + w == [Truncate(1)] + (mseedEq + w) && [Truncate(1)] + mseedEq' + w' == [Truncate(1)] + (mseedEq' + w');
    Prefixed(p, 1, p.seedSize, mseedEq + w, mseedEq' + w');
  }

  lemma IndexBytes(i: nat, i': nat)
    requires i < 65536 && i' < 65536 && i != i'
    ensures [Truncate(i), Truncate(i / 256)] != [Truncate(i'), Truncate(i' / 256)]
  {
    hide Truncate;
    hide Byte.ToNat;
    TruncateToNat(i);
    TruncateToNat(i');
    TruncateToNat(i / 256);
    TruncateToNat(i' / 256);
    var w, w' := [Truncate(i), Truncate(i / 256)], [Truncate(i'), Truncate(i' / 256)];
    if w == w' {
      assert w[0] == w'[0] && w[1] == w'[1];
      TwoBytesInjective(i, i');
    }
  }

  /** The secret point and the equation seed are consecutive parts of one output under byte 0. */
  lemma KeySqueeze<B, E>(s: Scheme<B, E>, seedKey: Bytes)
    requires Sized(s)
    ensures Truncate(0).ToNat() == 0
    ensures KeyX(s, seedKey) + KeyEquationSeed(s, seedKey)
         == s.p.Squeeze([Truncate(0)] + seedKey, 0, s.XBytes() + 2 * s.p.seedSize)
  {
    TruncateToNat(0);
    hide Truncate;
    hide Byte.ToNat;
    hide Sized;
  }

  /** The batching matrix, serialized row by row, is the output under byte 8. */
  lemma GammaBytesSqueezed<B(!new), E(!new)>(s: Scheme<B, E>, com: Bytes)
    requires ValidScheme(s)
    ensures Truncate(8).ToNat() == 8
    ensures Concat(EncodeAll(s, Gamma(s, com))) == s.p.Squeeze([Truncate(8)] + com, 0, s.p.eta * GammaBytes(s))
  {
    TruncateToNat(8);
    hide Truncate;
    hide Byte.ToNat;
    hide FieldLaws;
    hide Sized;
    hide Params.Squeeze;
    hide Pieces;
    hide Concat;
    var out := s.p.Squeeze([Truncate(8)] + com, 0, s.p.eta * GammaBytes(s));
    var rows := Pieces(out, GammaBytes(s), s.p.eta);
    forall i | 0 <= i < s.p.eta ensures EncodeAll(s, Gamma(s, com))[i] == rows[i] {
      EncodeDecode(s.f, rows[i], s.p.m / s.p.mu);
    }
    assert EncodeAll(s, Gamma(s, com)) == rows;
    ConcatOfPieces(out, GammaBytes(s), s.p.eta);
    assert out[..s.p.eta * GammaBytes(s)] == out;
  }

  // ---- acceptance spelled out ----

  /** A 16-bit number at position i of a draw, low byte first, reduced to some bits. */
  function Drawn(tmp: Bytes, i: nat, bits: nat): nat
    requires i + 1 < |tmp|
  {
    (tmp[i].ToNat() + tmp[i + 1].ToNat() * 256) % Pow2(bits)
  }

  /** Acceptance over the XOF alone: every string absorbed, in order, and every comparison made. */
  lemma AcceptanceSpelledOut<B, E>(s: Scheme<B, E>, pk: Bytes, msg: Bytes, q: Parts, h2: Bytes, h4: Bytes, tmp: Bytes, iStar: seq<nat>)
    requires Sized(s) && |pk| == PkSize(s) && PartsFit(s, q)
    requires h2 == s.p.Squeeze([Truncate(2)] + msg, 0, 2 * s.p.seedSize)
    requires h4 == s.p.Squeeze([Truncate(4)] + pk + q.com1 + q.com2 + h2, 0, 2 * s.p.seedSize)
    requires tmp == s.p.Squeeze([Truncate(5)] + h4 + q.nonce, 0, 2 * s.p.tau + 2)
    requires |iStar| == s.p.tau && forall e | 0 <= e < s.p.tau :: iStar[e] == Drawn(tmp, 2 * e, s.p.log)
    ensures ValidChallenge(s.p, iStar) && |q.opening| >= DeltaOffset(s.p) && |q.Join()| == SigSize(s)
    ensures Accepts(s, pk, msg, q.Join()) <==>
              && Drawn(tmp, 2 * s.p.tau, s.p.w) == 0
              && q.com1 == s.p.Squeeze([Truncate(7)] + (Concat(VerifierHashes(s, q.salt, q.opening, iStar)) + q.opening[DeltaOffset(s.p)..]), 0, 2 * s.p.seedSize)
              && q.com2 == s.p.Squeeze([Truncate(3)] + (Concat(EncodeAll(s, VerifierAlpha0(s, pk, q, iStar))) + q.alpha1), 0, 2 * s.p.seedSize)
  {
    ParseJoin(s, q);
    hide Truncate;
    hide Byte.ToNat;
    hide Parse;
    hide Parts.Join;
    hide Params.Squeeze;
    hide Pow2;
    SpelledDraw(s.p, pk, msg, q, h2, h4, tmp, iStar);
    CommitmentAbsorbs(s, q.salt, q.opening, iStar);
    hide VerifierCom1;
    hide VerifierHashes;
    hide VerifierAlpha0;
    hide DeltaOffset;
    hide OpeningSize;
    hide Drawn;
    hide IStar;
    hide VerifierDraw;
    hide GrindingValue;
  }

  lemma SpelledDraw(p: Params, pk: Bytes, msg: Bytes, q: Parts, h2: Bytes, h4: Bytes, tmp: Bytes, iStar: seq<nat>)
    requires h2 == p.Squeeze([Truncate(2)] + msg, 0, 2 * p.seedSize)
    requires h4 == p.Squeeze([Truncate(4)] + pk + q.com1 + q.com2 + h2, 0, 2 * p.seedSize)
    requires tmp == p.Squeeze([Truncate(5)] + h4 + q.nonce, 0, 2 * p.tau + 2)
    requires |iStar| == p.tau && forall e | 0 <= e < p.tau :: iStar[e] == Drawn(tmp, 2 * e, p.log)
    ensures tmp == VerifierDraw(p, pk, msg, q) && iStar == IStar(p, tmp)
    ensures GrindingValue(p, tmp) == Drawn(tmp, 2 * p.tau, p.w)
  {
    hide Truncate;
    hide Byte.ToNat;
    hide Params.Squeeze;
    hide Pow2;
    assert [Truncate(4)] + pk + q.com1 + q.com2 + h2 == [Truncate(4)] + (pk + q.com1 + q.com2 + h2);
  }
}
