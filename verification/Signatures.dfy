/**
 * Signatures: what is signed, how the pieces are laid out in one buffer, what the verifier
 * accepts, and why it accepts every honest signature.
 */
module Signatures {
  import opened ByteStrings
  import opened Algebra
  import opened Fields
  import opened Common
  import opened Layout
  import opened Schemes
  import opened Blc
  import opened Piop
  import opened Challenge
  import opened KeyGen

  // ---- hashes ----

  function MessageHash(p: Params, msg: Bytes): (h: Bytes)
    ensures |h| == p.DigestSize()
  {
    p.Hash(2, msg)
  }

  /** The digest of all coefficients, those of alpha0 first. */
  function Com2(p: Params, alpha0: Bytes, alpha1: Bytes): (h: Bytes)
    ensures |h| == p.DigestSize()
  {
    p.Hash(3, alpha0 + alpha1)
  }

  /** The digest the challenge is drawn from. */
  function ChallengeHash(p: Params, pk: Bytes, com1: Bytes, com2: Bytes, msg: Bytes): (h: Bytes)
    ensures |h| == p.DigestSize()
  {
    p.Hash(4, pk + com1 + com2 + MessageHash(p, msg))
  }

  /** The coefficients of all repetitions, serialized one after the other. */
  function EncodeAll<B, E>(s: Scheme<B, E>, v: seq<seq<E>>): (r: seq<Bytes>)
    ensures |r| == |v|
  {
    seq(|v|, e requires 0 <= e < |v| => Encode(s.f, v[e]))
  }

  lemma EncodeAllLength<B(!new), E(!new)>(s: Scheme<B, E>, v: seq<seq<E>>)
    requires ValidScheme(s) && AllLength(v, s.p.eta)
    ensures AllLength(EncodeAll(s, v), s.EtaBytes())
    ensures |Concat(EncodeAll(s, v))| == |v| * s.EtaBytes()
  {
    hide FieldLaws;
    forall e | 0 <= e < |v| ensures |EncodeAll(s, v)[e]| == s.EtaBytes() {
      EncodeLength(s.f, v[e]);
    }
    ConcatLength(EncodeAll(s, v), s.EtaBytes());
  }

  /** What the verifier parses for alpha1. */
  function ParseAlphas<B, E>(s: Scheme<B, E>, bytes: Bytes): (r: seq<seq<E>>)
    requires |bytes| == s.p.tau * s.EtaBytes()
    ensures |r| == s.p.tau && AllLength(r, s.p.eta)
  {
    seq(s.p.tau, e requires 0 <= e < s.p.tau => Decode(s.f, Pieces(bytes, s.EtaBytes(), s.p.tau)[e], s.p.eta))
  }

  lemma ParseEncoded<B(!new), E(!new)>(s: Scheme<B, E>, v: seq<seq<E>>)
    requires ValidScheme(s) && AllLength(v, s.p.eta) && |v| == s.p.tau
    ensures |Concat(EncodeAll(s, v))| == s.p.tau * s.EtaBytes()
    ensures ParseAlphas(s, Concat(EncodeAll(s, v))) == v
  {
    hide FieldLaws;
    hide Encode;
    hide Decode;
    hide Concat;
    hide Pieces;
    var parts := EncodeAll(s, v);
    EncodeAllLength(s, v);
    PiecesOfConcat(parts, s.EtaBytes(), []);
    assert Concat(parts) + [] == Concat(parts);
    forall e | 0 <= e < s.p.tau ensures ParseAlphas(s, Concat(parts))[e] == v[e] {
      DecodeEncode(s.f, v[e]);
    }
  }

  // ---- the signature ----

  function PkSystem<B, E>(s: Scheme<B, E>, pk: Bytes): (q: System)
    requires Sized(s) && |pk| == PkSize(s)
    ensures ValidSystem(s, q)
  {
    SystemOf(s, pk[..2 * s.p.seedSize])
  }

  function PkValues<B, E>(s: Scheme<B, E>, pk: Bytes): (y: Bytes)
    requires Sized(s) && |pk| == PkSize(s)
    ensures |y| == s.YBytes()
  {
    pk[2 * s.p.seedSize..]
  }

  function SignerAlpha0<B, E>(s: Scheme<B, E>, pk: Bytes, c: Secret): (r: seq<seq<E>>)
    requires ValidSecret(s, c) && |pk| == PkSize(s)
    ensures |r| == s.p.tau && AllLength(r, s.p.eta)
  {
    seq(s.p.tau, e requires 0 <= e < s.p.tau => Alpha0(s, SignerCom1(s, c), PkSystem(s, pk), X0(s, c, e), U0(s, c, e)))
  }

  function SignerAlpha1<B, E>(s: Scheme<B, E>, pk: Bytes, c: Secret): (r: seq<seq<E>>)
    requires ValidSecret(s, c) && |pk| == PkSize(s)
    ensures |r| == s.p.tau && AllLength(r, s.p.eta)
  {
    seq(s.p.tau, e requires 0 <= e < s.p.tau =>
      Alpha1(s, SignerCom1(s, c), PkSystem(s, pk), c.x, X0(s, c, e), U1(s, c, e)))
  }

  function SignerCom2<B, E>(s: Scheme<B, E>, pk: Bytes, c: Secret): (h: Bytes)
    requires ValidSecret(s, c) && |pk| == PkSize(s)
    ensures |h| == s.p.DigestSize()
  {
    Com2(s.p, Concat(EncodeAll(s, SignerAlpha0(s, pk, c))), Concat(EncodeAll(s, SignerAlpha1(s, pk, c))))
  }

  function SignerHash<B, E>(s: Scheme<B, E>, pk: Bytes, c: Secret, msg: Bytes): (h: Bytes)
    requires ValidSecret(s, c) && |pk| == PkSize(s)
    ensures |h| == s.p.DigestSize()
  {
    ChallengeHash(s.p, pk, SignerCom1(s, c), SignerCom2(s, pk, c), msg)
  }

  /** The fields of a signature, in the order in which they are laid out. */
  datatype Parts = Parts(salt: Bytes, com1: Bytes, com2: Bytes, alpha1: Bytes, opening: Bytes, nonce: Bytes)
  {
    function Join(): Bytes { salt + com1 + com2 + alpha1 + opening + nonce }
  }

  ghost predicate PartsFit<B, E>(s: Scheme<B, E>, q: Parts)
    requires Sized(s)
  {
    && |q.salt| == s.p.saltSize && |q.com1| == |q.com2| == s.p.DigestSize()
    && |q.alpha1| == s.p.tau * s.EtaBytes() && |q.opening| == OpeningSize(s) && |q.nonce| == 4
  }

  ghost function SignedParts<B(!new), E(!new)>(s: Scheme<B, E>, pk: Bytes, c: Secret, msg: Bytes): (q: Parts)
    requires ValidScheme(s) && ValidSecret(s, c) && |pk| == PkSize(s)
    requires Winnable(s.p, SignerHash(s, pk, c, msg))
    ensures PartsFit(s, q)
  {
    EncodeAllLength(s, SignerAlpha1(s, pk, c));
    OpeningReads(s, c, WinningChallenge(s.p, SignerHash(s, pk, c, msg)));
    Parts(c.salt, SignerCom1(s, c), SignerCom2(s, pk, c), Concat(EncodeAll(s, SignerAlpha1(s, pk, c))),
          Opening(s, c, WinningChallenge(s.p, SignerHash(s, pk, c, msg))),
          WinningNonce(s.p, SignerHash(s, pk, c, msg)))
  }

  function SigSize<B, E>(s: Scheme<B, E>): nat
    requires Sized(s)
  {
    4 + s.p.tau * s.EtaBytes() + s.p.saltSize + 2 * s.p.DigestSize() + OpeningSize(s)
  }

  ghost function Signature<B(!new), E(!new)>(s: Scheme<B, E>, pk: Bytes, c: Secret, msg: Bytes): (sig: Bytes)
    requires ValidScheme(s) && ValidSecret(s, c) && |pk| == PkSize(s)
    requires Winnable(s.p, SignerHash(s, pk, c, msg))
    ensures |sig| == SigSize(s)
  {
    hide SignedParts;
    SignedParts(s, pk, c, msg).Join()
  }

  // ---- verification ----

  function Parse<B, E>(s: Scheme<B, E>, sig: Bytes): (q: Parts)
    requires Sized(s) && |sig| == SigSize(s)
    ensures PartsFit(s, q)
  {
    var com1 := s.p.saltSize;
    var com2 := com1 + s.p.DigestSize();
    var alpha1 := com2 + s.p.DigestSize();
    var opening := alpha1 + s.p.tau * s.EtaBytes();
    Parts(sig[..com1], sig[com1..com2], sig[com2..alpha1], sig[alpha1..opening],
          sig[opening..opening + OpeningSize(s)], sig[SigSize(s) - 4..])
  }

  /** Joined fields are parsed back, and any signature is the join of its fields. */
  lemma ParseJoin<B, E>(s: Scheme<B, E>, q: Parts)
    requires Sized(s) && PartsFit(s, q)
    ensures |q.Join()| == SigSize(s) && Parse(s, q.Join()) == q
  {
    var sig := q.Join();
    var com1 := s.p.saltSize;
    var com2 := com1 + s.p.DigestSize();
    var alpha1 := com2 + s.p.DigestSize();
    var opening := alpha1 + s.p.tau * s.EtaBytes();
    assert sig[..com1] == q.salt;
    assert sig[com1..com2] == q.com1;
    assert sig[com2..alpha1] == q.com2;
    assert sig[alpha1..opening] == q.alpha1;
    assert sig[opening..opening + OpeningSize(s)] == q.opening;
    assert sig[opening + OpeningSize(s)..] == q.nonce;
  }

  /** Where the fields of a signature lie: salt, both commitments, alpha1, opening, nonce. */
  lemma FieldOffsets<B, E>(s: Scheme<B, E>, q: Parts)
    requires Sized(s) && PartsFit(s, q)
    ensures |q.Join()| == s.p.saltSize + 4 * s.p.seedSize + s.p.tau * s.EtaBytes() + OpeningSize(s) + 4
    ensures var g, at, len := q.Join(), s.p.saltSize + 4 * s.p.seedSize, s.p.tau * s.EtaBytes();
            && g[..s.p.saltSize] == q.salt
            && g[s.p.saltSize..s.p.saltSize + 2 * s.p.seedSize] == q.com1
            && g[s.p.saltSize + 2 * s.p.seedSize..at] == q.com2
            && g[at..at + len] == q.alpha1
            && g[at + len..at + len + OpeningSize(s)] == q.opening
            && g[at + len + OpeningSize(s)..] == q.nonce
  {
    hide OpeningSize;
  }

  /** The draw a signature asks the verifier to repeat. */
  function VerifierDraw(p: Params, pk: Bytes, msg: Bytes, q: Parts): (tmp: Bytes)
    ensures |tmp| == 2 * p.tau + 2
  {
    Draw(p, ChallengeHash(p, pk, q.com1, q.com2, msg), q.nonce)
  }

  function VerifierAlpha0<B, E>(s: Scheme<B, E>, pk: Bytes, q: Parts, iStar: seq<nat>): (r: seq<seq<E>>)
    requires Sized(s) && |pk| == PkSize(s) && PartsFit(s, q) && ValidChallenge(s.p, iStar)
    ensures |r| == s.p.tau && AllLength(r, s.p.eta)
  {
    seq(s.p.tau, e requires 0 <= e < s.p.tau =>
      RecomputedAlpha0(s, q.com1, PkSystem(s, pk), PkValues(s, pk), s.f.Point(iStar[e]),
                       VerifierX(s, q.salt, q.opening, iStar, e), VerifierU(s, q.salt, q.opening, iStar, e),
                       ParseAlphas(s, q.alpha1)[e]))
  }

  /** Grinding, the line commitment, and the recomputed coefficients all check out. */
  predicate Accepts<B, E>(s: Scheme<B, E>, pk: Bytes, msg: Bytes, sig: Bytes)
    requires Sized(s) && |pk| == PkSize(s) && |sig| == SigSize(s)
  {
    var q := Parse(s, sig);
    var tmp := VerifierDraw(s.p, pk, msg, q);
    && GrindingValue(s.p, tmp) == 0
    && q.com1 == VerifierCom1(s, q.salt, q.opening, IStar(s.p, tmp))
    && q.com2 == Com2(s.p, Concat(EncodeAll(s, VerifierAlpha0(s, pk, q, IStar(s.p, tmp)))), q.alpha1)
  }

  // ---- completeness ----

  /** The verifier recomputes every alpha0 of an honest signature. */
  lemma HonestAlpha0<B(!new), E(!new)>(s: Scheme<B, E>, pk: Bytes, c: Secret, iStar: seq<nat>, q: Parts)
    requires ValidScheme(s) && ValidSecret(s, c) && |pk| == PkSize(s) && ValidChallenge(s.p, iStar)
    requires Solves(s, PkSystem(s, pk), c.x, PkValues(s, pk))
    requires PartsFit(s, q) && q.salt == c.salt && q.com1 == SignerCom1(s, c) && q.opening == Opening(s, c, iStar)
    requires q.alpha1 == Concat(EncodeAll(s, SignerAlpha1(s, pk, c)))
    ensures VerifierAlpha0(s, pk, q, iStar) == SignerAlpha0(s, pk, c)
  {
    hide FieldLaws;
    hide Lift;
    hide Line;
    hide X0;
    hide U0;
    hide U1;
    hide VerifierX;
    hide VerifierU;
    hide Opening;
    hide PkSystem;
    hide Solves;
    hide Alpha0;
    hide Alpha1;
    hide RecomputedAlpha0;
    hide ParseAlphas;
    hide SignerCom1;
    hide OpeningSize;
    ParseEncoded(s, SignerAlpha1(s, pk, c));
    PkTriangular(s, pk);
    forall e | 0 <= e < s.p.tau ensures VerifierAlpha0(s, pk, q, iStar)[e] == SignerAlpha0(s, pk, c)[e] {
      HonestLines(s, c, iStar, e);
      AlphaAgrees(s, q.com1, PkSystem(s, pk), c.x, PkValues(s, pk), X0(s, c, e), U0(s, c, e), U1(s, c, e),
                  s.f.Point(iStar[e]));
    }
  }

  lemma PkTriangular<B(!new), E(!new)>(s: Scheme<B, E>, pk: Bytes)
    requires ValidScheme(s) && |pk| == PkSize(s)
    ensures TriangularSystem(s, PkSystem(s, pk))
  {
    SystemTriangular(s, pk[..2 * s.p.seedSize]);
  }

  /** A signature made with a solution of the public system is accepted. */
  lemma SolutionsSign<B(!new), E(!new)>(s: Scheme<B, E>, pk: Bytes, c: Secret, msg: Bytes)
    requires ValidScheme(s) && ValidSecret(s, c) && |pk| == PkSize(s)
    requires Solves(s, PkSystem(s, pk), c.x, PkValues(s, pk))
    requires Winnable(s.p, SignerHash(s, pk, c, msg))
    ensures Accepts(s, pk, msg, Signature(s, pk, c, msg))
  {
    hide FieldLaws;
    hide Solves;
    hide PkSystem;
    hide Parts.Join;
    hide Parse;
    hide SignerCom1;
    hide Opening;
    hide OpeningSize;
    hide SignerAlpha0;
    hide SignerAlpha1;
    hide VerifierAlpha0;
    hide VerifierCom1;
    hide EncodeAll;
    hide Concat;
    hide Com2;
    hide Draw;
    hide IStar;
    hide GrindingValue;
    hide WinningNonce;
    var q := SignedParts(s, pk, c, msg);
    ParseJoin(s, q);
    var hash := SignerHash(s, pk, c, msg);
    var iStar := WinningChallenge(s.p, hash);
    HonestCom1(s, c, iStar);
    HonestAlpha0(s, pk, c, iStar, q);
  }

  /** Every key made by key generation signs every message so that it verifies. */
  lemma Completeness<B(!new), E(!new)>(s: Scheme<B, E>, seedKey: Bytes, mseed: Bytes, salt: Bytes, msg: Bytes)
    requires ValidScheme(s) && |mseed| == s.p.seedSize && |salt| == s.p.saltSize
    requires Winnable(s.p, SignerHash(s, PublicKey(s, seedKey), Secret(mseed, salt, KeyX(s, seedKey)), msg))
    ensures Accepts(s, PublicKey(s, seedKey), msg,
                    Signature(s, PublicKey(s, seedKey), Secret(mseed, salt, KeyX(s, seedKey)), msg))
  {
    hide FieldLaws;
    hide KeyX;
    hide KeyY;
    hide KeyEquationSeed;
    hide SystemOf;
    hide Solves;
    hide Signature;
    hide SignerHash;
    hide Accepts;
    var pk := PublicKey(s, seedKey);
    assert pk[..2 * s.p.seedSize] == KeyEquationSeed(s, seedKey);
    assert PkValues(s, pk) == KeyY(s, seedKey);
    KeySolves(s, seedKey);
    SolutionsSign(s, pk, Secret(mseed, salt, KeyX(s, seedKey)), msg);
  }
}
