/** Signing and verifying over one signature buffer, and the message-carrying wrappers. */
module SignatureProcedures {
  import opened ByteStrings
  import opened Algebra
  import opened Fields
  import opened Common
  import opened Layout
  import opened Schemes
  import opened Blc
  import opened Piop
  import opened Challenge
  import opened KeyGen
  import opened Signatures
  import Commitments = BlcProcedures
  import Proofs = PiopProcedures
  import ExpandMq

  /** Which of the interchangeable speed-ups are compiled in. */
  datatype Build = Build(memoryEfficient: bool, keyCache: bool, t1Cache: bool)

  method Expand<B, E>(s: Scheme<B, E>, build: Build, mseedEq: Bytes) returns (ret: int, q: System)
    requires Sized(s)
    ensures ret == if CanExpand(s.p) then 0 else -1
    ensures ret == 0 ==> q == SystemOf(s, mseedEq)
  {
    hide ExpandMq.Matrices;
    hide ExpandMq.Vectors;
    var A := new seq<Bytes>[s.p.m](_ => []);
    var b := new Bytes[s.p.m](_ => []);
    ret := ExpandMq.ExpandEquations(s, build.keyCache, mseedEq, A, b);
    q := System(A[..], b[..]);
  }

  /** Serializes the coefficients of all repetitions, one after the other. */
  method SerializeAll<B, E>(s: Scheme<B, E>, v: seq<seq<E>>) returns (bytes: Bytes)
    ensures bytes == Concat(EncodeAll(s, v))
  {
    hide Encode;
    bytes := [];
    ghost var parts := EncodeAll(s, v);
    for e := 0 to |v|
      invariant bytes == Concat(parts[..e])
    {
      bytes := bytes + Encode(s.f, v[e]);
      ConcatSnoc(parts[..e], parts[e]);
      assert parts[..e] + [parts[e]] == parts[..e + 1];
    }
    assert parts[..|v|] == parts;
  }

  method SampleChallenge(p: Params, hash: Bytes) returns (iStar: seq<nat>, nonce: Bytes)
    requires Winnable(p, hash)
    ensures nonce == WinningNonce(p, hash) && iStar == WinningChallenge(p, hash)
  {
    if p.xofX4 {
      iStar, nonce := SampleX4(p, hash);
    } else {
      iStar, nonce := SampleSerial(p, hash);
    }
  }

  /** Commits and computes the two coefficients of every repetition. */
  method Prove<B, E>(s: Scheme<B, E>, build: Build, ghost pk: Bytes, mseed: Bytes, salt: Bytes, x: Bytes, q: System,
                     key: Commitments.Key)
    returns (com1: Bytes, alpha0: seq<seq<E>>, alpha1: seq<seq<E>>)
    requires ValidSecret(s, Secret(mseed, salt, x)) && |pk| == PkSize(s) && q == PkSystem(s, pk)
    requires key.Shaped(s.p.tau)
    modifies key.Repr()
    ensures com1 == SignerCom1(s, Secret(mseed, salt, x))
    ensures alpha0 == SignerAlpha0(s, pk, Secret(mseed, salt, x))
    ensures alpha1 == SignerAlpha1(s, pk, Secret(mseed, salt, x))
    ensures Commitments.KeyHolds(s, Secret(mseed, salt, x), build.memoryEfficient, key, s.p.tau)
  {
    hide PkSystem;
    hide SignerAlpha0;
    hide SignerAlpha1;
    hide SignerCom1;
    hide Commitments.KeyHolds;
    hide Commitments.LinesUpTo;
    ghost var c := Secret(mseed, salt, x);
    var x0 := new seq<E>[s.p.tau](_ => []);
    var u0 := new seq<E>[s.p.tau](_ => []);
    var u1 := new seq<E>[s.p.tau](_ => []);
    var ret;
    ret, com1 := Commitments.Commit(s, build.memoryEfficient, build.keyCache, mseed, salt, x, key, x0, u0, u1);
    alpha0, alpha1 := ProveLines(s, build, pk, c, com1, x0[..], u0[..], u1[..], x, q);
  }

  method ProveLines<B, E>(s: Scheme<B, E>, build: Build, ghost pk: Bytes, ghost c: Secret, com1: Bytes, x0: seq<seq<E>>,
                          u0: seq<seq<E>>, u1: seq<seq<E>>, x: Bytes, q: System)
    returns (alpha0: seq<seq<E>>, alpha1: seq<seq<E>>)
    requires ValidSecret(s, c) && |pk| == PkSize(s) && q == PkSystem(s, pk) && x == c.x && com1 == SignerCom1(s, c)
    requires Commitments.LinesUpTo(s, c, x0, u0, u1, s.p.tau)
    ensures alpha0 == SignerAlpha0(s, pk, c) && alpha1 == SignerAlpha1(s, pk, c)
  {
    hide PkSystem;
    hide Alpha0;
    hide Alpha1;
    hide X0;
    hide U0;
    hide U1;
    hide SignerCom1;
    assert forall e | 0 <= e < s.p.tau :: Commitments.LinesOf(s, c, e, x0[e], u0[e], u1[e]);
    var a0 := new seq<E>[s.p.tau](_ => []);
    var a1 := new seq<E>[s.p.tau](_ => []);
    var ret := Proofs.ComputePAlpha(s, build.t1Cache, com1, x0, u0, u1, x, q, a0, a1);
    alpha0, alpha1 := a0[..], a1[..];
  }

  // ---- the signature buffer ----

  ghost predicate HoldsAt(buf: Bytes, at: nat, data: Bytes) {
    at + |data| <= |buf| && buf[at..at + |data|] == data
  }

  lemma SpliceHolds(buf: Bytes, at: nat, data: Bytes)
    requires at + |data| <= |buf|
    ensures HoldsAt(Splice(buf, at, data), at, data)
  {
  }

  lemma SpliceKeeps(buf: Bytes, where: nat, other: Bytes, at: nat, data: Bytes)
    requires where + |other| <= |buf| && HoldsAt(buf, at, data)
    requires where + |other| <= at || at + |data| <= where
    ensures HoldsAt(Splice(buf, where, other), at, data)
  {
    assert Splice(buf, where, other)[at..at + |data|] == buf[at..at + |data|];
  }

  /** Where each field starts. */
  datatype Offsets = Offsets(com1: nat, com2: nat, alpha1: nat, opening: nat, nonce: nat)

  function FieldOffsets<B, E>(s: Scheme<B, E>): (o: Offsets)
    requires Sized(s)
    ensures o.com1 == s.p.saltSize && o.com2 == o.com1 + s.p.DigestSize() && o.alpha1 == o.com2 + s.p.DigestSize()
    ensures o.opening == o.alpha1 + s.p.tau * s.EtaBytes() && o.nonce == o.opening + OpeningSize(s)
    ensures o.nonce + 4 == SigSize(s)
  {
    Offsets(s.p.saltSize, s.p.saltSize + s.p.DigestSize(), s.p.saltSize + 2 * s.p.DigestSize(),
            s.p.saltSize + 2 * s.p.DigestSize() + s.p.tau * s.EtaBytes(), SigSize(s) - 4)
  }

  /** Salt, commitment, both digests and coefficients are in place. */
  ghost predicate HeadWritten<B, E>(s: Scheme<B, E>, sig: Bytes, salt: Bytes, com1: Bytes, com2: Bytes, alpha1: Bytes)
    requires Sized(s)
  {
    var o := FieldOffsets(s);
    && |sig| == SigSize(s)
    && |salt| == s.p.saltSize && |com1| == |com2| == s.p.DigestSize() && |alpha1| == s.p.tau * s.EtaBytes()
    && HoldsAt(sig, 0, salt) && HoldsAt(sig, o.com1, com1) && HoldsAt(sig, o.com2, com2) && HoldsAt(sig, o.alpha1, alpha1)
  }

  method WriteHead<B, E>(s: Scheme<B, E>, sig: array<Byte>, salt: Bytes, com1: Bytes, com2: Bytes, alpha1: Bytes)
    requires Sized(s) && sig.Length == SigSize(s)
    requires |salt| == s.p.saltSize && |com1| == |com2| == s.p.DigestSize() && |alpha1| == s.p.tau * s.EtaBytes()
    modifies sig
    ensures HeadWritten(s, sig[..], salt, com1, com2, alpha1)
  {
    hide Splice;
    hide HoldsAt;
    hide SigSize;
    var o := FieldOffsets(s);
    SpliceHolds(sig[..], 0, salt);
    Store(sig, 0, salt);
    SpliceHolds(sig[..], o.com1, com1);
    SpliceKeeps(sig[..], o.com1, com1, 0, salt);
    Store(sig, o.com1, com1);
    SpliceHolds(sig[..], o.alpha1, alpha1);
    SpliceKeeps(sig[..], o.alpha1, alpha1, 0, salt);
    SpliceKeeps(sig[..], o.alpha1, alpha1, o.com1, com1);
    Store(sig, o.alpha1, alpha1);
    SpliceHolds(sig[..], o.com2, com2);
    SpliceKeeps(sig[..], o.com2, com2, 0, salt);
    SpliceKeeps(sig[..], o.com2, com2, o.com1, com1);
    SpliceKeeps(sig[..], o.com2, com2, o.alpha1, alpha1);
    Store(sig, o.com2, com2);
  }

  method WriteTail<B, E>(s: Scheme<B, E>, sig: array<Byte>, ghost q: Parts, opening: Bytes, nonce: Bytes)
    requires Sized(s) && PartsFit(s, q) && opening == q.opening && nonce == q.nonce
    requires HeadWritten(s, sig[..], q.salt, q.com1, q.com2, q.alpha1)
    modifies sig
    ensures sig[..] == q.Join()
  {
    hide Splice;
    hide HoldsAt;
    hide SigSize;
    hide OpeningSize;
    var o := FieldOffsets(s);
    KeepHead(s, sig[..], q, o.nonce, nonce);
    SpliceHolds(sig[..], o.nonce, nonce);
    Store(sig, o.nonce, nonce);
    KeepHead(s, sig[..], q, o.opening, opening);
    SpliceHolds(sig[..], o.opening, opening);
    SpliceKeeps(sig[..], o.opening, opening, o.nonce, nonce);
    Store(sig, o.opening, opening);
    AllWritten(s, sig[..], q);
  }

  lemma KeepHead<B, E>(s: Scheme<B, E>, sig: Bytes, q: Parts, at: nat, data: Bytes)
    requires Sized(s) && HeadWritten(s, sig, q.salt, q.com1, q.com2, q.alpha1)
    requires FieldOffsets(s).opening <= at && at + |data| <= |sig|
    ensures HeadWritten(s, Splice(sig, at, data), q.salt, q.com1, q.com2, q.alpha1)
  {
    hide Splice;
    hide HoldsAt;
    var o := FieldOffsets(s);
    SpliceKeeps(sig, at, data, 0, q.salt);
    SpliceKeeps(sig, at, data, o.com1, q.com1);
    SpliceKeeps(sig, at, data, o.com2, q.com2);
    SpliceKeeps(sig, at, data, o.alpha1, q.alpha1);
  }

  lemma AllWritten<B, E>(s: Scheme<B, E>, sig: Bytes, q: Parts)
    requires Sized(s) && PartsFit(s, q) && HeadWritten(s, sig, q.salt, q.com1, q.com2, q.alpha1)
    requires HoldsAt(sig, FieldOffsets(s).opening, q.opening) && HoldsAt(sig, FieldOffsets(s).nonce, q.nonce)
    ensures sig == q.Join()
  {
    hide SigSize;
    hide OpeningSize;
    var o := FieldOffsets(s);
    SixParts(sig, o.com1, o.com2, o.alpha1, o.opening, o.nonce);
  }

  lemma SixParts(sig: Bytes, a: nat, b: nat, c: nat, d: nat, e: nat)
    requires a <= b <= c <= d <= e <= |sig|
    ensures sig == sig[0..a] + sig[a..b] + sig[b..c] + sig[c..d] + sig[d..e] + sig[e..]
  {
  }

  // ---- sign and verify ----

  method Sign<B(!new), E(!new)>(s: Scheme<B, E>, build: Build, sk: Bytes, msg: Bytes, salt: Bytes, mseed: Bytes, sig: array<Byte>)
    returns (ret: int)
    requires ValidScheme(s) && |sk| == SkSize(s) && |salt| == s.p.saltSize && |mseed| == s.p.seedSize
    requires sig.Length == SigSize(s)
    requires ValidSecret(s, SecretOf(s, sk, salt, mseed))
    requires CanExpand(s.p) ==> Winnable(s.p, SignerHash(s, SkPublic(s, sk), SecretOf(s, sk, salt, mseed), msg))
    modifies sig
    ensures ret == if CanExpand(s.p) then 0 else -1
    ensures ret != 0 ==> sig[..] == old(sig[..])
    ensures ret == 0 ==> sig[..] == Signature(s, SkPublic(s, sk), SecretOf(s, sk, salt, mseed), msg)
  {
    hide FieldLaws;
    hide SystemOf;
    hide SignerHash;
    hide SignedParts;
    hide OpeningSize;
    hide SigSize;
    hide Winnable;
    hide HeadWritten;
    hide Commitments.DeltasKept;
    hide Commitments.RootsKept;
    hide Commitments.TreesKept;
    hide Commitments.RepetitionKept;
    var pk, x := SkPublic(s, sk), sk[PkSize(s)..];
    ghost var c := SecretOf(s, sk, salt, mseed);
    var q;
    ret, q := Expand(s, build, sk[..2 * s.p.seedSize]);
    if ret != 0 {
      return;
    }
    assert pk[..2 * s.p.seedSize] == sk[..2 * s.p.seedSize];
    var key := new Commitments.Key(s.p.tau);
    var com1, com2, alpha1 := Transcript(s, build, pk, mseed, salt, x, q, key);
    var hash := HashTranscript(s, pk, c, com1, com2, msg);
    var opening, nonce := Respond(s, build, c, hash, key);
    WriteSignature(s, pk, c, msg, sig, salt, com1, com2, alpha1, opening, nonce);
    ret := 0;
  }

  method HashTranscript<B, E>(s: Scheme<B, E>, pk: Bytes, ghost c: Secret, com1: Bytes, com2: Bytes, msg: Bytes)
    returns (hash: Bytes)
    requires ValidSecret(s, c) && |pk| == PkSize(s) && com1 == SignerCom1(s, c) && com2 == SignerCom2(s, pk, c)
    ensures hash == SignerHash(s, pk, c, msg)
  {
    hide SignerCom1;
    hide SignerCom2;
    var msgHash := s.p.Hash(2, msg);
    hash := s.p.Hash(4, pk + com1 + com2 + msgHash);
  }

  /** The commitment and the digest of all coefficients, with the serialized alpha1. */
  method Transcript<B(!new), E(!new)>(s: Scheme<B, E>, build: Build, ghost pk: Bytes, mseed: Bytes, salt: Bytes, x: Bytes,
                                      q: System, key: Commitments.Key)
    returns (com1: Bytes, com2: Bytes, alpha1: Bytes)
    requires ValidScheme(s) && ValidSecret(s, Secret(mseed, salt, x)) && |pk| == PkSize(s) && q == PkSystem(s, pk)
    requires key.Shaped(s.p.tau)
    modifies key.Repr()
    ensures com1 == SignerCom1(s, Secret(mseed, salt, x))
    ensures com2 == SignerCom2(s, pk, Secret(mseed, salt, x))
    ensures alpha1 == Concat(EncodeAll(s, SignerAlpha1(s, pk, Secret(mseed, salt, x))))
    ensures |alpha1| == s.p.tau * s.EtaBytes()
    ensures Commitments.KeyHolds(s, Secret(mseed, salt, x), build.memoryEfficient, key, s.p.tau)
  {
    hide FieldLaws;
    hide PkSystem;
    hide SignerAlpha0;
    hide SignerAlpha1;
    hide SignerCom1;
    hide EncodeAll;
    hide Concat;
    hide Commitments.KeyHolds;
    var a0, a1;
    com1, a0, a1 := Prove(s, build, pk, mseed, salt, x, q, key);
    var alpha0 := SerializeAll(s, a0);
    alpha1 := SerializeAll(s, a1);
    EncodeAllLength(s, a1);
    com2 := s.p.Hash(3, alpha0 + alpha1);
  }

  /** Samples the challenge and opens the commitment. */
  method Respond<B, E>(s: Scheme<B, E>, build: Build, ghost c: Secret, hash: Bytes, key: Commitments.Key)
    returns (opening: Bytes, nonce: Bytes)
    requires ValidSecret(s, c) && Winnable(s.p, hash)
    requires Commitments.KeyHolds(s, c, build.memoryEfficient, key, s.p.tau)
    ensures nonce == WinningNonce(s.p, hash) && opening == Opening(s, c, WinningChallenge(s.p, hash))
  {
    hide Opening;
    hide Winnable;
    hide Commitments.DeltasKept;
    hide Commitments.RootsKept;
    hide Commitments.TreesKept;
    hide OpeningSize;
    hide WinningNonce;
    var iStar;
    iStar, nonce := SampleChallenge(s.p, hash);
    var buffer := new Byte[OpeningSize(s)](_ => ZERO_BYTE);
    var ignored := Commitments.Open(s, c, build.memoryEfficient, key, iStar, buffer);
    opening := buffer[..];
  }

  /** Lays out the fields of the signature. */
  method WriteSignature<B(!new), E(!new)>(s: Scheme<B, E>, ghost pk: Bytes, ghost c: Secret, ghost msg: Bytes, sig: array<Byte>,
                                          salt: Bytes, com1: Bytes, com2: Bytes, alpha1: Bytes, opening: Bytes, nonce: Bytes)
    requires ValidScheme(s) && ValidSecret(s, c) && |pk| == PkSize(s) && sig.Length == SigSize(s)
    requires Winnable(s.p, SignerHash(s, pk, c, msg))
    requires salt == c.salt && com1 == SignerCom1(s, c) && com2 == SignerCom2(s, pk, c)
    requires alpha1 == Concat(EncodeAll(s, SignerAlpha1(s, pk, c)))
    requires nonce == WinningNonce(s.p, SignerHash(s, pk, c, msg))
    requires opening == Opening(s, c, WinningChallenge(s.p, SignerHash(s, pk, c, msg)))
    modifies sig
    ensures sig[..] == Signature(s, pk, c, msg)
  {
    hide FieldLaws;
    hide SignerHash;
    hide SignerAlpha1;
    hide SignerCom1;
    hide SignerCom2;
    hide EncodeAll;
    hide Concat;
    hide Opening;
    hide Winnable;
    hide WinningNonce;
    hide HeadWritten;
    hide Parts.Join;
    hide OpeningSize;
    hide SigSize;
    ghost var parts := SignedParts(s, pk, c, msg);
    WriteHead(s, sig, salt, com1, com2, alpha1);
    WriteTail(s, sig, parts, opening, nonce);
  }

  /** The secret key starts with the public key. */
  function SkPublic<B, E>(s: Scheme<B, E>, sk: Bytes): (pk: Bytes)
    requires Sized(s) && |sk| == SkSize(s)
    ensures |pk| == PkSize(s)
  {
    SkHoldsBoth(s);
    sk[..PkSize(s)]
  }

  function SecretOf<B, E>(s: Scheme<B, E>, sk: Bytes, salt: Bytes, mseed: Bytes): Secret
    requires Sized(s) && |sk| == SkSize(s)
  {
    SkHoldsBoth(s);
    Secret(mseed, salt, sk[PkSize(s)..])
  }

  method Verify<B, E>(s: Scheme<B, E>, build: Build, pk: Bytes, msg: Bytes, sig: Bytes) returns (ret: int)
    requires Sized(s) && |pk| == PkSize(s) && |sig| == SigSize(s)
    ensures ret == if CanExpand(s.p) && Accepts(s, pk, msg, sig) then 0 else -1
  {
    hide SystemOf;
    hide VerifierCom1;
    hide VerifierAlpha0;
    hide EncodeAll;
    hide Concat;
    hide IStar;
    hide GrindingValue;
    hide Draw;
    hide Parse;
    hide SigSize;
    var q;
    ret, q := Expand(s, build, pk[..2 * s.p.seedSize]);
    if ret != 0 {
      return;
    }
    var f := Parse(s, sig);
    var hash := s.p.Hash(4, pk + f.com1 + f.com2 + s.p.Hash(2, msg));
    var tmp := Draw(s.p, hash, f.nonce);
    assert tmp == VerifierDraw(s.p, pk, msg, f);
    var iStar, val := ReadChallenge(s.p, tmp);
    if val != 0 {
      return -1;
    }
    var alpha0;
    ret, alpha0 := Recompute(s, build, pk, f, q, iStar);
    if ret != 0 {
      return;
    }
    var alpha0Bytes := SerializeAll(s, alpha0);
    var com2' := s.p.Hash(3, alpha0Bytes + f.alpha1);
    ret := if f.com2 != com2' then -1 else 0;
  }

  /** The verifier's alpha0, once its commitment has been recomputed. */
  method Recompute<B, E>(s: Scheme<B, E>, build: Build, pk: Bytes, f: Parts, q: System, iStar: seq<nat>)
    returns (ret: int, alpha0: seq<seq<E>>)
    requires Sized(s) && |pk| == PkSize(s) && PartsFit(s, f) && q == PkSystem(s, pk) && ValidChallenge(s.p, iStar)
    ensures ret == if f.com1 == VerifierCom1(s, f.salt, f.opening, iStar) then 0 else -1
    ensures ret == 0 ==> alpha0 == VerifierAlpha0(s, pk, f, iStar)
  {
    hide PkSystem;
    hide VerifierCom1;
    hide VerifierX;
    hide VerifierU;
    hide RecomputedAlpha0;
    hide ParseAlphas;
    hide OpeningSize;
    alpha0 := [];
    var xEval := new seq<E>[s.p.tau](_ => []);
    var uEval := new seq<E>[s.p.tau](_ => []);
    ret := Commitments.Eval(s, build.keyCache, f.salt, f.com1, f.opening, iStar, xEval, uEval);
    if ret != 0 {
      return;
    }
    var alpha1 := ParseAlphas(s, f.alpha1);
    var y := PkValues(s, pk);
    var out := new seq<E>[s.p.tau](_ => []);
    ret := Proofs.RecomputePAlpha(s, f.com1, alpha1, iStar, xEval[..], uEval[..], q, y, out);
    alpha0 := out[..];
  }

  // ---- messages with their signatures ----

  /** The message followed by its signature, in one buffer. */
  method CryptoSign<B(!new), E(!new)>(s: Scheme<B, E>, build: Build, sk: Bytes, m: Bytes, salt: Bytes, mseed: Bytes, sm: array<Byte>)
    returns (ret: int, smlen: nat)
    requires ValidScheme(s) && |sk| == SkSize(s) && |salt| == s.p.saltSize && |mseed| == s.p.seedSize
    requires sm.Length == |m| + SigSize(s)
    requires ValidSecret(s, SecretOf(s, sk, salt, mseed))
    requires CanExpand(s.p) ==> Winnable(s.p, SignerHash(s, SkPublic(s, sk), SecretOf(s, sk, salt, mseed), m))
    modifies sm
    ensures ret == if CanExpand(s.p) then 0 else -1
    ensures ret == 0 ==> smlen == |m| + SigSize(s)
    ensures ret == 0 ==> sm[..] == m + Signature(s, SkPublic(s, sk), SecretOf(s, sk, salt, mseed), m)
  {
    hide FieldLaws;
    hide SignerHash;
    hide Signature;
    hide Winnable;
    hide SigSize;
    smlen := 0;
    Store(sm, 0, m);
    var sig := new Byte[SigSize(s)](_ => ZERO_BYTE);
    ret := Sign(s, build, sk, m, salt, mseed, sig);
    if ret != 0 {
      return;
    }
    Store(sm, |m|, sig[..]);
    smlen := SigSize(s);
    smlen := smlen + |m|;
  }

  /** Splits off the signature at the end and hands out the message if it verifies. */
  method CryptoSignOpen<B, E>(s: Scheme<B, E>, build: Build, sm: Bytes, pk: Bytes, m: array<Byte>) returns (ret: int, mlen: nat)
    requires Sized(s) && |pk| == PkSize(s)
    requires |sm| >= SigSize(s) ==> m.Length >= |sm| - SigSize(s)
    modifies m
    ensures ret == if |sm| >= SigSize(s) && CanExpand(s.p) && Accepts(s, pk, sm[..|sm| - SigSize(s)], sm[|sm| - SigSize(s)..])
                   then 0 else -1
    ensures ret == 0 ==> mlen == |sm| - SigSize(s) && m[..mlen] == sm[..mlen]
    ensures ret != 0 ==> m[..] == old(m[..])
  {
    hide Accepts;
    hide SigSize;
    mlen := 0;
    if |sm| < SigSize(s) {
      return -1, 0;
    }
    mlen := |sm| - SigSize(s);
    ret := Verify(s, build, pk, sm[..mlen], sm[mlen..]);
    if ret != 0 {
      return;
    }
    Store(m, 0, sm[..mlen]);
  }

  /** A generated key signs any message so that opening the result gives the message back. */
  method SignThenOpen<B(!new), E(!new)>(s: Scheme<B, E>, signer: Build, verifier: Build, seedKey: Bytes, m: Bytes,
                                        salt: Bytes, mseed: Bytes) returns (ret: int, message: Bytes)
    requires ValidScheme(s) && CanExpand(s.p)
    requires |seedKey| == 2 * s.p.seedSize && |salt| == s.p.saltSize && |mseed| == s.p.seedSize
    requires Winnable(s.p, SignerHash(s, PublicKey(s, seedKey), Secret(mseed, salt, KeyX(s, seedKey)), m))
    ensures ret == 0 && message == m
  {
    hide FieldLaws;
    hide PublicKey;
    hide KeyX;
    hide SignerHash;
    hide Signature;
    hide Accepts;
    hide Winnable;
    hide SigSize;
    var sk := new Byte[SkSize(s)](_ => ZERO_BYTE);
    var pk := new Byte[PkSize(s)](_ => ZERO_BYTE);
    ret := Generate(s, signer.keyCache, seedKey, sk, pk);
    KeyParts(s, seedKey, salt, mseed);
    var sm := new Byte[|m| + SigSize(s)](_ => ZERO_BYTE);
    var smlen, mlen;
    ret, smlen := CryptoSign(s, signer, sk[..], m, salt, mseed, sm);
    Completeness(s, seedKey, mseed, salt, m);
    ghost var sig := Signature(s, PublicKey(s, seedKey), Secret(mseed, salt, KeyX(s, seedKey)), m);
    assert sm[..][..|m|] == m && sm[..][|m|..] == sig;
    var out := new Byte[|m|](_ => ZERO_BYTE);
    ret, mlen := CryptoSignOpen(s, verifier, sm[..], pk[..], out);
    message := out[..];
  }

  lemma KeyParts<B, E>(s: Scheme<B, E>, seedKey: Bytes, salt: Bytes, mseed: Bytes)
    requires Sized(s)
    ensures SkPublic(s, SecretKey(s, seedKey)) == PublicKey(s, seedKey)
    ensures SecretOf(s, SecretKey(s, seedKey), salt, mseed) == Secret(mseed, salt, KeyX(s, seedKey))
  {
    hide PublicKey;
    hide KeyX;
  }
}
