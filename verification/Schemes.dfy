/** One MQOM instance: its parameters together with its pair of fields. */
module Schemes {
  import opened ByteStrings
  import opened Fields
  import opened Common

  datatype Scheme<!B, !E> = Scheme(p: Params, f: Field<B, E>)
  {
    /** Bytes of a packed vector of n unknowns. */
    function XBytes(): nat
      requires f.perByte > 0
    {
      f.BaseBytes(p.n)
    }

    /** Bytes of a packed vector of m equation values. */
    function YBytes(): nat
      requires f.perByte > 0
    {
      f.BaseBytes(p.m)
    }

    /** Serialized bytes of a vector of eta extension elements. */
    function EtaBytes(): nat { p.eta * f.extBytes }
  }

  /** The sizes that packing and serialization ask for; every parameter set meets them. */
  ghost predicate Sized<B, E>(s: Scheme<B, E>) {
    && s.p.Valid()
    && (s.f.perByte == 1 || s.f.perByte == 8)
    && s.p.n % s.f.perByte == 0
    && s.p.m % s.f.perByte == 0
    && s.p.seedSize <= s.f.BaseBytes(s.p.n)
    && s.p.mu > 0 && s.p.m % s.p.mu == 0
    && s.p.mu == s.f.perByte * s.f.extBytes
    && (!s.p.batching ==> s.p.eta == s.p.m / s.p.mu)
  }

  ghost predicate ValidScheme<B(!new), E(!new)>(s: Scheme<B, E>) {
    Sized(s) && FieldLaws(s.f)
  }
}
