/** The in-place byte procedures shared by all components, over buffers that may overlap. */
module CommonProcedures {
  import opened ByteStrings
  import opened Common

  method TweakSaltInto(salt: array<Byte>, tweaked: array<Byte>, sel: nat, e: nat, j: nat)
    requires salt.Length == tweaked.Length >= 3
    modifies tweaked
    ensures tweaked[..] == TweakSalt(old(salt[..]), sel, e, j)
  {
    Store(tweaked, 0, salt[..]);
    tweaked[0] := tweaked[0].Plus(Truncate(sel + 4 * (e % 256)));
    tweaked[1] := tweaked[1].Plus(Truncate(j));
    tweaked[2] := tweaked[2].Plus(Truncate(j / 256));
  }

  /** The halves are swapped by copying, and the first is then masked byte by byte. */
  method LinOrthoInto(seed: array<Byte>, out: array<Byte>)
    requires seed != out && seed.Length == out.Length && seed.Length % 2 == 0
    modifies out
    ensures out[..] == LinOrtho(seed[..])
  {
    hide Byte.Plus;
    ghost var s, half := seed[..], seed.Length / 2;
    Store(out, 0, seed[seed.Length / 2..]);
    Store(out, seed.Length / 2, seed[..seed.Length / 2]);
    for i := 0 to seed.Length / 2
      invariant forall k | 0 <= k < i :: out[k] == s[half + k].Plus(s[k])
      invariant forall k | i <= k < half :: out[k] == s[half + k]
      invariant out[half..] == s[..half]
    {
      out[i] := out[i].Plus(seed[i]);
    }
    LinOrthoHalves(s, out[..]);
  }

  lemma LinOrthoHalves(s: Bytes, r: Bytes)
    requires |s| == |r| && |s| % 2 == 0 && r[|s| / 2..] == s[..|s| / 2]
    requires forall k | 0 <= k < |s| / 2 :: r[k] == s[|s| / 2 + k].Plus(s[k])
    ensures r == LinOrtho(s)
  {
    hide Byte.Plus;
    var half := |s| / 2;
    assert r == r[..half] + r[half..];
    assert r[..half] == Xor(s[half..], s[..half]);
  }

  /** Exclusive-or of two blocks, a word of eight bytes at a time; the result may overwrite either of them. */
  method XorBlocks(a: array<Byte>, b: array<Byte>, out: array<Byte>)
    requires a.Length == b.Length == out.Length && out.Length % 8 == 0
    modifies out
    ensures out[..] == Xor(old(a[..]), old(b[..]))
  {
    hide Byte.Plus;
    var s0, s1 := a[..], b[..];
    var s2 := new Byte[out.Length];
    for i := 0 to out.Length / 8
      invariant forall k | 0 <= k < 8 * i :: s2[k] == s0[k].Plus(s1[k])
    {
      forall k | 8 * i <= k < 8 * i + 8 {
        s2[k] := s0[k].Plus(s1[k]);
      }
    }
    Store(out, 0, s2[..]);
  }
}
