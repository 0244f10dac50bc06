/** Buffers made of equally long pieces laid end to end. */
module Layout {
  import opened Naturals

  ghost predicate AllLength<T>(parts: seq<seq<T>>, size: nat) {
    forall i | 0 <= i < |parts| :: |parts[i]| == size
  }

  function Concat<T>(parts: seq<seq<T>>): seq<T> {
    if |parts| == 0 then [] else Concat(parts[..|parts| - 1]) + parts[|parts| - 1]
  }

  /** Piece k of a buffer of pieces of the given size. */
  function Piece<T>(s: seq<T>, size: nat, k: nat): (r: seq<T>)
    requires (k + 1) * size <= |s|
    ensures |r| == size
  {
    assert (k + 1) * size == k * size + size;
    s[k * size..k * size + size]
  }

  function Pieces<T>(s: seq<T>, size: nat, n: nat): (r: seq<seq<T>>)
    requires n * size <= |s|
    ensures |r| == n && AllLength(r, size)
  {
    seq(n, k requires 0 <= k < n => PieceInside(size, k, n); Piece(s, size, k))
  }

  lemma PieceInside(size: nat, k: nat, n: nat)
    requires k < n
    ensures (k + 1) * size <= n * size
  {
    MulMono(k + 1, n, size);
  }

  lemma {:induction false} ConcatLength<T>(parts: seq<seq<T>>, size: nat)
    requires AllLength(parts, size)
    ensures |Concat(parts)| == |parts| * size
  {
    if |parts| > 0 {
      ConcatLength(parts[..|parts| - 1], size);
      assert |parts| * size == (|parts| - 1) * size + size;
    }
  }

  lemma ConcatSnoc<T>(parts: seq<seq<T>>, last: seq<T>)
    ensures Concat(parts + [last]) == Concat(parts) + last
  {
    assert (parts + [last])[..|parts|] == parts;
  }

  /** A buffer of pieces gives its pieces back, whatever follows it. */
  lemma {:induction false} PiecesOfConcat<T>(parts: seq<seq<T>>, size: nat, rest: seq<T>)
    requires AllLength(parts, size)
    ensures |parts| * size <= |Concat(parts) + rest|
    ensures Pieces(Concat(parts) + rest, size, |parts|) == parts
  {
    ConcatLength(parts, size);
    if |parts| > 0 {
      var n := |parts| - 1;
      var front, last := parts[..n], parts[n];
      PiecesOfConcat(front, size, last + rest);
      assert Concat(parts) + rest == Concat(front) + (last + rest);
      ConcatLength(front, size);
      var s := Concat(parts) + rest;
      PieceInside(size, n, n + 1);
      forall k | 0 <= k < |parts| ensures Pieces(s, size, |parts|)[k] == parts[k] {
        PieceInside(size, k, n + 1);
        if k < n {
          assert Pieces(s, size, n)[k] == front[k];
        } else {
          assert Piece(s, size, n) == last;
        }
      }
    }
  }

  /** Pieces put end to end give back the stretch they were cut from. */
  lemma {:induction false} ConcatOfPieces<T>(s: seq<T>, size: nat, n: nat)
    requires n * size <= |s|
    ensures Concat(Pieces(s, size, n)) == s[..n * size]
  {
    if n > 0 {
      PieceInside(size, n - 1, n);
      assert n * size == (n - 1) * size + size;
      ConcatOfPieces(s, size, n - 1);
      assert Pieces(s, size, n)[..n - 1] == Pieces(s, size, n - 1);
    }
  }
}
