/** Which heap positions lie between the root and a leaf. */
module TreePaths {
  import opened Naturals

  /** i ^ 1. */
  function Sib(i: nat): nat
    requires i >= 1
  {
    if i % 2 == 0 then i + 1 else i - 1
  }

  lemma SibSib(i: nat)
    requires i >= 2
    ensures Sib(i) >= 2 && Sib(Sib(i)) == i
  {
  }

  /** k is `leaf` or one of its ancestors. */
  predicate OnPath(leaf: nat, k: nat)
    requires k >= 1
  {
    leaf == k || (leaf > k && OnPath(leaf / 2, k))
  }

  /** How many halvings lead from `leaf` to k. */
  function Dist(leaf: nat, k: nat): nat
    requires k >= 1 && OnPath(leaf, k)
  {
    if leaf == k then 0 else 1 + Dist(leaf / 2, k)
  }

  lemma {:induction false} OnPathIsShift(leaf: nat, k: nat)
    requires k >= 1 && OnPath(leaf, k)
    ensures ShiftRight(leaf, Dist(leaf, k)) == k
    ensures k * Pow2(Dist(leaf, k)) <= leaf
  {
    if leaf != k {
      OnPathIsShift(leaf / 2, k);
    }
  }

  lemma {:induction false} ShiftIsOnPath(leaf: nat, d: nat)
    requires ShiftRight(leaf, d) >= 1
    ensures OnPath(leaf, ShiftRight(leaf, d)) && Dist(leaf, ShiftRight(leaf, d)) == d
  {
    if d > 0 {
      ShiftIsOnPath(leaf / 2, d - 1);
      ShiftBelow(leaf / 2, d - 1);
    }
  }

  lemma {:induction false} ShiftBelow(x: nat, d: nat)
    ensures ShiftRight(x, d) <= x
  {
    if d > 0 {
      ShiftBelow(x / 2, d - 1);
    }
  }

  lemma {:induction false} RootOnPath(leaf: nat)
    requires leaf >= 1
    ensures OnPath(leaf, 1)
  {
    if leaf > 1 {
      RootOnPath(leaf / 2);
    }
  }

  /** A proper ancestor has exactly one child on the path, one halving closer to the leaf. */
  lemma {:induction false} OneChildOnPath(leaf: nat, k: nat)
    requires k >= 1 && leaf > k && OnPath(leaf, k)
    ensures OnPath(leaf, 2 * k) != OnPath(leaf, 2 * k + 1)
    ensures OnPath(leaf, 2 * k) ==> Dist(leaf, 2 * k) + 1 == Dist(leaf, k)
    ensures OnPath(leaf, 2 * k + 1) ==> Dist(leaf, 2 * k + 1) + 1 == Dist(leaf, k)
  {
    if leaf / 2 == k {
      assert leaf == 2 * k || leaf == 2 * k + 1;
    } else {
      OneChildOnPath(leaf / 2, k);
    }
  }

  lemma {:induction false} ParentOnPath(leaf: nat, k: nat)
    requires k >= 2 && OnPath(leaf, k)
    ensures OnPath(leaf, k / 2) && Dist(leaf, k / 2) == Dist(leaf, k) + 1
  {
    if leaf != k {
      ParentOnPath(leaf / 2, k);
    } else {
      assert OnPath(leaf / 2, k / 2);
    }
  }

  /** Below the root, the path to a leaf of a tree of depth `log` is shorter than `log`. */
  lemma DistBelowLog(leaf: nat, k: nat, log: nat)
    requires k >= 2 && OnPath(leaf, k) && leaf < Pow2(log + 1)
    ensures Dist(leaf, k) < log
  {
    OnPathIsShift(leaf, k);
    var d := Dist(leaf, k);
    MulMono(2, k, Pow2(d));
    assert Pow2(d + 1) <= leaf;
    Pow2Increasing(log + 1, d + 1);
  }

  lemma {:induction false} Pow2Increasing(a: nat, b: nat)
    ensures a <= b ==> Pow2(a) <= Pow2(b)
  {
    if a < b {
      Pow2Increasing(a, b - 1);
    }
  }

  // ---- levels ----

  function Level(k: nat): nat
    requires k >= 1
  {
    if k == 1 then 0 else 1 + Level(k / 2)
  }

  lemma {:induction false} LevelOf(k: nat, j: nat)
    requires Pow2(j) <= k < 2 * Pow2(j)
    ensures Level(k) == j
  {
    if j > 0 {
      LevelOf(k / 2, j - 1);
    }
  }

  /** The ancestor of a leaf on level j, for a leaf on level j + d. */
  lemma {:induction false} AncestorLevel(leaf: nat, j: nat, d: nat)
    requires Pow2(j + d) <= leaf < 2 * Pow2(j + d)
    ensures Pow2(j) <= ShiftRight(leaf, d) < 2 * Pow2(j)
  {
    if d > 0 {
      AncestorLevel(leaf / 2, j, d - 1);
    }
  }
}
