/**
 * The correlated GGM tree: the nodes it stands for, the in-place procedures that expand
 * it in full, along one path, or from all siblings of one path, and what they agree on.
 */
module GgmTree {
  import opened ByteStrings
  import opened Naturals
  import opened TreePaths
  import opened Common

  // ---- the tree the procedures stand for ----

  /** The expanded key shared by all derivations from level j, j >= 1. */
  function LevelCtx(p: Params, salt: Bytes, e: nat, j: nat): EncCtx
    requires |salt| >= 3 && j >= 1
  {
    p.KeySched(TweakSalt(salt, 2, e, j - 1))
  }

  datatype Tree = Tree(p: Params, salt: Bytes, rseed: Bytes, delta: Bytes, e: nat)
  {
    ghost predicate Valid() {
      p.Valid() && |salt| == p.saltSize && |rseed| == p.seedSize && |delta| == p.seedSize
    }

    /** Node k in heap order; the unused root stands for delta. */
    function Node(k: nat): (s: Bytes)
      requires Valid() && k >= 1
      ensures |s| == p.seedSize
    {
      if k == 1 then delta
      else if k % 2 == 1 then Xor(Node(k - 1), Node(k / 2))
      else if k == 2 then rseed
      else Derive(p, LevelCtx(p, salt, e, Level(k / 2)), Node(k / 2))
    }

    function Leaf(i: nat): (s: Bytes)
      requires Valid()
      ensures |s| == p.seedSize
    {
      Node(p.NbEvals() + i)
    }

    function Leaves(): (s: seq<Bytes>)
      requires Valid()
      ensures |s| == p.NbEvals()
    {
      seq(p.NbEvals(), i requires 0 <= i < p.NbEvals() => Leaf(i))
    }

    /** The siblings on the way from leaf iStar to the root, lowest first. */
    function Path(iStar: nat): (s: seq<Bytes>)
      requires Valid() && iStar < p.NbEvals()
      ensures |s| == p.log
    {
      seq(p.log, j requires 0 <= j < p.log => PathEntry(iStar, j))
    }

    function PathEntry(iStar: nat, j: nat): (s: Bytes)
      requires Valid() && iStar < p.NbEvals() && j < p.log
      ensures |s| == p.seedSize
    {
      OnTheWay(p.log, iStar, j);
      Node(Sib(ShiftRight(p.NbEvals() + iStar, j)))
    }
  }

  /** The ancestors of a leaf, the leaf included, stay below the root for `log` halvings. */
  lemma OnTheWay(log: nat, iStar: nat, j: nat)
    requires iStar < Pow2(log) && j < log
    ensures 2 <= ShiftRight(Pow2(log) + iStar, j) < 2 * Pow2(log)
  {
    AncestorLevel(Pow2(log) + iStar, log - j, j);
    Pow2Increasing(1, log - j);
    Pow2Increasing(log - j, log);
  }

  lemma {:induction false} ShiftIsQuotient(x: nat, j: nat)
    ensures ShiftRight(x, j) == x / Pow2(j)
  {
    if j > 0 {
      ShiftIsQuotient(x / 2, j - 1);
      var d, q := Pow2(j - 1), x / 2 / Pow2(j - 1);
      DivMulBound(x / 2, d);
      assert q * (2 * d) == 2 * (q * d);
      QuotientUnique(x, 2 * d, q);
    }
  }

  lemma Neighbour(log: nat, iStar: nat, j: nat, k: nat)
    requires iStar < Pow2(log) && j < log && k == (Pow2(log) + iStar) / Pow2(j)
    ensures k >= 2 && ShiftRight(Pow2(log) + iStar, j) == k && Sib(k) == if k % 2 == 0 then k + 1 else k - 1
  {
    ShiftIsQuotient(Pow2(log) + iStar, j);
    OnTheWay(log, iStar, j);
  }

  lemma PathEntrySibling(t: Tree, iStar: nat, j: nat, k: nat)
    requires t.Valid() && iStar < t.p.NbEvals() && j < t.p.log && k >= 2 && ShiftRight(Pow2(t.p.log) + iStar, j) == k
    ensures t.Path(iStar)[j] == t.Node(Sib(k))
  {
    hide Tree.Node;
    hide Sib;
    hide ShiftRight;
    assert t.Path(iStar)[j] == t.PathEntry(iStar, j);
  }

  /** Entry j of a path is the neighbour of the leaf's ancestor j levels up. */
  lemma PathEntryNode(t: Tree, iStar: nat, j: nat, k: nat)
    requires t.Valid() && iStar < t.p.NbEvals() && j < t.p.log && k == (Pow2(t.p.log) + iStar) / Pow2(j)
    ensures k >= 2 && t.Path(iStar)[j] == t.Node(if k % 2 == 0 then k + 1 else k - 1)
  {
    Neighbour(t.p.log, iStar, j, k);
    PathEntrySibling(t, iStar, j, k);
    hide *;
  }

  // ---- conservation ----

  /** The exclusive-or of nodes [from, from + count). */
  function NodeXor(t: Tree, from: nat, count: nat): (s: Bytes)
    requires t.Valid() && from >= 1
    ensures |s| == t.p.seedSize
  {
    if count == 0 then Zeros(t.p.seedSize) else Xor(NodeXor(t, from, count - 1), t.Node(from + count - 1))
  }

  lemma RightChild(t: Tree, k: nat, l: nat, r: nat)
    requires t.Valid() && k >= 1 && l == 2 * k && r == l + 1
    ensures t.Node(r) == Xor(t.Node(l), t.Node(k))
  {
    hide Xor;
    hide Derive;
    assert r / 2 == k && r % 2 == 1;
  }

  /** The two children of a node add up to it. */
  lemma ChildrenXor(t: Tree, k: nat, l: nat, r: nat)
    requires t.Valid() && k >= 1 && l == 2 * k && r == l + 1
    ensures Xor(t.Node(l), t.Node(r)) == t.Node(k)
  {
    RightChild(t, k, l, r);
    XorCancel(t.Node(k), t.Node(l));
  }

  lemma {:induction false} HalvingKeepsXor(t: Tree, k: nat, c: nat, from: nat, count: nat)
    requires t.Valid() && k >= 1 && from == 2 * k && count == 2 * c
    ensures NodeXor(t, from, count) == NodeXor(t, k, c)
  {
    hide Tree.Node;
    hide Xor;
    hide Derive;
    if c > 0 {
      HalvingKeepsXor(t, k, c - 1, from, count - 2);
      var i, l, r := k + c - 1, from + count - 2, from + count - 1;
      var sum := NodeXor(t, from, count - 2);
      assert NodeXor(t, from, count - 1) == Xor(sum, t.Node(l));
      assert NodeXor(t, from, count) == Xor(Xor(sum, t.Node(l)), t.Node(r));
      XorAssoc(sum, t.Node(l), t.Node(r));
      ChildrenXor(t, i, l, r);
    }
  }

  /** Every level of the tree adds up to delta. */
  lemma {:induction false} LevelXor(t: Tree, j: nat)
    requires t.Valid()
    ensures NodeXor(t, Pow2(j), Pow2(j)) == t.delta
  {
    hide Xor;
    hide Derive;
    if j == 0 {
      assert NodeXor(t, 1, 1) == Xor(Zeros(t.p.seedSize), t.Node(1));
      XorZero(t.delta);
    } else {
      LevelXor(t, j - 1);
      HalvingKeepsXor(t, Pow2(j - 1), Pow2(j - 1), Pow2(j), Pow2(j));
    }
  }

  // ---- all leaves but one, from a path ----

  /** A path of sibling seeds, from anyone, for the hidden leaf `leaf` (a heap position). */
  datatype Punctured = Punctured(p: Params, salt: Bytes, e: nat, path: seq<Bytes>, leaf: nat)
  {
    ghost predicate Valid() {
      && p.Valid() && |salt| == p.saltSize && |path| == p.log
      && (forall j | 0 <= j < p.log :: |path[j]| == p.seedSize)
      && p.NbEvals() <= leaf < 2 * p.NbEvals()
    }

    /** Positions of the tree whose seed the path determines. */
    predicate Visible(k: nat) { 2 <= k < 2 * p.NbEvals() && !OnPath(leaf, k) }

    function Seed(k: nat): (s: Bytes)
      requires Valid() && Visible(k)
      ensures |s| == p.seedSize
      decreases k
    {
      if OnPath(leaf, Sib(k)) then
        DistBelowLog(leaf, Sib(k), p.log);
        path[Dist(leaf, Sib(k))]
      else
        VisibleParent(this, k);
        if k % 2 == 1 then Xor(Seed(k - 1), Seed(k / 2))
        else Derive(p, LevelCtx(p, salt, e, Level(k / 2)), Seed(k / 2))
    }

    /** Leaf i, or zero where it is hidden. */
    function LeafOrZero(i: nat): (s: Bytes)
      requires Valid() && i < p.NbEvals()
      ensures |s| == p.seedSize
    {
      var k := p.NbEvals() + i;
      if k == leaf then Zeros(p.seedSize)
      else
        OtherLeafVisible(leaf, k, p.log);
        Seed(k)
    }

    function Leaves(): (s: seq<Bytes>)
      requires Valid()
      ensures |s| == p.NbEvals()
    {
      seq(p.NbEvals(), i requires 0 <= i < p.NbEvals() => LeafOrZero(i))
    }
  }

  lemma VisibleParent(v: Punctured, k: nat)
    requires v.Valid() && v.Visible(k) && !OnPath(v.leaf, Sib(k))
    ensures v.Visible(k / 2) && k >= 4
    ensures Level(k / 2) >= 1
    ensures v.Visible(Sib(k))
  {
    if OnPath(v.leaf, k / 2) {
      OneChildOnPath(v.leaf, k / 2);
    }
    RootOnPath(v.leaf);
  }

  lemma OtherLeafVisible(leaf: nat, k: nat, log: nat)
    requires Pow2(log) <= leaf < 2 * Pow2(log) && Pow2(log) <= k < 2 * Pow2(log) && k != leaf
    ensures !OnPath(leaf, k)
  {
    OnPathTooShort(leaf / 2, k);
  }

  lemma OnPathTooShort(leaf: nat, k: nat)
    requires k >= 1 && leaf < k
    ensures !OnPath(leaf, k)
  {
  }

  lemma NodeStep(t: Tree, k: nat)
    requires t.Valid() && k >= 4
    ensures Level(k / 2) >= 1
    ensures t.Node(k) == if k % 2 == 1 then Xor(t.Node(k - 1), t.Node(k / 2))
                         else Derive(t.p, LevelCtx(t.p, t.salt, t.e, Level(k / 2)), t.Node(k / 2))
  {
    hide Xor;
    hide Derive;
  }

  lemma SeedStep(v: Punctured, k: nat)
    requires v.Valid() && v.Visible(k)
    ensures OnPath(v.leaf, Sib(k)) ==> Dist(v.leaf, Sib(k)) < v.p.log && v.Seed(k) == v.path[Dist(v.leaf, Sib(k))]
    ensures !OnPath(v.leaf, Sib(k)) ==>
              && k >= 4 && v.Visible(k / 2) && Level(k / 2) >= 1 && v.Visible(Sib(k))
              && v.Seed(k) == if k % 2 == 1 then Xor(v.Seed(Sib(k)), v.Seed(k / 2))
                              else Derive(v.p, LevelCtx(v.p, v.salt, v.e, Level(k / 2)), v.Seed(k / 2))
  {
    hide Xor;
    hide Derive;
    if OnPath(v.leaf, Sib(k)) {
      DistBelowLog(v.leaf, Sib(k), v.p.log);
    } else {
      VisibleParent(v, k);
    }
  }

  /** What remains of a tree once leaf iStar is hidden. */
  function Puncture(t: Tree, iStar: nat): (v: Punctured)
    requires t.Valid() && iStar < t.p.NbEvals()
    ensures v.Valid()
    ensures v.p == t.p && v.leaf == t.p.NbEvals() + iStar
  {
    Punctured(t.p, t.salt, t.e, t.Path(iStar), t.p.NbEvals() + iStar)
  }

  lemma HonestEntry(t: Tree, iStar: nat, k: nat)
    requires t.Valid() && iStar < t.p.NbEvals()
    requires Puncture(t, iStar).Visible(k) && OnPath(t.p.NbEvals() + iStar, Sib(k))
    ensures Puncture(t, iStar).Seed(k) == t.Node(k)
  {
    hide Tree.Node;
    hide Punctured.Seed;
    hide OnPath;
    hide Sib;
    hide Dist;
    hide Xor;
    hide Derive;
    SibSib(k);
    SeedStep(Puncture(t, iStar), k);
    OnPathIsShift(t.p.NbEvals() + iStar, Sib(k));
    assert t.Path(iStar)[Dist(t.p.NbEvals() + iStar, Sib(k))]
        == t.PathEntry(iStar, Dist(t.p.NbEvals() + iStar, Sib(k)));
  }

  /** On the path of an honest tree, every visible seed is the tree's own node. */
  lemma {:induction false} HonestSeed(t: Tree, iStar: nat, k: nat)
    requires t.Valid() && iStar < t.p.NbEvals()
    requires Puncture(t, iStar).Visible(k)
    ensures Puncture(t, iStar).Seed(k) == t.Node(k)
    decreases k
  {
    hide Xor;
    hide Derive;
    hide Tree.Node;
    hide Tree.Path;
    hide Punctured.Seed;
    hide OnPath;
    if OnPath(t.p.NbEvals() + iStar, Sib(k)) {
      HonestEntry(t, iStar, k);
    } else {
      SeedStep(Puncture(t, iStar), k);
      NodeStep(t, k);
      HonestSeed(t, iStar, k / 2);
      if k % 2 == 1 {
        HonestSeed(t, iStar, Sib(k));
      }
    }
  }

  /** The verifier's leaves are the signer's, except for the hidden one, which is zero. */
  lemma HonestLeaves(t: Tree, iStar: nat)
    requires t.Valid() && iStar < t.p.NbEvals()
    ensures Puncture(t, iStar).Leaves() == t.Leaves()[iStar := Zeros(t.p.seedSize)]
  {
    hide Tree.Node;
    hide Punctured.Seed;
    var v := Puncture(t, iStar);
    forall i | 0 <= i < t.p.NbEvals()
      ensures v.Leaves()[i] == t.Leaves()[iStar := Zeros(t.p.seedSize)][i]
    {
      if i != iStar {
        OtherLeafVisible(v.leaf, t.p.NbEvals() + i, t.p.log);
        HonestSeed(t, iStar, t.p.NbEvals() + i);
      }
    }
  }

  // ---- conservation for any path, honest or not ----

  function SeedOrZero(v: Punctured, k: nat): (s: Bytes)
    requires v.Valid() && 1 <= k < 2 * v.p.NbEvals()
    ensures |s| == v.p.seedSize
  {
    RootOnPath(v.leaf);
    if OnPath(v.leaf, k) then Zeros(v.p.seedSize) else v.Seed(k)
  }

  function SeedXor(v: Punctured, from: nat, count: nat): (s: Bytes)
    requires v.Valid() && from >= 1 && from + count <= 2 * v.p.NbEvals()
    ensures |s| == v.p.seedSize
  {
    if count == 0 then Zeros(v.p.seedSize) else Xor(SeedXor(v, from, count - 1), SeedOrZero(v, from + count - 1))
  }

  /** The exclusive-or of the top `levels` entries of the path. */
  function PathXor(v: Punctured, levels: nat): (s: Bytes)
    requires v.Valid() && levels <= v.p.log
    ensures |s| == v.p.seedSize
  {
    if levels == 0 then Zeros(v.p.seedSize) else Xor(PathXor(v, levels - 1), v.path[v.p.log - levels])
  }

  lemma RightSeed(v: Punctured, k: nat, l: nat, r: nat)
    requires v.Valid() && v.Visible(k) && k < v.p.NbEvals() && l == 2 * k && r == l + 1
    ensures v.Visible(l) && v.Visible(r)
    ensures v.Seed(r) == Xor(v.Seed(l), v.Seed(k))
  {
    assert l / 2 == k && r / 2 == k && r % 2 == 1 && Sib(r) == l && Sib(l) == r;
    if OnPath(v.leaf, l) {
      ParentOnPath(v.leaf, l);
    }
    if OnPath(v.leaf, r) {
      ParentOnPath(v.leaf, r);
    }
  }

  /** A visible parent is the sum of its children. */
  lemma VisibleChildren(v: Punctured, k: nat, l: nat, r: nat)
    requires v.Valid() && v.Visible(k) && k < v.p.NbEvals() && l == 2 * k && r == l + 1
    ensures Xor(SeedOrZero(v, l), SeedOrZero(v, r)) == v.Seed(k)
  {
    RightSeed(v, k, l, r);
    XorCancel(v.Seed(k), v.Seed(l));
  }

  /** The children of a hidden node add up to the path entry next to it. */
  lemma HiddenChildren(v: Punctured, k: nat, l: nat, r: nat)
    requires v.Valid() && 1 <= k < v.p.NbEvals() && OnPath(v.leaf, k) && l == 2 * k && r == l + 1
    ensures 0 < Dist(v.leaf, k) <= v.p.log
    ensures Xor(SeedOrZero(v, l), SeedOrZero(v, r)) == v.path[Dist(v.leaf, k) - 1]
  {
    assert l % 2 == 0 && r % 2 == 1 && Sib(r) == l && Sib(l) == r;
    OneChildOnPath(v.leaf, k);
    if OnPath(v.leaf, l) {
      DistBelowLog(v.leaf, l, v.p.log);
      XorZero(v.path[Dist(v.leaf, l)]);
    } else {
      DistBelowLog(v.leaf, r, v.p.log);
      XorZero(v.path[Dist(v.leaf, r)]);
    }
  }

  /** Going one level down adds exactly the path entry below the hidden node a, once a is passed. */
  lemma {:induction false} SeedXorDown(v: Punctured, k: nat, c: nat, from: nat, count: nat, a: nat)
    requires v.Valid() && k >= 1 && k + c <= v.p.NbEvals() && from == 2 * k && count == 2 * c
    requires a >= 1 && OnPath(v.leaf, a) && 0 < Dist(v.leaf, a) <= v.p.log
    requires forall i | k <= i < k + c :: OnPath(v.leaf, i) <==> i == a
    ensures SeedXor(v, from, count) ==
            if k <= a < k + c then Xor(SeedXor(v, k, c), v.path[Dist(v.leaf, a) - 1]) else SeedXor(v, k, c)
  {
    hide Punctured.Seed;
    hide OnPath;
    hide Xor;
    hide Derive;
    if c > 0 {
      SeedXorDown(v, k, c - 1, from, count - 2, a);
      var i, l, r := k + c - 1, from + count - 2, from + count - 1;
      var down, up := SeedXor(v, from, count - 2), SeedXor(v, k, c - 1);
      var entry := v.path[Dist(v.leaf, a) - 1];
      assert SeedXor(v, from, count - 1) == Xor(down, SeedOrZero(v, l));
      assert SeedXor(v, from, count) == Xor(Xor(down, SeedOrZero(v, l)), SeedOrZero(v, r));
      XorAssoc(down, SeedOrZero(v, l), SeedOrZero(v, r));
      if i == a {
        HiddenChildren(v, i, l, r);
        XorZero(up);
      } else {
        RootOnPath(v.leaf);
        VisibleChildren(v, i, l, r);
        XorAssoc(up, entry, v.Seed(i));
        XorComm(entry, v.Seed(i));
        XorAssoc(up, v.Seed(i), entry);
      }
    }
  }

  /** For any path at all, the seeds of level j add up to the path entries down to that level. */
  lemma {:induction false} PuncturedLevelXor(v: Punctured, j: nat)
    requires v.Valid() && j <= v.p.log
    ensures 2 * Pow2(j) <= 2 * v.p.NbEvals()
    ensures SeedXor(v, Pow2(j), Pow2(j)) == PathXor(v, j)
  {
    hide Punctured.Seed;
    hide OnPath;
    hide Xor;
    hide Derive;
    Pow2Increasing(j, v.p.log);
    if j == 0 {
      RootOnPath(v.leaf);
      XorSelf(Zeros(v.p.seedSize));
      assert SeedXor(v, 1, 1) == Xor(SeedXor(v, 1, 0), SeedOrZero(v, 1));
    } else {
      PuncturedLevelXor(v, j - 1);
      Pow2Increasing(j - 1, v.p.log - 1);
      var k, d := Pow2(j - 1), v.p.log - (j - 1);
      AncestorLevel(v.leaf, j - 1, d);
      var a := ShiftRight(v.leaf, d);
      ShiftIsOnPath(v.leaf, d);
      forall i | k <= i < 2 * k ensures OnPath(v.leaf, i) <==> i == a {
        if OnPath(v.leaf, i) {
          SameLevel(v.leaf, i, j - 1, d);
        }
      }
      SeedXorDown(v, k, k, Pow2(j), Pow2(j), a);
    }
  }

  lemma SameLevel(leaf: nat, i: nat, j: nat, d: nat)
    requires Pow2(j) <= i < 2 * Pow2(j) && OnPath(leaf, i)
    requires Pow2(j + d) <= leaf < 2 * Pow2(j + d)
    ensures i == ShiftRight(leaf, d)
  {
    OnPathIsShift(leaf, i);
    PathLevel(leaf, i);
    LevelOf(i, j);
    LevelOf(leaf, j + d);
  }

  lemma {:induction false} PathLevel(leaf: nat, k: nat)
    requires k >= 1 && leaf >= 1 && OnPath(leaf, k)
    ensures Level(leaf) == Level(k) + Dist(leaf, k)
  {
    if leaf != k {
      PathLevel(leaf / 2, k);
    }
  }

  /** The leaves reconstructed from any path add up to the exclusive-or of that path. */
  lemma PuncturedLeavesXor(v: Punctured)
    requires v.Valid()
    ensures SeedXor(v, v.p.NbEvals(), v.p.NbEvals()) == PathXor(v, v.p.log)
  {
    PuncturedLevelXor(v, v.p.log);
  }

  /** What an honest path hides: delta plus all its entries. */
  lemma HiddenLeaf(t: Tree, iStar: nat)
    requires t.Valid() && iStar < t.p.NbEvals()
    ensures t.Leaf(iStar) == Xor(t.delta, PathXor(Puncture(t, iStar), t.p.log))
  {
    hide Tree.Node;
    hide Punctured.Seed;
    hide Xor;
    var v := Puncture(t, iStar);
    LevelXor(t, t.p.log);
    PuncturedLeavesXor(v);
    HiddenShare(t, iStar, t.p.NbEvals());
    XorCancel(t.Leaf(iStar), PathXor(v, t.p.log));
    XorComm(t.delta, PathXor(v, t.p.log));
  }

  /** The signer's leaves add up to the verifier's plus the hidden one. */
  lemma {:induction false} HiddenShare(t: Tree, iStar: nat, c: nat)
    requires t.Valid() && iStar < t.p.NbEvals() && c <= t.p.NbEvals()
    ensures var known := SeedXor(Puncture(t, iStar), t.p.NbEvals(), c);
            NodeXor(t, t.p.NbEvals(), c) == if iStar < c then Xor(known, t.Leaf(iStar)) else known
  {
    hide Tree.Node;
    hide Punctured.Seed;
    hide Xor;
    hide OnPath;
    var nb, v := t.p.NbEvals(), Puncture(t, iStar);
    if c > 0 {
      HiddenShare(t, iStar, c - 1);
      var k := nb + c - 1;
      var sum := SeedXor(v, nb, c - 1);
      if c - 1 == iStar {
        LeafOnPath(v.leaf);
        XorZero(sum);
      } else {
        OtherLeafVisible(v.leaf, k, t.p.log);
        HonestSeed(t, iStar, k);
        XorAssoc(sum, t.Leaf(iStar), t.Node(k));
        XorComm(t.Leaf(iStar), t.Node(k));
        XorAssoc(sum, t.Node(k), t.Leaf(iStar));
      }
    }
  }

  lemma LeafOnPath(leaf: nat)
    requires leaf >= 1
    ensures OnPath(leaf, leaf)
  {
  }
}
