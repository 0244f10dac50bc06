/** The in-place tree procedures, each proved to leave in its buffers what GgmTree specifies. */
module GgmTreeProcedures {
  import opened ByteStrings
  import opened Naturals
  import opened TreePaths
  import opened Common
  import opened GgmTree

  /** The seed at position `from`, derived; a null pointer (None) leaves position `to` alone. */
  function Derived(p: Params, ctx: EncCtx, seeds: seq<Bytes>, from: Option<nat>, to: nat): Bytes
    requires p.Valid() && to < |seeds|
    requires from.Some? ==> from.value < |seeds| && |seeds[from.value]| == p.seedSize
  {
    if from.Some? then Derive(p, ctx, seeds[from.value]) else seeds[to]
  }

  method SeedDerive(p: Params, ctx: EncCtx, node: array<Bytes>, from: Option<nat>, to: nat)
    requires p.Valid() && to < node.Length
    requires from.Some? ==> from.value < node.Length && |node[from.value]| == p.seedSize
    modifies node
    ensures node[..] == old(node[..])[to := Derived(p, ctx, old(node[..]), from, to)]
  {
    hide Xor;
    if from.Some? {
      var seed := node[from.value];
      node[to] := Xor(p.Encrypt(ctx, seed), LinOrtho(seed));
    }
  }

  method SeedDeriveX2(p: Params, ctx: EncCtx, node: array<Bytes>, from1: Option<nat>, from2: Option<nat>, to1: nat, to2: nat)
    requires p.Valid() && to1 < to2 < node.Length
    requires from1.Some? ==> from1.value < to1 && |node[from1.value]| == p.seedSize
    requires from2.Some? ==> from2.value < to1 && |node[from2.value]| == p.seedSize
    modifies node
    ensures var was := old(node[..]);
            node[..] == was[to1 := Derived(p, ctx, was, from1, to1)][to2 := Derived(p, ctx, was, from2, to2)]
  {
    hide Xor;
    if from1.Some? && from2.Some? {
      var seed1, seed2 := node[from1.value], node[from2.value];
      var ct1, ct2 := p.Encrypt(ctx, seed1), p.Encrypt(ctx, seed2);
      node[to1] := Xor(ct1, LinOrtho(seed1));
      node[to2] := Xor(ct2, LinOrtho(seed2));
    } else {
      SeedDerive(p, ctx, node, from1, to1);
      SeedDerive(p, ctx, node, from2, to2);
    }
  }

  method SeedDeriveX4(p: Params, ctx: EncCtx, node: array<Bytes>,
                      from1: Option<nat>, from2: Option<nat>, from3: Option<nat>, from4: Option<nat>,
                      to1: nat, to2: nat, to3: nat, to4: nat)
    requires p.Valid() && to1 < to2 < to3 < to4 < node.Length
    requires from1.Some? ==> from1.value < to1 && |node[from1.value]| == p.seedSize
    requires from2.Some? ==> from2.value < to1 && |node[from2.value]| == p.seedSize
    requires from3.Some? ==> from3.value < to1 && |node[from3.value]| == p.seedSize
    requires from4.Some? ==> from4.value < to1 && |node[from4.value]| == p.seedSize
    modifies node
    ensures var was := old(node[..]);
            node[..] == was[to1 := Derived(p, ctx, was, from1, to1)][to2 := Derived(p, ctx, was, from2, to2)]
                           [to3 := Derived(p, ctx, was, from3, to3)][to4 := Derived(p, ctx, was, from4, to4)]
  {
    hide Xor;
    if from1.Some? && from2.Some? && from3.Some? && from4.Some? {
      var seed1, seed2, seed3, seed4 := node[from1.value], node[from2.value], node[from3.value], node[from4.value];
      node[to1] := Xor(p.Encrypt(ctx, seed1), LinOrtho(seed1));
      node[to2] := Xor(p.Encrypt(ctx, seed2), LinOrtho(seed2));
      node[to3] := Xor(p.Encrypt(ctx, seed3), LinOrtho(seed3));
      node[to4] := Xor(p.Encrypt(ctx, seed4), LinOrtho(seed4));
    } else {
      SeedDeriveX2(p, ctx, node, from1, from2, to1, to2);
      SeedDeriveX2(p, ctx, node, from3, from4, to3, to4);
    }
  }

  // ---- full expansion ----

  /** Positions 2 up to `bound` hold the nodes of the tree. */
  ghost predicate Expanded(t: Tree, s: seq<Bytes>, bound: nat)
    requires t.Valid() && bound <= |s|
  {
    forall i | 2 <= i < bound :: s[i] == t.Node(i)
  }

  /** In `after`, the children of parents [k, k + g) have been filled in; nothing else changed. */
  ghost predicate ChildrenFilled(t: Tree, ctx: EncCtx, s: seq<Bytes>, after: seq<Bytes>, k: nat, g: nat)
    requires t.Valid() && k >= 1 && 2 * (k + g) <= |s| == |after|
    requires forall i | k <= i < k + g :: |s[i]| == t.p.seedSize
  {
    && (forall i | k <= i < k + g :: after[2 * i] == Derive(t.p, ctx, s[i]))
    && (forall i | k <= i < k + g :: |after[2 * i]| == t.p.seedSize && after[2 * i + 1] == Xor(after[2 * i], s[i]))
    && (forall i | 0 <= i < 2 * k :: after[i] == s[i])
  }

  lemma LeftChild(t: Tree, k: nat, l: nat)
    requires t.Valid() && k >= 2 && l == 2 * k
    ensures Level(k) >= 1 && t.Node(l) == Derive(t.p, LevelCtx(t.p, t.salt, t.e, Level(k)), t.Node(k))
  {
    hide Xor;
    hide Derive;
    assert l / 2 == k && l % 2 == 0;
  }

  lemma GroupExpands(t: Tree, s: seq<Bytes>, after: seq<Bytes>, j: nat, k: nat, g: nat)
    requires t.Valid() && j >= 1 && Pow2(j) <= k && k + g <= 2 * Pow2(j) && 2 * (k + g) <= |s| == |after|
    requires k >= 2 && Expanded(t, s, 2 * k)
    requires forall i | k <= i < k + g :: |s[i]| == t.p.seedSize
    requires ChildrenFilled(t, LevelCtx(t.p, t.salt, t.e, j), s, after, k, g)
    ensures Expanded(t, after, 2 * (k + g))
  {
    hide Xor;
    hide Derive;
    hide Tree.Node;
    forall x | 2 <= x < 2 * (k + g) ensures after[x] == t.Node(x) {
      if x >= 2 * k {
        ChildExpands(t, s, after, j, k, g, x / 2);
        assert x == 2 * (x / 2) || x == 2 * (x / 2) + 1;
      }
    }
  }

  lemma ChildExpands(t: Tree, s: seq<Bytes>, after: seq<Bytes>, j: nat, k: nat, g: nat, i: nat)
    requires t.Valid() && j >= 1 && Pow2(j) <= k && k + g <= 2 * Pow2(j) && 2 * (k + g) <= |s| == |after|
    requires k >= 2 && Expanded(t, s, 2 * k) && k <= i < k + g && g <= k
    requires forall i | k <= i < k + g :: |s[i]| == t.p.seedSize
    requires ChildrenFilled(t, LevelCtx(t.p, t.salt, t.e, j), s, after, k, g)
    ensures after[2 * i] == t.Node(2 * i) && after[2 * i + 1] == t.Node(2 * i + 1)
  {
    hide Xor;
    hide Derive;
    hide Tree.Node;
    LevelOf(i, j);
    LeftChild(t, i, 2 * i);
    RightChild(t, i, 2 * i, 2 * i + 1);
  }

  method ExpandGroup2(ghost t: Tree, p: Params, ctx: EncCtx, node: array<Bytes>, k: nat)
    requires t.Valid() && t.p == p && k >= 2 && 2 * (k + 2) <= node.Length
    requires forall i | k <= i < k + 2 :: |node[i]| == p.seedSize
    modifies node
    ensures ChildrenFilled(t, ctx, old(node[..]), node[..], k, 2)
  {
    hide Xor;
    hide Derive;
    SeedDeriveX2(p, ctx, node, Some(k), Some(k + 1), 2 * k, 2 * (k + 1));
    node[2 * k + 1] := Xor(node[2 * k], node[k]);
    node[2 * (k + 1) + 1] := Xor(node[2 * (k + 1)], node[k + 1]);
  }

  method ExpandGroup4(ghost t: Tree, p: Params, ctx: EncCtx, node: array<Bytes>, k: nat)
    requires t.Valid() && t.p == p && k >= 4 && 2 * (k + 4) <= node.Length
    requires forall i | k <= i < k + 4 :: |node[i]| == p.seedSize
    modifies node
    ensures ChildrenFilled(t, ctx, old(node[..]), node[..], k, 4)
  {
    hide Xor;
    hide Derive;
    ghost var was := node[..];
    SeedDeriveX4(p, ctx, node, Some(k), Some(k + 1), Some(k + 2), Some(k + 3),
                 2 * k, 2 * (k + 1), 2 * (k + 2), 2 * (k + 3));
    assert LeftsFilled(p, ctx, was, node[..], k, 4, 0);
    FillRight(p, ctx, was, node, k, 4, 0);
    FillRight(p, ctx, was, node, k, 4, 1);
    FillRight(p, ctx, was, node, k, 4, 2);
    FillRight(p, ctx, was, node, k, 4, 3);
  }

  /** The left children of the group are filled in, and the first `done` right children. */
  ghost predicate LeftsFilled(p: Params, ctx: EncCtx, was: seq<Bytes>, now: seq<Bytes>, k: nat, g: nat, done: nat)
    requires p.Valid() && k >= g && 2 * (k + g) <= |was|
    requires forall i | k <= i < k + g :: |was[i]| == p.seedSize
  {
    && |now| == |was| && done <= g
    && (forall i | k <= i < k + g :: now[2 * i] == Derive(p, ctx, was[i]))
    && (forall i | k <= i < k + done :: now[2 * i + 1] == Xor(Derive(p, ctx, was[i]), was[i]))
    && (forall i | 0 <= i < 2 * k :: now[i] == was[i])
  }

  /** One more right child: the left child masked with the parent. */
  method FillRight(p: Params, ghost ctx: EncCtx, ghost was: seq<Bytes>, node: array<Bytes>, k: nat, ghost g: nat, done: nat)
    requires p.Valid() && k >= g && 2 * (k + g) <= |was| && done < g
    requires forall i | k <= i < k + g :: |was[i]| == p.seedSize
    requires LeftsFilled(p, ctx, was, node[..], k, g, done)
    modifies node
    ensures LeftsFilled(p, ctx, was, node[..], k, g, done + 1)
  {
    hide Derive;
    hide Xor;
    assert node[..][2 * (k + done)] == Derive(p, ctx, was[k + done]);
    assert node[..][k + done] == was[k + done];
    node[2 * (k + done) + 1] := Xor(node[2 * (k + done)], node[k + done]);
  }

  lemma {:induction false} Pow2Multiple(j: nat)
    ensures j >= 1 ==> Pow2(j) % 2 == 0 && Pow2(j) >= 2
    ensures j >= 2 ==> Pow2(j) % 4 == 0 && Pow2(j) >= 4
  {
    if j >= 2 {
      Pow2Multiple(j - 1);
    }
  }

  /** The parents of level j come in groups of two on the first level and of four below, none left over. */
  ghost function GroupsOnLevel(j: nat): (groups: nat)
    requires j >= 1
    ensures Pow2(j) == if j == 1 then 2 * groups else 4 * groups
    ensures groups >= 1
  {
    if j == 1 then 1 else Pow2(j - 2)
  }

  /** Derives level j + 1 from level j: two nodes at a time on the first level, four below. */
  method ExpandLevel(ghost t: Tree, p: Params, salt: Bytes, e: nat, j: nat, node: array<Bytes>)
    requires t.Valid() && t.p == p && t.salt == salt && t.e == e && 1 <= j < p.log
    requires 4 * Pow2(j) <= node.Length
    requires Expanded(t, node[..], 2 * Pow2(j))
    modifies node
    ensures Expanded(t, node[..], 4 * Pow2(j))
  {
    hide Xor;
    hide Derive;
    hide Tree.Node;
    hide TweakSalt;
    var numDerivations := if j == 1 then 2 else 4;
    var ctx := p.KeySched(TweakSalt(salt, 2, e, j - 1));
    ghost var left := GroupsOnLevel(j);
    var k := Pow2(j);
    while k < Pow2(j + 1)
      invariant Pow2(j) <= k && 2 * Pow2(j) == k + if j == 1 then 2 * left else 4 * left
      invariant Expanded(t, node[..], 2 * k)
    {
      LevelBelow(t, node[..], k, numDerivations);
      ghost var before := node[..];
      if numDerivations == 2 {
        ExpandGroup2(t, p, ctx, node, k);
      } else {
        ExpandGroup4(t, p, ctx, node, k);
      }
      GroupExpands(t, before, node[..], j, k, numDerivations);
      k, left := k + numDerivations, left - 1;
    }
  }

  /** Fills the heap-ordered node table level by level and copies out the leaves. */
  method Expand(p: Params, salt: Bytes, rseed: Bytes, delta: Bytes, e: nat, node: array<Bytes>, lseed: array<Bytes>)
    returns (ret: int)
    requires Tree(p, salt, rseed, delta, e).Valid()
    requires node != lseed && node.Length == 2 * p.NbEvals() && lseed.Length == p.NbEvals()
    modifies node, lseed
    ensures ret == 0
    ensures Expanded(Tree(p, salt, rseed, delta, e), node[..], node.Length)
    ensures lseed[..] == Tree(p, salt, rseed, delta, e).Leaves()
  {
    hide Xor;
    hide Derive;
    hide Tree.Node;
    ghost var t := Tree(p, salt, rseed, delta, e);
    Pow2Multiple(p.log);
    node[2] := rseed;
    node[3] := Xor(node[2], delta);
    FirstLevel(t);
    var j := 1;
    while j < p.log
      invariant 1 <= j <= p.log
      invariant 2 * Pow2(j) <= node.Length
      invariant Expanded(t, node[..], 2 * Pow2(j))
    {
      Pow2Increasing(j + 1, p.log);
      ExpandLevel(t, p, salt, e, j, node);
      j := j + 1;
    }
    CopyLeaves(p, node, lseed);
    assert lseed[..] == t.Leaves();
    ret := 0;
  }

  lemma FirstLevel(t: Tree)
    requires t.Valid()
    ensures t.Node(2) == t.rseed && t.Node(3) == Xor(t.rseed, t.delta)
  {
    hide Xor;
    assert t.Node(2) == t.rseed;
    RightChild(t, 1, 2, 3);
  }

  lemma LevelBelow(t: Tree, s: seq<Bytes>, k: nat, g: nat)
    requires t.Valid() && k >= 2 && 2 <= g && g <= k && 2 * k <= |s| && Expanded(t, s, 2 * k)
    ensures forall i | k <= i < k + g :: |s[i]| == t.p.seedSize
  {
  }

  /** The second half of the node table is the list of leaves. */
  method CopyLeaves(p: Params, node: array<Bytes>, lseed: array<Bytes>)
    requires node != lseed && node.Length == 2 * p.NbEvals() && lseed.Length == p.NbEvals()
    modifies lseed
    ensures lseed[..] == node[p.NbEvals()..]
  {
    Store(lseed, 0, node[p.NbEvals()..]);
  }

  // ---- opening ----

  /** Reads the sibling path of leaf iStar off a node table; rejects a leaf that does not exist. */
  method Open(p: Params, node: seq<Bytes>, iStar: nat, path: array<Bytes>) returns (ret: int)
    requires |node| == 2 * p.NbEvals() && path.Length == p.log
    modifies path
    ensures ret == if iStar < p.NbEvals() then 0 else -1
    ensures ret != 0 ==> path[..] == old(path[..])
    ensures ret == 0 ==> forall t: Tree | t.p == p && t.Valid() && Expanded(t, node, |node|) ::
                           path[..] == t.Path(iStar)
  {
    hide Tree.Node;
    if iStar >= p.NbEvals() {
      return -1;
    }
    var i := p.NbEvals() + iStar;
    for j := 0 to p.log
      invariant i == ShiftRight(p.NbEvals() + iStar, j)
      invariant forall j' | 0 <= j' < j :: SiblingInTree(p.log, iStar, j') && path[j'] == node[SiblingAt(p.log, iStar, j')]
    {
      OnTheWay(p.log, iStar, j);
      SiblingInside(p.log, i);
      path[j] := node[Sib(i)];
      ShiftRightSucc(p.NbEvals() + iStar, j);
      i := i / 2;
    }
    forall t: Tree | t.p == p && t.Valid() && Expanded(t, node, |node|) ensures path[..] == t.Path(iStar) {
      forall j | 0 <= j < p.log ensures path[j] == t.Path(iStar)[j] {
        OnTheWay(p.log, iStar, j);
        assert SiblingInTree(p.log, iStar, j);
        assert t.Path(iStar)[j] == t.PathEntry(iStar, j);
      }
    }
    ret := 0;
  }

  function SiblingAt(log: nat, iStar: nat, j: nat): nat
    requires iStar < Pow2(log) && j < log
  {
    OnTheWay(log, iStar, j);
    Sib(ShiftRight(Pow2(log) + iStar, j))
  }

  ghost predicate SiblingInTree(log: nat, iStar: nat, j: nat)
    requires iStar < Pow2(log) && j < log
  {
    2 <= SiblingAt(log, iStar, j) < 2 * Pow2(log)
  }

  lemma SiblingInside(log: nat, i: nat)
    requires log >= 1 && 2 <= i < 2 * Pow2(log)
    ensures 2 <= Sib(i) < 2 * Pow2(log)
  {
    Pow2Multiple(log);
  }

  // ---- expansion from a path ----

  /**
   * The table during partial expansion: below `bound` every visible position is set, from
   * `bound` on only the path entries are, and whatever is set holds the right seed.
   */
  ghost predicate PartlyFilled(v: Punctured, s: seq<Bytes>, isSet: seq<bool>, bound: nat)
    requires v.Valid() && |s| == |isSet| == 2 * v.p.NbEvals()
  {
    && (forall i | 2 <= i < bound && i < |s| :: isSet[i] <==> v.Visible(i))
    && (forall i | 2 <= i < |s| && bound <= i :: isSet[i] <==> OnPath(v.leaf, Sib(i)))
    && (forall i | 2 <= i < |s| && isSet[i] :: v.Visible(i) && s[i] == v.Seed(i))
  }

  /** The children of the set parents among [k, k + g) have been filled in; nothing else changed. */
  ghost predicate KnownChildrenFilled(v: Punctured, ctx: EncCtx, s: seq<Bytes>, isSet: seq<bool>,
                                      after: seq<Bytes>, afterSet: seq<bool>, k: nat, g: nat)
    requires v.Valid() && k >= 1 && 2 * (k + g) <= |s| == |after| == |isSet| == |afterSet|
    requires forall i | k <= i < k + g && isSet[i] :: |s[i]| == v.p.seedSize
  {
    && (forall i | k <= i < k + g :: FilledBelow(v, ctx, s, isSet, after, afterSet, i))
    && (forall i | 0 <= i < |s| && !(2 * k <= i < 2 * (k + g)) :: after[i] == s[i] && afterSet[i] == isSet[i])
  }

  ghost predicate FilledBelow(v: Punctured, ctx: EncCtx, s: seq<Bytes>, isSet: seq<bool>,
                              after: seq<Bytes>, afterSet: seq<bool>, i: nat)
    requires v.Valid() && 2 * i + 1 < |s| == |after| == |isSet| == |afterSet|
    requires isSet[i] ==> |s[i]| == v.p.seedSize
  {
    if isSet[i] then
      && after[2 * i] == Derive(v.p, ctx, s[i])
      && after[2 * i + 1] == Xor(after[2 * i], s[i])
      && afterSet[2 * i] && afterSet[2 * i + 1]
    else
      && after[2 * i] == s[2 * i] && after[2 * i + 1] == s[2 * i + 1]
      && afterSet[2 * i] == isSet[2 * i] && afterSet[2 * i + 1] == isSet[2 * i + 1]
  }

  /** Of two siblings below the root at most one is on the path; exactly one if their parent is. */
  lemma OneSibling(leaf: nat, k: nat, l: nat, r: nat)
    requires leaf >= 1 && 1 <= k < leaf && l == 2 * k && r == l + 1
    ensures Sib(l) == r && Sib(r) == l
    ensures OnPath(leaf, k) ==> OnPath(leaf, l) != OnPath(leaf, r)
    ensures !OnPath(leaf, k) ==> !OnPath(leaf, l) && !OnPath(leaf, r)
  {
    assert l / 2 == k && r / 2 == k;
    if OnPath(leaf, k) {
      OneChildOnPath(leaf, k);
    }
    if OnPath(leaf, l) {
      ParentOnPath(leaf, l);
    }
    if OnPath(leaf, r) {
      ParentOnPath(leaf, r);
    }
  }

  lemma ChildrenOfVisible(v: Punctured, j: nat, i: nat)
    requires v.Valid() && j >= 1 && Pow2(j) <= i < 2 * Pow2(j) && i < v.p.NbEvals() && v.Visible(i)
    ensures v.Visible(2 * i) && v.Visible(2 * i + 1)
    ensures v.Seed(2 * i) == Derive(v.p, LevelCtx(v.p, v.salt, v.e, j), v.Seed(i))
    ensures v.Seed(2 * i + 1) == Xor(v.Seed(2 * i), v.Seed(i))
  {
    hide Xor;
    hide Derive;
    hide OnPath;
    hide Punctured.Seed;
    var l, r := 2 * i, 2 * i + 1;
    assert l / 2 == i && r / 2 == i && r % 2 == 1 && l % 2 == 0;
    OneSibling(v.leaf, i, l, r);
    SeedStep(v, l);
    SeedStep(v, r);
    LevelOf(i, j);
  }

  /** One parent's step keeps its two children in order. */
  lemma FilledBelowKeeps(v: Punctured, s: seq<Bytes>, isSet: seq<bool>, after: seq<Bytes>, afterSet: seq<bool>, j: nat, i: nat)
    requires v.Valid() && |s| == |isSet| == |after| == |afterSet| == 2 * v.p.NbEvals()
    requires j >= 1 && Pow2(j) <= i < 2 * Pow2(j) && 2 <= i < v.p.NbEvals()
    requires isSet[i] <==> v.Visible(i)
    requires isSet[i] ==> s[i] == v.Seed(i)
    requires forall c | 2 * i <= c <= 2 * i + 1 :: isSet[c] <==> OnPath(v.leaf, Sib(c))
    requires forall c | 2 * i <= c <= 2 * i + 1 && isSet[c] :: v.Visible(c) && s[c] == v.Seed(c)
    requires FilledBelow(v, LevelCtx(v.p, v.salt, v.e, j), s, isSet, after, afterSet, i)
    ensures forall c | 2 * i <= c <= 2 * i + 1 :: afterSet[c] <==> v.Visible(c)
    ensures forall c | 2 * i <= c <= 2 * i + 1 && afterSet[c] :: after[c] == v.Seed(c)
  {
    hide Xor;
    hide Derive;
    hide OnPath;
    hide Punctured.Seed;
    OneSibling(v.leaf, i, 2 * i, 2 * i + 1);
    if isSet[i] {
      ChildrenOfVisible(v, j, i);
    }
  }

  lemma GroupKeeps(v: Punctured, s: seq<Bytes>, isSet: seq<bool>, after: seq<Bytes>, afterSet: seq<bool>, j: nat, k: nat, g: nat)
    requires v.Valid() && |s| == |isSet| == |after| == |afterSet| == 2 * v.p.NbEvals()
    requires j >= 1 && 2 <= Pow2(j) <= k && k + g <= 2 * Pow2(j) && k + g <= v.p.NbEvals() && g <= k
    requires PartlyFilled(v, s, isSet, 2 * k)
    requires forall i | k <= i < k + g && isSet[i] :: |s[i]| == v.p.seedSize
    requires KnownChildrenFilled(v, LevelCtx(v.p, v.salt, v.e, j), s, isSet, after, afterSet, k, g)
    ensures PartlyFilled(v, after, afterSet, 2 * (k + g))
  {
    hide Xor;
    hide Derive;
    hide OnPath;
    hide Punctured.Seed;
    hide Sib;
    forall c | 2 * k <= c < 2 * (k + g)
      ensures afterSet[c] <==> v.Visible(c)
      ensures afterSet[c] ==> after[c] == v.Seed(c)
    {
      var i := c / 2;
      assert c == 2 * i || c == 2 * i + 1;
      assert FilledBelow(v, LevelCtx(v.p, v.salt, v.e, j), s, isSet, after, afterSet, i);
      FilledBelowKeeps(v, s, isSet, after, afterSet, j, i);
    }
  }

  function Pointer(isSet: bool, k: nat): Option<nat> { if isSet then Some(k) else None }

  /** The left children of the set parents among [k, k + g) have been derived; nothing else changed. */
  ghost predicate LeftDerived(p: Params, ctx: EncCtx, s: seq<Bytes>, isSet: seq<bool>, after: seq<Bytes>, k: nat, g: nat)
    requires p.Valid() && k >= 1 && 2 * (k + g) <= |s| == |after| == |isSet|
    requires forall i | k <= i < k + g && isSet[i] :: |s[i]| == p.seedSize
  {
    && (forall i | k <= i < k + g :: after[2 * i] == Derived(p, ctx, s, Pointer(isSet[i], i), 2 * i))
    && (forall i | k <= i < k + g :: after[2 * i + 1] == s[2 * i + 1])
    && (forall x | 0 <= x < |s| && !(2 * k <= x < 2 * (k + g)) :: after[x] == s[x])
  }

  method DeriveGroup(p: Params, ctx: EncCtx, node: array<Bytes>, nodeMap: array<bool>, k: nat, numDerivations: nat)
    requires p.Valid() && (numDerivations == 2 || numDerivations == 4) && k >= numDerivations
    requires 2 * (k + numDerivations) <= node.Length == nodeMap.Length
    requires forall i | k <= i < k + numDerivations && nodeMap[i] :: |node[i]| == p.seedSize
    modifies node
    ensures LeftDerived(p, ctx, old(node[..]), nodeMap[..], node[..], k, numDerivations)
  {
    hide Xor;
    hide Derive;
    hide Derived;
    var from1, from2 := Pointer(nodeMap[k], k), Pointer(nodeMap[k + 1], k + 1);
    if numDerivations == 2 {
      SeedDeriveX2(p, ctx, node, from1, from2, 2 * k, 2 * (k + 1));
    } else {
      var from3, from4 := Pointer(nodeMap[k + 2], k + 2), Pointer(nodeMap[k + 3], k + 3);
      SeedDeriveX4(p, ctx, node, from1, from2, from3, from4, 2 * k, 2 * (k + 1), 2 * (k + 2), 2 * (k + 3));
    }
  }

  lemma FilledBelowFrame(v: Punctured, ctx: EncCtx, s: seq<Bytes>, isSet: seq<bool>,
                         a: seq<Bytes>, aSet: seq<bool>, b: seq<Bytes>, bSet: seq<bool>, i: nat)
    requires v.Valid() && 2 * i + 1 < |s| == |a| == |b| == |isSet| == |aSet| == |bSet|
    requires isSet[i] ==> |s[i]| == v.p.seedSize
    requires FilledBelow(v, ctx, s, isSet, a, aSet, i)
    requires a[2 * i] == b[2 * i] && a[2 * i + 1] == b[2 * i + 1]
    requires aSet[2 * i] == bSet[2 * i] && aSet[2 * i + 1] == bSet[2 * i + 1]
    ensures FilledBelow(v, ctx, s, isSet, b, bSet, i)
  {
    hide Xor;
    hide Derive;
  }

  /** The right child of a set parent, and the marks of both children. */
  method FinishPair(ghost v: Punctured, ghost ctx: EncCtx, ghost was: seq<Bytes>, node: array<Bytes>, nodeMap: array<bool>, i: nat)
    requires v.Valid() && i >= 1 && 2 * i + 1 < |was| == node.Length == nodeMap.Length
    requires nodeMap[i] ==> |was[i]| == v.p.seedSize
    requires node[i] == was[i] && node[2 * i] == Derived(v.p, ctx, was, Pointer(nodeMap[i], i), 2 * i)
    requires node[2 * i + 1] == was[2 * i + 1]
    modifies node, nodeMap
    ensures FilledBelow(v, ctx, was, old(nodeMap[..]), node[..], nodeMap[..], i)
    ensures forall x | 0 <= x < node.Length && x != 2 * i && x != 2 * i + 1 ::
              node[x] == old(node[x]) && nodeMap[x] == old(nodeMap[x])
  {
    hide Xor;
    hide Derive;
    if nodeMap[i] {
      node[2 * i + 1] := Xor(node[2 * i], node[i]);
      nodeMap[2 * i] := true;
      nodeMap[2 * i + 1] := true;
    }
  }

  method FinishGroup(ghost v: Punctured, ghost ctx: EncCtx, ghost was: seq<Bytes>,
                     node: array<Bytes>, nodeMap: array<bool>, k: nat, g: nat)
    requires v.Valid() && k >= 1 && g <= k && 2 * (k + g) <= |was| == node.Length == nodeMap.Length
    requires forall i | k <= i < k + g && nodeMap[i] :: |was[i]| == v.p.seedSize
    requires LeftDerived(v.p, ctx, was, nodeMap[..], node[..], k, g)
    modifies node, nodeMap
    ensures KnownChildrenFilled(v, ctx, was, old(nodeMap[..]), node[..], nodeMap[..], k, g)
  {
    hide FilledBelow;
    hide Derived;
    ghost var derived, wasSet := node[..], nodeMap[..];
    for i := k to k + g
      invariant forall x | k <= x < i :: FilledBelow(v, ctx, was, wasSet, node[..], nodeMap[..], x)
      invariant forall x | 0 <= x < node.Length && !(2 * k <= x < 2 * i) :: node[x] == derived[x] && nodeMap[x] == wasSet[x]
    {
      ghost var nodes, marks := node[..], nodeMap[..];
      FinishPair(v, ctx, was, node, nodeMap, i);
      PairMarksIrrelevant(v, ctx, was, marks, wasSet, node[..], nodeMap[..], i);
      forall x | k <= x < i ensures FilledBelow(v, ctx, was, wasSet, node[..], nodeMap[..], x) {
        FilledBelowFrame(v, ctx, was, wasSet, nodes, marks, node[..], nodeMap[..], x);
      }
    }
  }

  /** Only the marks of the parent and its two children matter to one parent's step. */
  lemma PairMarksIrrelevant(v: Punctured, ctx: EncCtx, s: seq<Bytes>, m: seq<bool>, m': seq<bool>,
                            after: seq<Bytes>, afterSet: seq<bool>, i: nat)
    requires v.Valid() && 2 * i + 1 < |s| == |after| == |m| == |m'| == |afterSet|
    requires m[i] ==> |s[i]| == v.p.seedSize
    requires m[i] == m'[i] && m[2 * i] == m'[2 * i] && m[2 * i + 1] == m'[2 * i + 1]
    requires FilledBelow(v, ctx, s, m, after, afterSet, i)
    ensures FilledBelow(v, ctx, s, m', after, afterSet, i)
  {
    hide Xor;
    hide Derive;
  }

  lemma SetSizes(v: Punctured, s: seq<Bytes>, isSet: seq<bool>, bound: nat)
    requires v.Valid() && |s| == |isSet| == 2 * v.p.NbEvals() && PartlyFilled(v, s, isSet, bound)
    ensures forall i | 2 <= i < |s| && isSet[i] :: |s[i]| == v.p.seedSize
  {
  }

  method PartialGroup(ghost v: Punctured, p: Params, ctx: EncCtx, j: nat, node: array<Bytes>, nodeMap: array<bool>, k: nat, g: nat)
    requires v.Valid() && v.p == p && 1 <= j < p.log && ctx == LevelCtx(p, v.salt, v.e, j)
    requires node.Length == nodeMap.Length == 2 * p.NbEvals()
    requires (g == 2 || g == 4) && g <= Pow2(j) <= k && k + g <= 2 * Pow2(j) <= p.NbEvals()
    requires PartlyFilled(v, node[..], nodeMap[..], 2 * k)
    modifies node, nodeMap
    ensures PartlyFilled(v, node[..], nodeMap[..], 2 * (k + g))
  {
    hide Xor;
    hide Derive;
    hide Punctured.Seed;
    hide OnPath;
    ghost var before, beforeSet := node[..], nodeMap[..];
    SetSizes(v, before, beforeSet, 2 * k);
    DeriveGroup(p, ctx, node, nodeMap, k, g);
    FinishGroup(v, ctx, before, node, nodeMap, k, g);
    GroupKeeps(v, before, beforeSet, node[..], nodeMap[..], j, k, g);
  }

  /** Derives what can be derived of level j + 1. */
  method PartialLevel(ghost v: Punctured, p: Params, salt: Bytes, e: nat, j: nat, node: array<Bytes>, nodeMap: array<bool>)
    requires v.Valid() && v.p == p && v.salt == salt && v.e == e && 1 <= j < p.log
    requires node.Length == nodeMap.Length == 2 * p.NbEvals()
    requires PartlyFilled(v, node[..], nodeMap[..], 2 * Pow2(j))
    modifies node, nodeMap
    ensures PartlyFilled(v, node[..], nodeMap[..], 4 * Pow2(j))
  {
    hide PartlyFilled;
    hide TweakSalt;
    var numDerivations := if j == 1 then 2 else 4;
    var ctx := p.KeySched(TweakSalt(salt, 2, e, j - 1));
    Pow2Increasing(j + 1, p.log);
    ghost var left := GroupsOnLevel(j);
    var k := Pow2(j);
    while k < Pow2(j + 1)
      invariant Pow2(j) <= k && 2 * Pow2(j) == k + if j == 1 then 2 * left else 4 * left
      invariant PartlyFilled(v, node[..], nodeMap[..], 2 * k)
    {
      PartialGroup(v, p, ctx, j, node, nodeMap, k, numDerivations);
      k, left := k + numDerivations, left - 1;
    }
  }

  /** The siblings of the path are visible, and the path gives their seeds. */
  lemma PathSeeds(v: Punctured, s: seq<Bytes>, isSet: seq<bool>)
    requires v.Valid() && |s| == |isSet| == 2 * v.p.NbEvals()
    requires forall k | 2 <= k < |s| :: isSet[k] <==> OnPath(v.leaf, Sib(k))
    requires forall k | 2 <= k < |s| && isSet[k] :: Dist(v.leaf, Sib(k)) < v.p.log && s[k] == v.path[Dist(v.leaf, Sib(k))]
    ensures PartlyFilled(v, s, isSet, 4)
  {
    hide Punctured.Seed;
    hide OnPath;
    hide Dist;
    Pow2Multiple(v.p.log);
    RootOnPath(v.leaf);
    OneSibling(v.leaf, 1, 2, 3);
    forall k | 2 <= k < |s| && isSet[k] ensures v.Visible(k) && s[k] == v.Seed(k) {
      SiblingHidden(v.leaf, k);
      SeedStep(v, k);
    }
  }

  lemma SiblingHidden(leaf: nat, k: nat)
    requires k >= 2 && leaf >= 1 && OnPath(leaf, Sib(k))
    ensures !OnPath(leaf, k)
  {
    ParentOnPath(leaf, Sib(k));
    var i := k / 2;
    if leaf > i {
      OneSibling(leaf, i, 2 * i, 2 * i + 1);
    }
  }

  /** The path entries are the initial contents of the table. */
  method CopyPath(ghost v: Punctured, p: Params, path: seq<Bytes>, iStar: nat, node: array<Bytes>, nodeMap: array<bool>)
    requires v.Valid() && v.p == p && v.path == path && v.leaf == p.NbEvals() + iStar
    requires node.Length == nodeMap.Length == 2 * p.NbEvals()
    requires forall i | 0 <= i < nodeMap.Length :: !nodeMap[i]
    modifies node, nodeMap
    ensures PartlyFilled(v, node[..], nodeMap[..], 4)
  {
    hide Punctured.Seed;
    hide OnPath;
    hide Dist;
    hide Sib;
    var i := p.NbEvals() + iStar;
    forall k | 2 <= k < nodeMap.Length ensures Sib(k) >= 2 {
      SibSib(k);
    }
    for j := 0 to p.log
      invariant i == ShiftRight(v.leaf, j)
      invariant forall k | 2 <= k < nodeMap.Length ::
                  nodeMap[k] <==> OnPath(v.leaf, Sib(k)) && Dist(v.leaf, Sib(k)) < j
      invariant forall k | 2 <= k < nodeMap.Length && nodeMap[k] :: node[k] == v.path[Dist(v.leaf, Sib(k))]
    {
      OnTheWay(p.log, iStar, j);
      SiblingInside(p.log, i);
      ShiftIsOnPath(v.leaf, j);
      SibSib(i);
      forall k | 2 <= k < nodeMap.Length ensures (OnPath(v.leaf, Sib(k)) && Dist(v.leaf, Sib(k)) == j) <==> k == Sib(i) {
        SibSib(k);
        if OnPath(v.leaf, Sib(k)) {
          OnPathIsShift(v.leaf, Sib(k));
        }
      }
      node[Sib(i)] := path[j];
      nodeMap[Sib(i)] := true;
      ShiftRightSucc(v.leaf, j);
      i := i / 2;
    }
    forall k | 2 <= k < nodeMap.Length && OnPath(v.leaf, Sib(k)) ensures Dist(v.leaf, Sib(k)) < p.log {
      DistBelowLog(v.leaf, Sib(k), p.log);
    }
    PathSeeds(v, node[..], nodeMap[..]);
  }

  /**
   * Rebuilds all leaves but leaf iStar from its sibling path, and zeroes that one;
   * rejects a leaf that does not exist.
   */
  method PartiallyExpand(p: Params, salt: Bytes, path: seq<Bytes>, e: nat, iStar: nat, lseed: array<Bytes>) returns (ret: int)
    requires p.Valid() && |salt| == p.saltSize && |path| == p.log
    requires forall j | 0 <= j < p.log :: |path[j]| == p.seedSize
    requires lseed.Length == p.NbEvals()
    modifies lseed
    ensures ret == if iStar < p.NbEvals() then 0 else -1
    ensures ret != 0 ==> lseed[..] == old(lseed[..])
    ensures ret == 0 ==> lseed[..] == Punctured(p, salt, e, path, p.NbEvals() + iStar).Leaves()
  {
    hide Punctured.Seed;
    hide OnPath;
    if iStar >= p.NbEvals() {
      return -1;
    }
    ghost var v := Punctured(p, salt, e, path, p.NbEvals() + iStar);
    var node := new Bytes[2 * p.NbEvals()](_ => []);
    var nodeMap := new bool[2 * p.NbEvals()](_ => false);
    Pow2Multiple(p.log);
    CopyPath(v, p, path, iStar, node, nodeMap);
    var j := 1;
    while j < p.log
      invariant 1 <= j <= p.log
      invariant PartlyFilled(v, node[..], nodeMap[..], 2 * Pow2(j))
    {
      PartialLevel(v, p, salt, e, j, node, nodeMap);
      j := j + 1;
    }
    CopyLeaves(p, node, lseed);
    lseed[iStar] := Zeros(p.seedSize);
    VisibleLeaves(v, node[..], nodeMap[..], iStar);
    assert lseed[..] == v.Leaves();
    ret := 0;
  }

  lemma VisibleLeaves(v: Punctured, s: seq<Bytes>, isSet: seq<bool>, iStar: nat)
    requires v.Valid() && |s| == |isSet| == 2 * v.p.NbEvals() && v.leaf == v.p.NbEvals() + iStar
    requires PartlyFilled(v, s, isSet, 2 * v.p.NbEvals())
    ensures v.Leaves() == s[v.p.NbEvals()..][iStar := Zeros(v.p.seedSize)]
  {
    hide Punctured.Seed;
    hide OnPath;
    Pow2Multiple(v.p.log);
    forall i | 0 <= i < v.p.NbEvals() ensures v.Leaves()[i] == s[v.p.NbEvals()..][iStar := Zeros(v.p.seedSize)][i] {
      if i != iStar {
        OtherLeafVisible(v.leaf, v.p.NbEvals() + i, v.p.log);
      }
    }
  }

  // ---- one path only ----

  /** Makes both children of a node on the way to a leaf, and tells the one on the way from its sibling. */
  method PathStep(ghost t: Tree, p: Params, salt: Bytes, rseed: Bytes, e: nat, numLeaf: nat, j: nat, parent: Bytes)
    returns (sibling: Bytes, child: Bytes)
    requires t.Valid() && t.p == p && t.salt == salt && t.rseed == rseed && t.e == e
    requires j < p.log && Pow2(p.log) <= numLeaf < 2 * Pow2(p.log)
    requires ShiftRight(numLeaf, p.log - j) >= 1 && parent == t.Node(ShiftRight(numLeaf, p.log - j))
    ensures ShiftRight(numLeaf, p.log - 1 - j) >= 2
    ensures child == t.Node(ShiftRight(numLeaf, p.log - 1 - j))
    ensures sibling == t.Node(Sib(ShiftRight(numLeaf, p.log - 1 - j)))
  {
    hide Xor;
    hide Derive;
    hide Tree.Node;
    hide TweakSalt;
    hide ShiftRight;
    var left := rseed;
    if j > 0 {
      var ctx := p.KeySched(TweakSalt(salt, 2, e, j - 1));
      left := Derive(p, ctx, parent);
    }
    var right := Xor(left, parent);
    Children(t, numLeaf, j, left, right);
    var bit := ShiftRight(numLeaf, p.log - 1 - j) % 2;
    sibling := if bit == 0 then right else left;
    child := if bit == 0 then left else right;
  }

  /** Recomputes the sibling path of leaf iStar, and that leaf, without a node table. */
  method ExpandPath(p: Params, salt: Bytes, rseed: Bytes, delta: Bytes, e: nat, iStar: nat, path: array<Bytes>)
    returns (ret: int, lseed: Bytes)
    requires Tree(p, salt, rseed, delta, e).Valid() && path.Length == p.log
    modifies path
    ensures ret == if iStar < p.NbEvals() then 0 else -1
    ensures ret != 0 ==> path[..] == old(path[..])
    ensures ret == 0 ==> path[..] == Tree(p, salt, rseed, delta, e).Path(iStar)
    ensures ret == 0 ==> lseed == Tree(p, salt, rseed, delta, e).Leaf(iStar)
  {
    hide Xor;
    hide Derive;
    hide Tree.Node;
    lseed := [];
    if iStar >= p.NbEvals() {
      return -1, lseed;
    }
    ghost var t := Tree(p, salt, rseed, delta, e);
    var numLeaf := p.NbEvals() + iStar;
    var parent := delta;
    AncestorLevel(numLeaf, 0, p.log);
    RootNode(t);
    for j := 0 to p.log
      invariant ShiftRight(numLeaf, p.log - j) >= 1 && parent == t.Node(ShiftRight(numLeaf, p.log - j))
      invariant forall d | p.log - j <= d < p.log :: path[d] == t.PathEntry(iStar, d)
    {
      var sibling;
      sibling, parent := PathStep(t, p, salt, rseed, e, numLeaf, j, parent);
      path[p.log - 1 - j] := sibling;
    }
    lseed := parent;
    WholePath(t, iStar, path[..]);
    ret := 0;
  }

  lemma WholePath(t: Tree, iStar: nat, path: seq<Bytes>)
    requires t.Valid() && iStar < t.p.NbEvals() && |path| == t.p.log
    requires forall d | 0 <= d < t.p.log :: path[d] == t.PathEntry(iStar, d)
    ensures path == t.Path(iStar)
  {
    hide Tree.PathEntry;
  }

  lemma RootNode(t: Tree)
    requires t.Valid()
    ensures t.Node(1) == t.delta
  {
  }

  /** The two seeds made on level j are the children of the path node there; the next path node is one of them. */
  lemma Children(t: Tree, leaf: nat, j: nat, left: Bytes, right: Bytes)
    requires t.Valid() && j < t.p.log && Pow2(t.p.log) <= leaf < 2 * Pow2(t.p.log)
    requires ShiftRight(leaf, t.p.log - j) >= 1
    requires left == if j == 0 then t.rseed
                     else Derive(t.p, LevelCtx(t.p, t.salt, t.e, j), t.Node(ShiftRight(leaf, t.p.log - j)))
    requires right == Xor(left, t.Node(ShiftRight(leaf, t.p.log - j)))
    ensures var c := ShiftRight(leaf, t.p.log - 1 - j);
            && c >= 2
            && t.Node(c) == (if c % 2 == 0 then left else right)
            && t.Node(Sib(c)) == (if c % 2 == 0 then right else left)
  {
    hide Xor;
    hide Derive;
    hide Tree.Node;
    var d := t.p.log - j;
    var k, c := ShiftRight(leaf, d), ShiftRight(leaf, d - 1);
    ShiftRightSucc(leaf, d - 1);
    AncestorLevel(leaf, j, d);
    var l, r := 2 * k, 2 * k + 1;
    assert c == l || c == r;
    RightChild(t, k, l, r);
    if j == 0 {
      FirstLevel(t);
    } else {
      LevelOf(k, j);
      LeftChild(t, k, l);
    }
  }
}
