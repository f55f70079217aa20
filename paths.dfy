/**
 * Parent links and the lowest-common-ancestor path (`path_to_root`, `root`,
 * `path_to`, `common_parent` of `SceneNode`), as functions of the parent map.
 * `parent[n]` is `n._parent`; a node absent from the map has no parent.
 */
module Paths {
  import opened Basics
  import opened Sequences

  /** `rank` strictly decreases from every node to its parent. */
  ghost predicate Ranked(parent: map<Node, Node>, rank: map<Node, nat>) {
    forall n :: n in parent ==> n in rank && parent[n] in rank && rank[parent[n]] < rank[n]
  }

  /** No node can be reached from itself by following parent links. */
  ghost predicate Acyclic(parent: map<Node, Node>) {
    exists rank :: Ranked(parent, rank)
  }

  ghost function SomeRank(parent: map<Node, Node>): (rank: map<Node, nat>)
    requires Acyclic(parent)
    ensures Ranked(parent, rank)
  {
    var rank :| Ranked(parent, rank); rank
  }

  /** A bound on the number of parent links above `n`. */
  ghost function Height(parent: map<Node, Node>, n: Node): nat
    requires Acyclic(parent)
  {
    var rank := SomeRank(parent); if n in rank then rank[n] else 0
  }

  /** `n.path_to_root()`: `n`, its parent, its grandparent, ..., a node without parent. */
  function RootPath(parent: map<Node, Node>, n: Node): (p: seq<Node>)
    requires Acyclic(parent)
    ensures |p| >= 1 && p[0] == n && p[|p| - 1] !in parent
    decreases Height(parent, n)
  {
    if n in parent then [n] + RootPath(parent, parent[n]) else [n]
  }

  /** Each element of a root path but the last has a parent, and it is the next element. */
  lemma {:induction false} RootPathStep(parent: map<Node, Node>, n: Node, i: nat)
    requires Acyclic(parent) && i + 1 < |RootPath(parent, n)|
    ensures RootPath(parent, n)[i] in parent
    ensures parent[RootPath(parent, n)[i]] == RootPath(parent, n)[i + 1]
    decreases Height(parent, n)
  {
    if i > 0 {
      RootPathStep(parent, parent[n], i - 1);
    }
  }

  /** `n.root()`: the last node of the root path, which has no parent. */
  function Root(parent: map<Node, Node>, n: Node): (r: Node)
    requires Acyclic(parent)
    ensures r in RootPath(parent, n) && r !in parent
  {
    var p := RootPath(parent, n); p[|p| - 1]
  }

  /** The root is the only ancestor without a parent. */
  lemma RootUnique(parent: map<Node, Node>, n: Node, z: Node)
    requires Acyclic(parent) && z in RootPath(parent, n) && z !in parent
    ensures z == Root(parent, n)
  {
    var p := RootPath(parent, n);
    var i :| 0 <= i < |p| && p[i] == z;
    if i + 1 < |p| {
      RootPathStep(parent, n, i);
    }
  }

  /** `n.path_to_root()[::-1]`: the ancestors of `n` from its root down to `n`. */
  function Lineage(parent: map<Node, Node>, n: Node): (l: seq<Node>)
    requires Acyclic(parent)
    ensures |l| >= 1 && l[|l| - 1] == n && l[0] == Root(parent, n)
  {
    Reverse(RootPath(parent, n))
  }

  lemma LineageStep(parent: map<Node, Node>, n: Node, i: nat)
    requires Acyclic(parent) && 0 < i < |Lineage(parent, n)|
    ensures Lineage(parent, n)[i] in parent
    ensures parent[Lineage(parent, n)[i]] == Lineage(parent, n)[i - 1]
  {
    var p := RootPath(parent, n);
    RootPathStep(parent, n, |p| - 1 - i);
  }

  lemma LineageMember(parent: map<Node, Node>, n: Node, z: Node)
    requires Acyclic(parent)
    ensures z in Lineage(parent, n) <==> z in RootPath(parent, n)
  {
    ReverseMember(RootPath(parent, n), z);
  }

  /** The path from an ancestor is the rest of the path. */
  lemma {:induction false} RootPathSuffix(parent: map<Node, Node>, n: Node, i: nat)
    requires Acyclic(parent) && i < |RootPath(parent, n)|
    ensures RootPath(parent, RootPath(parent, n)[i]) == RootPath(parent, n)[i..]
    decreases Height(parent, n)
  {
    if i > 0 {
      var p := parent[n];
      var above := RootPath(parent, p);
      assert RootPath(parent, n) == [n] + above;
      assert RootPath(parent, n)[i] == above[i - 1];
      assert RootPath(parent, n)[i..] == above[i - 1..];
      RootPathSuffix(parent, p, i - 1);
    }
  }

  /** The lineage of an ancestor is a prefix of the lineage. */
  lemma AncestorLineage(parent: map<Node, Node>, n: Node, k: nat)
    requires Acyclic(parent) && k < |Lineage(parent, n)|
    ensures Lineage(parent, Lineage(parent, n)[k]) == Lineage(parent, n)[..k + 1]
  {
    var p := RootPath(parent, n);
    var i := |p| - 1 - k;
    RootPathSuffix(parent, n, i);
    ReverseSuffix(p, i);
  }

  /** A root path never visits a node twice. */
  lemma RootPathDistinct(parent: map<Node, Node>, n: Node)
    requires Acyclic(parent)
    ensures NoDuplicates(RootPath(parent, n))
  {
    var p := RootPath(parent, n);
    forall i, j | 0 <= i < j < |p| ensures p[i] != p[j] {
      RootPathSuffix(parent, n, i);
      RootPathSuffix(parent, n, j);
    }
  }

  lemma LineageDistinct(parent: map<Node, Node>, n: Node)
    requires Acyclic(parent)
    ensures NoDuplicates(Lineage(parent, n))
  {
    var p := RootPath(parent, n);
    var l := Lineage(parent, n);
    RootPathDistinct(parent, n);
    forall i, j | 0 <= i < j < |l| ensures l[i] != l[j] {
      assert l[i] == p[|p| - 1 - i] && l[j] == p[|p| - 1 - j];
    }
  }

  /** The number of ancestors `x` and `y` share (0 when they are in different trees). */
  function Shared(parent: map<Node, Node>, x: Node, y: Node): nat
    requires Acyclic(parent)
  {
    MatchLength(Lineage(parent, x), Lineage(parent, y))
  }

  /** The nodes strictly below the common ancestor on the way down to `x`, root-side first. */
  function Below(parent: map<Node, Node>, x: Node, y: Node): seq<Node>
    requires Acyclic(parent)
  {
    Lineage(parent, x)[Shared(parent, x, y)..]
  }

  lemma SharedSymmetric(parent: map<Node, Node>, x: Node, y: Node)
    requires Acyclic(parent)
    ensures Shared(parent, x, y) == Shared(parent, y, x)
  {
    MatchLengthSymmetric(Lineage(parent, x), Lineage(parent, y));
  }

  /** Two nodes share an ancestor exactly when they have the same root. */
  lemma SharedIffSameRoot(parent: map<Node, Node>, x: Node, y: Node)
    requires Acyclic(parent)
    ensures Shared(parent, x, y) >= 1 <==> Root(parent, x) == Root(parent, y)
  {
    var lx, ly := Lineage(parent, x), Lineage(parent, y);
    if lx[0] == ly[0] {
      MatchLengthAtLeast(lx, ly, 1);
    } else {
      assert lx[..1] != ly[..1];
    }
  }

  /** An ancestor of both nodes sits at the same depth in both lineages, above the divergence. */
  lemma CommonAncestorShared(parent: map<Node, Node>, x: Node, y: Node, k: nat)
    requires Acyclic(parent)
    requires k < |Lineage(parent, x)| && Lineage(parent, x)[k] in Lineage(parent, y)
    ensures k < Shared(parent, x, y) && Lineage(parent, y)[k] == Lineage(parent, x)[k]
  {
    var lx, ly := Lineage(parent, x), Lineage(parent, y);
    var k' :| 0 <= k' < |ly| && ly[k'] == lx[k];
    AncestorLineage(parent, x, k);
    AncestorLineage(parent, y, k');
    MatchLengthAtLeast(lx, ly, k + 1);
  }

  /** `s[i + 1]` is the parent of `s[i]`. */
  ghost predicate LinkUp(parent: map<Node, Node>, s: seq<Node>, i: nat)
    requires i + 1 < |s|
  {
    s[i] in parent && parent[s[i]] == s[i + 1]
  }

  /** `s[i]` is the parent of `s[i + 1]`. */
  ghost predicate LinkDown(parent: map<Node, Node>, s: seq<Node>, i: nat)
    requires i + 1 < |s|
  {
    s[i + 1] in parent && parent[s[i + 1]] == s[i]
  }

  /** The shape of SceneNode.path_to: an x-to-ancestor list and an ancestor-to-y list. */
  ghost predicate IsLcaPath(parent: map<Node, Node>, x: Node, y: Node, up: seq<Node>, down: seq<Node>) {
    && |up| >= 1 && |down| >= 1
    && up[0] == x && down[|down| - 1] == y && up[|up| - 1] == down[0]
    && (forall i: nat | i + 1 < |up| :: LinkUp(parent, up, i))
    && (forall i: nat | i + 1 < |down| :: LinkDown(parent, down, i))
    // the two branches meet only at the ancestor
    && (forall i, j :: 0 <= i < |up| - 1 && 0 < j < |down| ==> up[i] != down[j])
  }

  // The two lists `path_to` builds, for nodes that share `m >= 1` ancestors:
  // `x`'s root path cut just after the `m`-th ancestor, and `y`'s lineage from it.
  function UpList(parent: map<Node, Node>, x: Node, m: nat): seq<Node>
    requires Acyclic(parent) && 1 <= m <= |Lineage(parent, x)|
  {
    RootPath(parent, x)[..|RootPath(parent, x)| - m + 1]
  }

  function DownList(parent: map<Node, Node>, y: Node, m: nat): seq<Node>
    requires Acyclic(parent) && 1 <= m <= |Lineage(parent, y)|
  {
    Lineage(parent, y)[m - 1..]
  }

  lemma UpListChain(parent: map<Node, Node>, x: Node, m: nat)
    requires Acyclic(parent) && 1 <= m <= |Lineage(parent, x)|
    ensures var up := UpList(parent, x, m); forall i: nat | i + 1 < |up| :: LinkUp(parent, up, i)
  {
    var up := UpList(parent, x, m);
    forall i: nat | i + 1 < |up| ensures LinkUp(parent, up, i) {
      RootPathStep(parent, x, i);
    }
  }

  lemma DownListChain(parent: map<Node, Node>, y: Node, m: nat)
    requires Acyclic(parent) && 1 <= m <= |Lineage(parent, y)|
    ensures var down := DownList(parent, y, m); forall i: nat | i + 1 < |down| :: LinkDown(parent, down, i)
  {
    var down := DownList(parent, y, m);
    forall i: nat | i + 1 < |down| ensures LinkDown(parent, down, i) {
      LineageStep(parent, y, m + i);
    }
  }

  lemma LcaBranchesDisjoint(parent: map<Node, Node>, x: Node, y: Node)
    requires Acyclic(parent) && Shared(parent, x, y) >= 1
    ensures var m := Shared(parent, x, y);
      var up, down := UpList(parent, x, m), DownList(parent, y, m);
      forall i, j :: 0 <= i < |up| - 1 && 0 < j < |down| ==> up[i] != down[j]
  {
    var lx, ly, m := Lineage(parent, x), Lineage(parent, y), Shared(parent, x, y);
    var up, down := UpList(parent, x, m), DownList(parent, y, m);
    forall i, j | 0 <= i < |up| - 1 && 0 < j < |down| ensures up[i] != down[j] {
      var k := |lx| - 1 - i;
      assert up[i] == lx[k];
      if lx[k] == down[j] {
        assert down[j] == ly[m - 1 + j];
        CommonAncestorShared(parent, x, y, k);
      }
    }
  }

  /** The first list ends at the `m`-th node of the lineage. */
  lemma UpListEnd(parent: map<Node, Node>, x: Node, m: nat)
    requires Acyclic(parent) && 1 <= m <= |Lineage(parent, x)|
    ensures var up := UpList(parent, x, m); up[|up| - 1] == Lineage(parent, x)[m - 1]
  {
    var p := RootPath(parent, x);
    assert Lineage(parent, x)[m - 1] == p[|p| - m];
  }

  /** The first list ends at the `m`-th ancestor, where the second begins. */
  lemma LcaListsMeet(parent: map<Node, Node>, x: Node, y: Node)
    requires Acyclic(parent) && Shared(parent, x, y) >= 1
    ensures var m := Shared(parent, x, y);
      var up, down := UpList(parent, x, m), DownList(parent, y, m);
      up[|up| - 1] == down[0]
  {
    var lx, ly, m := Lineage(parent, x), Lineage(parent, y), Shared(parent, x, y);
    UpListEnd(parent, x, m);
    assert lx[..m][m - 1] == ly[..m][m - 1];
  }

  lemma {:induction false} LcaPathOfLineages(parent: map<Node, Node>, x: Node, y: Node)
    requires Acyclic(parent) && Shared(parent, x, y) >= 1
    ensures var m := Shared(parent, x, y);
      IsLcaPath(parent, x, y, UpList(parent, x, m), DownList(parent, y, m))
  {
    var m := Shared(parent, x, y);
    UpListChain(parent, x, m);
    DownListChain(parent, y, m);
    LcaBranchesDisjoint(parent, x, y);
    LcaListsMeet(parent, x, y);
  }

  /** `x.path_to(y)`. */
  function PathTo(parent: map<Node, Node>, x: Node, y: Node): (r: Result<(seq<Node>, seq<Node>)>)
    requires Acyclic(parent)
    ensures r.Ok? <==> Root(parent, x) == Root(parent, y)
    ensures r.Err? ==> r.error == DisjointTrees
    ensures r.Ok? ==> IsLcaPath(parent, x, y, r.value.0, r.value.1)
  {
    SharedIffSameRoot(parent, x, y);
    var rootToSelf := Lineage(parent, x);
    var rootToOther := Lineage(parent, y);
    var idx := MatchLength(rootToSelf, rootToOther) - 1;
    if idx < 0 then Err(DisjointTrees)
    else
      LcaPathOfLineages(parent, x, y);
      ReverseOfReversedSuffix(RootPath(parent, x), idx);
      Ok((Reverse(rootToSelf[idx..]), rootToOther[idx..]))
  }

  /**
   * The slices `self.t` walks: `path_to`'s first list without the ancestor,
   * reversed, and its second list without the ancestor, are the two branches
   * below the lowest common ancestor, root side first.
   */
  lemma PathToBranches(parent: map<Node, Node>, x: Node, y: Node)
    requires Acyclic(parent) && PathTo(parent, x, y).Ok?
    ensures var (up, down) := PathTo(parent, x, y).value;
      Reverse(up[..|up| - 1]) == Below(parent, x, y) && down[1..] == Below(parent, y, x)
  {
    var lx, m := Lineage(parent, x), Shared(parent, x, y);
    SharedIffSameRoot(parent, x, y);
    assert PathTo(parent, x, y).value == (Reverse(lx[m - 1..]), Lineage(parent, y)[m - 1..]);
    ReverseDropLast(lx[m - 1..]);
    assert lx[m - 1..][1..] == lx[m..];
    ReverseReverse(lx[m..]);
    SharedSymmetric(parent, x, y);
    assert Lineage(parent, y)[m - 1..][1..] == Lineage(parent, y)[m..];
  }

  /** A node is on one of `path_to`'s slices exactly when it is on the corresponding branch. */
  lemma SlicesAreBranches(parent: map<Node, Node>, x: Node, y: Node, z: Node)
    requires Acyclic(parent) && PathTo(parent, x, y).Ok?
    ensures Shared(parent, x, y) >= 1 && Shared(parent, y, x) >= 1
    ensures var (up, down) := PathTo(parent, x, y).value;
      && (z in up[..|up| - 1] <==> z in Below(parent, x, y))
      && (z in down[1..] <==> z in Below(parent, y, x))
  {
    var (up, down) := PathTo(parent, x, y).value;
    PathToBranches(parent, x, y);
    ReverseMember(up[..|up| - 1], z);
    SharedIffSameRoot(parent, x, y);
    SharedSymmetric(parent, x, y);
  }

  /** A node shares all its ancestors with itself: nothing lies below the ancestor. */
  lemma BelowSelf(parent: map<Node, Node>, x: Node)
    requires Acyclic(parent)
    ensures Below(parent, x, x) == []
  {
    var lx := Lineage(parent, x);
    MatchLengthUnique(lx, lx, |lx|);
  }

  /**
   * For the node `z` at depth `k` on `y`'s branch strictly below the lowest
   * common ancestor of `x` and `y`: `z` has a parent, and that parent
   * shares the same ancestors with `x` as `y` does.
   */
  lemma {:induction false} BranchParent(parent: map<Node, Node>, x: Node, y: Node, k: nat)
    requires Acyclic(parent) && 1 <= Shared(parent, x, y) <= k < |Lineage(parent, y)|
    ensures var ly, m, z := Lineage(parent, y), Shared(parent, x, y), Lineage(parent, y)[k];
      && z in parent
      && Below(parent, parent[z], x) == ly[m..k]
      && Below(parent, x, parent[z]) == Below(parent, x, y)
  {
    var lx, ly, m := Lineage(parent, x), Lineage(parent, y), Shared(parent, x, y);
    var z := ly[k];
    LineageStep(parent, y, k);
    var p := parent[z];
    AncestorLineage(parent, y, k - 1);
    var lp := Lineage(parent, p);
    SharedSymmetric(parent, x, y);
    assert lp[..m] == ly[..m];
    MatchLengthUnique(lp, lx, m);
    SharedSymmetric(parent, x, p);
  }

  /** Below a node `z` on `y`'s root path, `y`'s lineage continues past `z` and `z`'s stops. */
  lemma {:induction false} BranchChild(parent: map<Node, Node>, y: Node, k: nat)
    requires Acyclic(parent) && k < |Lineage(parent, y)|
    ensures var ly, z := Lineage(parent, y), Lineage(parent, y)[k];
      Below(parent, y, z) == ly[k + 1..] && Below(parent, z, y) == []
  {
    var ly := Lineage(parent, y);
    var z := ly[k];
    AncestorLineage(parent, y, k);
    MatchLengthUnique(ly, Lineage(parent, z), k + 1);
    SharedSymmetric(parent, y, z);
    BelowSelf(parent, z);
  }

  /** A node strictly below the lowest common ancestor on `y`'s branch is not an ancestor of `x`. */
  lemma {:induction false} BranchOffOther(parent: map<Node, Node>, x: Node, y: Node, k: nat)
    requires Acyclic(parent) && Shared(parent, x, y) <= k < |Lineage(parent, y)|
    ensures Lineage(parent, y)[k] !in Lineage(parent, x)
  {
    SharedSymmetric(parent, x, y);
    if Lineage(parent, y)[k] in Lineage(parent, x) {
      CommonAncestorShared(parent, y, x, k);
    }
  }

  /** `c` is an ancestor of both, and every common ancestor is an ancestor of `c`. */
  ghost predicate IsLowestCommonAncestor(parent: map<Node, Node>, x: Node, y: Node, c: Node)
    requires Acyclic(parent)
  {
    && c in RootPath(parent, x) && c in RootPath(parent, y)
    && forall z :: z in RootPath(parent, x) && z in RootPath(parent, y) ==> z in RootPath(parent, c)
  }

  lemma LastSharedIsLowest(parent: map<Node, Node>, x: Node, y: Node)
    requires Acyclic(parent) && Shared(parent, x, y) >= 1
    ensures IsLowestCommonAncestor(parent, x, y, Lineage(parent, x)[Shared(parent, x, y) - 1])
  {
    var lx, ly, m := Lineage(parent, x), Lineage(parent, y), Shared(parent, x, y);
    var c := lx[m - 1];
    assert ly[m - 1] == c by { assert lx[..m][m - 1] == ly[..m][m - 1]; }
    LineageMember(parent, x, c);
    LineageMember(parent, y, c);
    AncestorLineage(parent, x, m - 1);
    forall z | z in RootPath(parent, x) && z in RootPath(parent, y) ensures z in RootPath(parent, c) {
      LineageMember(parent, x, z);
      LineageMember(parent, y, z);
      var k :| 0 <= k < |lx| && lx[k] == z;
      CommonAncestorShared(parent, x, y, k);
      assert z == lx[..m][k];
      LineageMember(parent, c, z);
    }
  }

  /** `x.common_parent(y)`. */
  function CommonParent(parent: map<Node, Node>, x: Node, y: Node): (r: Result<Node>)
    requires Acyclic(parent)
    ensures r.Ok? <==> Root(parent, x) == Root(parent, y)
    ensures r.Err? ==> r.error == DisjointTrees
    ensures r.Ok? ==> IsLowestCommonAncestor(parent, x, y, r.value)
  {
    match PathTo(parent, x, y)
    case Err(e) => Err(e)
    case Ok((up, _)) =>
      LastSharedIsLowest(parent, x, y);
      Ok(up[|up| - 1])
  }
}
