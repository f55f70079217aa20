/**
 * `SceneNode.t`: the transform of one node in the frame of another, as a
 * function of the parent links and of the state's entries. The entry of a
 * node is its transform relative to its parent (`parent_t_node`).
 */
module Frames {
  import opened Basics
  import opened Groups
  import opened Sequences
  import opened Paths

  /**
   * The accumulation `acc = acc @ state[node]` over `s`, starting from the
   * identity; the first node without an entry stops it with a `KeyError`.
   */
  function Chain<T>(g: Group<T>, E: map<Node, T>, s: seq<Node>): (r: Result<T>)
    ensures r.Ok? <==> forall n :: n in s ==> n in E
    ensures r.Err? ==> r.error.MissingEntry? && r.error.node in s && r.error.node !in E
    decreases |s|
  {
    if s == [] then Ok(g.identity)
    else
      var front, n := s[..|s| - 1], s[|s| - 1];
      assert forall z :: z in s <==> z in front || z == n;
      match Chain(g, E, front)
      case Err(e) => Err(e)
      case Ok(acc) => if n in E then Ok(g.compose(acc, E[n])) else Err(MissingEntry(n))
  }

  /** The `KeyError` names the first node of `s` without an entry. */
  lemma {:induction false} ChainStopsAtFirstMissing<T>(g: Group<T>, E: map<Node, T>, s: seq<Node>, i: nat)
    requires i < |s| && s[i] !in E && forall j :: 0 <= j < i ==> s[j] in E
    ensures Chain(g, E, s) == Err(MissingEntry(s[i]))
    decreases |s|
  {
    if i < |s| - 1 {
      var front := s[..|s| - 1];
      assert front[i] == s[i];
      ChainStopsAtFirstMissing(g, E, front, i);
    } else {
      assert forall z :: z in s[..|s| - 1] ==> z in E;
    }
  }

  /** Two states that agree on the nodes of `s`: same presence, same entries. */
  ghost predicate AgreeOn<T>(E: map<Node, T>, F: map<Node, T>, s: seq<Node>) {
    forall n :: n in s ==> (n in E <==> n in F) && (n in E ==> E[n] == F[n])
  }

  /** The accumulation reads only the entries of the nodes it walks. */
  lemma {:induction false} ChainFrame<T>(g: Group<T>, E: map<Node, T>, F: map<Node, T>, s: seq<Node>)
    requires AgreeOn(E, F, s)
    ensures Chain(g, E, s) == Chain(g, F, s)
    decreases |s|
  {
    if s != [] {
      var front := s[..|s| - 1];
      assert forall z :: z in front ==> z in s;
      ChainFrame(g, E, F, front);
    }
  }

  /** Accumulating over `a + b` composes the accumulations over `a` and over `b`. */
  lemma {:induction false} ChainAppend<T(!new)>(g: Group<T>, E: map<Node, T>, a: seq<Node>, b: seq<Node>)
    requires IsGroup(g)
    ensures Chain(g, E, a + b).Ok? <==> Chain(g, E, a).Ok? && Chain(g, E, b).Ok?
    ensures Chain(g, E, a + b).Ok? ==>
      Chain(g, E, a + b).value == g.compose(Chain(g, E, a).value, Chain(g, E, b).value)
    decreases |b|
  {
    assert forall z :: z in a + b <==> z in a || z in b;
    if b == [] {
      assert a + b == a;
      if Chain(g, E, a).Ok? {
        Identity(g, Chain(g, E, a).value);
      }
    } else {
      var front, n := b[..|b| - 1], b[|b| - 1];
      assert (a + b)[..|a + b| - 1] == a + front;
      assert (a + b)[|a + b| - 1] == n;
      ChainAppend(g, E, a, front);
      if Chain(g, E, a + b).Ok? {
        assert forall z :: z in front ==> z in b;
        Associative(g, Chain(g, E, a).value, Chain(g, E, front).value, E[n]);
      }
    }
  }

  /** The accumulation over one node is its entry. */
  lemma ChainOne<T(!new)>(g: Group<T>, E: map<Node, T>, n: Node)
    requires IsGroup(g) && n in E
    ensures Chain(g, E, [n]) == Ok(E[n])
  {
    assert [n][..0] == [];
    Identity(g, E[n]);
  }

  /** `common_t_self.inv @ common_t_other`, after both accumulations succeed. */
  function Join<T>(g: Group<T>, toSelf: Result<T>, toOther: Result<T>): Result<T> {
    match toSelf
    case Err(e) => Err(e)
    case Ok(s) =>
      match toOther
      case Err(e) => Err(e)
      case Ok(o) => Ok(g.compose(g.inv(s), o))
  }

  /**
   * The value of `x.t(y, state)`: `inv(C_x) @ C_y`, where `C_n` accumulates
   * the entries on the branch from just below the lowest common ancestor of
   * `x` and `y` down to `n`. Nodes that share no ancestor fail.
   */
  function Relative<T>(g: Group<T>, parent: map<Node, Node>, E: map<Node, T>, x: Node, y: Node): (r: Result<T>)
    requires Acyclic(parent)
    ensures r.Err? ==> r.error == DisjointTrees || r.error.MissingEntry?
  {
    if Shared(parent, x, y) == 0 then Err(DisjointTrees)
    else Join(g, Chain(g, E, Below(parent, x, y)), Chain(g, E, Below(parent, y, x)))
  }

  /** The two accumulations `x.t(y)` performs over the slices of `x.path_to(y)` give `Relative`. */
  lemma RelativeAlongPathTo<T>(g: Group<T>, parent: map<Node, Node>, E: map<Node, T>, x: Node, y: Node)
    requires Acyclic(parent)
    ensures PathTo(parent, x, y).Err? ==> Relative(g, parent, E, x, y) == Err(DisjointTrees)
    ensures PathTo(parent, x, y).Ok? ==> var (up, down) := PathTo(parent, x, y).value;
      Relative(g, parent, E, x, y) == Join(g, Chain(g, E, Reverse(up[..|up| - 1])), Chain(g, E, down[1..]))
  {
    SharedIffSameRoot(parent, x, y);
    if PathTo(parent, x, y).Ok? {
      PathToBranches(parent, x, y);
    }
  }

  /** `x.t(y)` succeeds exactly for nodes of one tree whose branch nodes all have entries. */
  lemma RelativeDefined<T>(g: Group<T>, parent: map<Node, Node>, E: map<Node, T>, x: Node, y: Node)
    requires Acyclic(parent)
    ensures Relative(g, parent, E, x, y).Ok? <==>
      && Root(parent, x) == Root(parent, y)
      && (forall n :: n in Below(parent, x, y) ==> n in E)
      && (forall n :: n in Below(parent, y, x) ==> n in E)
  {
    SharedIffSameRoot(parent, x, y);
  }

  /** `x.t(y)` reads only the entries of the two branches below the lowest common ancestor. */
  lemma RelativeReads<T>(g: Group<T>, parent: map<Node, Node>, E: map<Node, T>, F: map<Node, T>, x: Node, y: Node)
    requires Acyclic(parent)
    requires AgreeOn(E, F, Below(parent, x, y)) && AgreeOn(E, F, Below(parent, y, x))
    ensures Relative(g, parent, E, x, y) == Relative(g, parent, F, x, y)
  {
    ChainFrame(g, E, F, Below(parent, x, y));
    ChainFrame(g, E, F, Below(parent, y, x));
  }

  /** A shared ancestor is not on the branch below the lowest common ancestor. */
  lemma AboveNotBelow(parent: map<Node, Node>, x: Node, y: Node, z: Node)
    requires Acyclic(parent) && z in Lineage(parent, x)[..Shared(parent, x, y)]
    ensures z !in Below(parent, x, y)
  {
    var lx, m := Lineage(parent, x), Shared(parent, x, y);
    LineageDistinct(parent, x);
    var i :| 0 <= i < m && lx[i] == z;
    assert forall j :: 0 <= j < |lx| - m ==> Below(parent, x, y)[j] == lx[m + j];
  }

  /**
   * The entries of the lowest common ancestor and of every node above it,
   * the root included, are never read: changing or removing one leaves
   * `x.t(y)` as it was.
   */
  lemma {:induction false} RelativeIgnoresAncestors<T>(g: Group<T>, parent: map<Node, Node>, E: map<Node, T>, x: Node, y: Node, z: Node, v: T)
    requires Acyclic(parent) && Root(parent, x) == Root(parent, y)
    requires z in RootPath(parent, CommonParent(parent, x, y).value)
    ensures Relative(g, parent, E[z := v], x, y) == Relative(g, parent, E, x, y)
    ensures Relative(g, parent, E - {z}, x, y) == Relative(g, parent, E, x, y)
  {
    var lx, ly, m := Lineage(parent, x), Lineage(parent, y), Shared(parent, x, y);
    SharedIffSameRoot(parent, x, y);
    var c := lx[m - 1];
    assert CommonParent(parent, x, y).value == c;
    assert z in lx[..m] by {
      LineageMember(parent, c, z);
      AncestorLineage(parent, x, m - 1);
    }
    AboveNotBelow(parent, x, y, z);
    assert z in ly[..Shared(parent, y, x)] by {
      SharedSymmetric(parent, x, y);
      assert lx[..m] == ly[..m];
    }
    AboveNotBelow(parent, y, x, z);
    RelativeReads(g, parent, E, E[z := v], x, y);
    RelativeReads(g, parent, E, E - {z}, x, y);
  }

  /** `x.t(x)` is the identity, whatever the state holds. */
  lemma RelativeSelf<T(!new)>(g: Group<T>, parent: map<Node, Node>, E: map<Node, T>, x: Node)
    requires IsGroup(g) && Acyclic(parent)
    ensures Relative(g, parent, E, x, x) == Ok(g.identity)
  {
    MatchLengthUnique(Lineage(parent, x), Lineage(parent, x), |Lineage(parent, x)|);
    BelowSelf(parent, x);
    InverseOfIdentity(g);
    Identity(g, g.identity);
  }

  /** `y.t(x)` succeeds exactly when `x.t(y)` does, and is its inverse. */
  lemma RelativeSymmetric<T(!new)>(g: Group<T>, parent: map<Node, Node>, E: map<Node, T>, x: Node, y: Node)
    requires IsGroup(g) && Acyclic(parent)
    ensures Relative(g, parent, E, y, x).Ok? <==> Relative(g, parent, E, x, y).Ok?
    ensures Relative(g, parent, E, x, y).Ok? ==>
      Relative(g, parent, E, y, x).value == g.inv(Relative(g, parent, E, x, y).value)
  {
    SharedSymmetric(parent, x, y);
    var cx, cy := Chain(g, E, Below(parent, x, y)), Chain(g, E, Below(parent, y, x));
    if cx.Ok? && cy.Ok? {
      InverseOfQuotient(g, cx.value, cy.value);
    }
  }

  /** A common first stretch `p` of the two accumulations cancels out of `Join`. */
  lemma JoinDropsCommonPrefix<T(!new)>(g: Group<T>, E: map<Node, T>, p: seq<Node>, a: seq<Node>, b: seq<Node>)
    requires IsGroup(g) && Chain(g, E, p + a).Ok? && Chain(g, E, p + b).Ok?
    ensures Join(g, Chain(g, E, a), Chain(g, E, b)) ==
      Ok(g.compose(g.inv(Chain(g, E, p + a).value), Chain(g, E, p + b).value))
  {
    ChainAppend(g, E, p, a);
    ChainAppend(g, E, p, b);
    CancelCommonPrefix(g, Chain(g, E, p).value, Chain(g, E, a).value, Chain(g, E, b).value);
  }

  /** For two sequences equal up to `m`, accumulating from any `k <= m` gives the same `Join` as from `m`. */
  lemma JoinAfterCommonPrefix<T(!new)>(g: Group<T>, E: map<Node, T>, s: seq<Node>, t: seq<Node>, k: nat, m: nat)
    requires IsGroup(g) && k <= m <= |s| && m <= |t| && s[..m] == t[..m]
    requires Chain(g, E, s[k..]).Ok? && Chain(g, E, t[k..]).Ok?
    ensures Join(g, Chain(g, E, s[m..]), Chain(g, E, t[m..])) ==
      Ok(g.compose(g.inv(Chain(g, E, s[k..]).value), Chain(g, E, t[k..]).value))
  {
    var p := s[k..m];
    assert s[k..] == p + s[m..];
    assert t[k..] == p + t[m..] by {
      assert t[k..m] == p;
    }
    JoinDropsCommonPrefix(g, E, p, s[m..], t[m..]);
  }

  /**
   * Any common ancestor may stand in for the lowest one: starting both
   * accumulations after the first `k` shared ancestors gives the same `x.t(y)`.
   */
  lemma {:induction false} RelativeFromAncestor<T(!new)>(g: Group<T>, parent: map<Node, Node>, E: map<Node, T>, x: Node, y: Node, k: nat)
    requires IsGroup(g) && Acyclic(parent) && 1 <= k <= Shared(parent, x, y)
    requires Chain(g, E, Lineage(parent, x)[k..]).Ok? && Chain(g, E, Lineage(parent, y)[k..]).Ok?
    ensures Relative(g, parent, E, x, y) ==
      Ok(g.compose(g.inv(Chain(g, E, Lineage(parent, x)[k..]).value), Chain(g, E, Lineage(parent, y)[k..]).value))
  {
    var lx, ly, m := Lineage(parent, x), Lineage(parent, y), Shared(parent, x, y);
    SharedSymmetric(parent, x, y);
    JoinAfterCommonPrefix(g, E, lx, ly, k, m);
  }

  /** `root_t_n`: the entries from the root's child down to `n`, accumulated. */
  function Pose<T>(g: Group<T>, parent: map<Node, Node>, E: map<Node, T>, n: Node): Result<T>
    requires Acyclic(parent)
  {
    Chain(g, E, Lineage(parent, n)[1..])
  }

  /** With every entry along both lineages present, `x.t(y) == inv(root_t_x) @ root_t_y`. */
  lemma RelativeViaRoot<T(!new)>(g: Group<T>, parent: map<Node, Node>, E: map<Node, T>, x: Node, y: Node)
    requires IsGroup(g) && Acyclic(parent) && Root(parent, x) == Root(parent, y)
    requires Pose(g, parent, E, x).Ok? && Pose(g, parent, E, y).Ok?
    ensures Relative(g, parent, E, x, y) == Ok(g.compose(g.inv(Pose(g, parent, E, x).value), Pose(g, parent, E, y).value))
  {
    SharedIffSameRoot(parent, x, y);
    RelativeFromAncestor(g, parent, E, x, y, 1);
  }

  /** Frames chain: `x.t(y) @ y.t(z) == x.t(z)` in one fully populated tree. */
  lemma RelativeCompose<T(!new)>(g: Group<T>, parent: map<Node, Node>, E: map<Node, T>, x: Node, y: Node, z: Node)
    requires IsGroup(g) && Acyclic(parent)
    requires Root(parent, x) == Root(parent, y) == Root(parent, z)
    requires Pose(g, parent, E, x).Ok? && Pose(g, parent, E, y).Ok? && Pose(g, parent, E, z).Ok?
    ensures Relative(g, parent, E, x, y).Ok? && Relative(g, parent, E, y, z).Ok?
    ensures Relative(g, parent, E, x, z) ==
      Ok(g.compose(Relative(g, parent, E, x, y).value, Relative(g, parent, E, y, z).value))
  {
    RelativeViaRoot(g, parent, E, x, y);
    RelativeViaRoot(g, parent, E, y, z);
    RelativeViaRoot(g, parent, E, x, z);
    Telescope(g, Pose(g, parent, E, x).value, Pose(g, parent, E, y).value, Pose(g, parent, E, z).value);
  }
}
