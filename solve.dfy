/**
 * `SceneNode.solve`: the entry to give a node so that the transform between
 * two other nodes comes out as requested, as a function of the parent links
 * and of the state's entries.
 */
module Solving {
  import opened Basics
  import opened Groups
  import opened Sequences
  import opened Paths
  import opened Frames

  /** `f @ v @ h` for the results of two `t` calls, the left one evaluated first. */
  function Then3<T>(g: Group<T>, f: Result<T>, v: T, h: Result<T>): Result<T> {
    match f
    case Err(e) => Err(e)
    case Ok(fv) =>
      match h
      case Err(e) => Err(e)
      case Ok(hv) => Ok(g.compose(g.compose(fv, v), hv))
  }

  /** The depth at which a node strictly below the lowest common ancestor sits on `y`'s lineage. */
  lemma BelowIndex(parent: map<Node, Node>, x: Node, y: Node, z: Node) returns (k: nat)
    requires Acyclic(parent) && z in Below(parent, y, x)
    ensures Shared(parent, x, y) <= k < |Lineage(parent, y)| && Lineage(parent, y)[k] == z
  {
    SharedSymmetric(parent, x, y);
    var ly, m := Lineage(parent, y), Shared(parent, x, y);
    var j :| 0 <= j < |ly| - m && ly[m..][j] == z;
    k := m + j;
  }

  /**
   * A node `z` strictly below the lowest common ancestor on `y`'s branch
   * splits that branch into the part `above` it and the part `below` it:
   * `z` has a parent, `z.parent.t(x)` walks `above` and `x`'s branch,
   * `y.t(z)` walks `below` only, and none of these contains `z`.
   */
  lemma BranchSplit(parent: map<Node, Node>, x: Node, y: Node, z: Node) returns (above: seq<Node>, below: seq<Node>)
    requires Acyclic(parent) && Shared(parent, x, y) >= 1 && z in Below(parent, y, x)
    ensures z in parent
    ensures Below(parent, y, x) == above + [z] + below
    ensures Below(parent, parent[z], x) == above && Below(parent, x, parent[z]) == Below(parent, x, y)
    ensures Below(parent, y, z) == below && Below(parent, z, y) == []
    ensures z !in Below(parent, x, y) && z !in above && z !in below
  {
    var k := BelowIndex(parent, x, y, z);
    var ly, m := Lineage(parent, y), Shared(parent, x, y);
    above, below := ly[m..k], ly[k + 1..];
    BranchParent(parent, x, y, k);
    BranchChild(parent, y, k);
    LineageDistinct(parent, y);
    SplitAround(ly, m, k);
    SharedSymmetric(parent, x, y);
    BranchOffOther(parent, x, y, k);
    assert z !in Below(parent, x, y) by {
      var lx := Lineage(parent, x);
      assert forall n :: n in lx[m..] ==> n in lx;
    }
  }

  lemma BranchHasParent(parent: map<Node, Node>, x: Node, y: Node, z: Node)
    requires Acyclic(parent) && Shared(parent, x, y) >= 1 && z in Below(parent, y, x)
    ensures z in parent
  {
    var _, _ := BranchSplit(parent, x, y, z);
  }

  /**
   * One case of `solve`, for `z` on the branch below the lowest common
   * ancestor towards `x`: `z.parent.t(y) @ v @ x.t(z)`.
   */
  function BranchCase<T>(g: Group<T>, parent: map<Node, Node>, E: map<Node, T>, z: Node, x: Node, y: Node, v: T): (r: Result<T>)
    requires Acyclic(parent) && Shared(parent, y, x) >= 1 && z in Below(parent, x, y)
    ensures r.Err? ==> r.error == DisjointTrees || r.error.MissingEntry?
  {
    BranchHasParent(parent, y, x, z);
    Then3(g, Relative(g, parent, E, parent[z], y), v, Relative(g, parent, E, x, z))
  }

  /**
   * The two cases of `solve` after `a.path_to(b)`: `None` when `self` is on
   * neither branch below the lowest common ancestor (the `else` of the
   * source), otherwise the result of the case that applies.
   */
  function SolveCases<T>(g: Group<T>, parent: map<Node, Node>, E: map<Node, T>, self: Node, a: Node, b: Node, atb: T): (r: Option<Result<T>>)
    requires Acyclic(parent)
    ensures r.None? <==> Root(parent, a) == Root(parent, b) && self !in Below(parent, a, b) && self !in Below(parent, b, a)
    ensures r.Some? && r.value.Err? ==> r.value.error == DisjointTrees || r.value.error.MissingEntry?
  {
    match PathTo(parent, a, b)
    case Err(e) => Some(Err(e))
    case Ok((up, down)) =>
      SlicesAreBranches(parent, a, b, self);
      SharedIffSameRoot(parent, a, b);
      if self in up[..|up| - 1] then Some(BranchCase(g, parent, E, self, a, b, g.inv(atb)))
      else if self in down[1..] then Some(BranchCase(g, parent, E, self, b, a, atb))
      else None
  }

  /** `self.solve(a, b, a_t_b, state)`, failing with `ValueError` when `self` is on neither branch. */
  function Solve<T>(g: Group<T>, parent: map<Node, Node>, E: map<Node, T>, self: Node, a: Node, b: Node, atb: T): (r: Result<T>)
    requires Acyclic(parent)
    ensures r == Err(NotOnBranch) <==>
      Root(parent, a) == Root(parent, b) && self !in Below(parent, a, b) && self !in Below(parent, b, a)
  {
    match SolveCases(g, parent, E, self, a, b, atb)
    case None => Err(NotOnBranch)
    case Some(r) => r
  }

  /** One case of `solve` succeeds exactly when both of its `t` calls do. */
  lemma BranchCaseSucceeds<T>(g: Group<T>, parent: map<Node, Node>, E: map<Node, T>, z: Node, x: Node, y: Node, v: T)
    requires Acyclic(parent) && Shared(parent, y, x) >= 1 && z in Below(parent, x, y)
    ensures z in parent
    ensures BranchCase(g, parent, E, z, x, y, v).Ok? <==>
      Relative(g, parent, E, parent[z], y).Ok? && Relative(g, parent, E, x, z).Ok?
  {
    BranchHasParent(parent, y, x, z);
  }

  /**
   * `solve` succeeds exactly when `a` and `b` share a tree, `self` is on one
   * of the two branches below their lowest common ancestor (the branch
   * towards `a` taking precedence), and the two `t` calls of that case succeed.
   */
  lemma SolveSucceeds<T>(g: Group<T>, parent: map<Node, Node>, E: map<Node, T>, self: Node, a: Node, b: Node, atb: T)
    requires Acyclic(parent)
    ensures Solve(g, parent, E, self, a, b, atb).Ok? <==>
      && Root(parent, a) == Root(parent, b)
      && self in parent
      && if self in Below(parent, a, b)
         then Relative(g, parent, E, parent[self], b).Ok? && Relative(g, parent, E, a, self).Ok?
         else self in Below(parent, b, a) && Relative(g, parent, E, parent[self], a).Ok? && Relative(g, parent, E, b, self).Ok?
  {
    SharedIffSameRoot(parent, a, b);
    if PathTo(parent, a, b).Ok? {
      SlicesAreBranches(parent, a, b, self);
      if self in Below(parent, a, b) {
        BranchCaseSucceeds(g, parent, E, self, a, b, g.inv(atb));
      } else if self in Below(parent, b, a) {
        BranchCaseSucceeds(g, parent, E, self, b, a, atb);
      }
    }
  }

  /** `solve` as written: the `ValueError` of the last branch is built but not raised, so it returns `None`. */
  function SolveAsWritten<T>(g: Group<T>, parent: map<Node, Node>, E: map<Node, T>, self: Node, a: Node, b: Node, atb: T): (r: Result<Option<T>>)
    requires Acyclic(parent)
    ensures r == Ok(None) <==>
      Root(parent, a) == Root(parent, b) && self !in Below(parent, a, b) && self !in Below(parent, b, a)
  {
    match SolveCases(g, parent, E, self, a, b, atb)
    case None => Ok(None)
    case Some(Err(e)) => Err(e)
    case Some(Ok(v)) => Ok(Some(v))
  }

  /**
   * As written, `solve` returns `None` without complaint for a node on
   * neither branch, for instance whenever `a` and `b` are the same node,
   * where the corrected `Solve` fails; elsewhere the two agree.
   */
  lemma SolveAsWrittenReturnsNone<T>(g: Group<T>, parent: map<Node, Node>, E: map<Node, T>, self: Node, a: Node, b: Node, atb: T)
    requires Acyclic(parent)
    ensures SolveAsWritten(g, parent, E, self, a, a, atb) == Ok(None)
    ensures Solve(g, parent, E, self, a, a, atb) == Err(NotOnBranch)
    ensures Solve(g, parent, E, self, a, b, atb).Ok? ==>
      SolveAsWritten(g, parent, E, self, a, b, atb) == Ok(Some(Solve(g, parent, E, self, a, b, atb).value))
  {
    BelowSelf(parent, a);
  }

  /** The three-factor product that isolates `z`'s entry, on plain sequences. */
  lemma {:induction false} SpliceSolve<T(!new)>(g: Group<T>, E: map<Node, T>, other: seq<Node>, above: seq<Node>, z: Node, below: seq<Node>, v: T)
    requires IsGroup(g) && z !in other && z !in above && z !in below
    requires Chain(g, E, other).Ok? && Chain(g, E, above).Ok? && Chain(g, E, below).Ok?
    ensures var ca, cp, cr := Chain(g, E, other).value, Chain(g, E, above).value, Chain(g, E, below).value;
      var s := g.compose(g.compose(g.compose(g.inv(cp), ca), v), g.inv(cr));
      Join(g, Chain(g, E[z := s], other), Chain(g, E[z := s], above + [z] + below)) == Ok(v)
  {
    var ca, cp, cr := Chain(g, E, other).value, Chain(g, E, above).value, Chain(g, E, below).value;
    var s := g.compose(g.compose(g.compose(g.inv(cp), ca), v), g.inv(cr));
    var F := E[z := s];
    ChainFrame(g, E, F, other);
    ChainFrame(g, E, F, above);
    ChainFrame(g, E, F, below);
    ChainOne(g, F, z);
    ChainAppend(g, F, above, [z]);
    ChainAppend(g, F, above + [z], below);
    Isolate(g, ca, cp, cr, v);
  }

  /**
   * For `z` strictly below the lowest common ancestor on `y`'s branch, the
   * entry `z.parent.t(x) @ v @ y.t(z)` makes `x.t(y)` come out as `v`.
   */
  lemma {:induction false} BranchSolve<T(!new)>(g: Group<T>, parent: map<Node, Node>, E: map<Node, T>, x: Node, y: Node, z: Node, v: T)
    requires IsGroup(g) && Acyclic(parent) && Shared(parent, x, y) >= 1 && z in Below(parent, y, x)
    ensures z in parent
    ensures var f, h := Relative(g, parent, E, parent[z], x), Relative(g, parent, E, y, z);
      f.Ok? && h.Ok? ==> Relative(g, parent, E[z := g.compose(g.compose(f.value, v), h.value)], x, y) == Ok(v)
  {
    var above, below := BranchSplit(parent, x, y, z);
    var other := Below(parent, x, y);
    var f, h := Relative(g, parent, E, parent[z], x), Relative(g, parent, E, y, z);
    if f.Ok? && h.Ok? {
      assert h.value == g.inv(Chain(g, E, below).value) by {
        Identity(g, g.inv(Chain(g, E, below).value));
      }
      SpliceSolve(g, E, other, above, z, below, v);
    }
  }

  /** After `state[self] = self.solve(a, b, a_t_b, state)`, `a.t(b, state)` is `a_t_b`. */
  lemma SolveAchieves<T(!new)>(g: Group<T>, parent: map<Node, Node>, E: map<Node, T>, self: Node, a: Node, b: Node, atb: T)
    requires IsGroup(g) && Acyclic(parent) && Solve(g, parent, E, self, a, b, atb).Ok?
    ensures Relative(g, parent, E[self := Solve(g, parent, E, self, a, b, atb).value], a, b) == Ok(atb)
  {
    SharedIffSameRoot(parent, a, b);
    SlicesAreBranches(parent, a, b, self);
    var s := Solve(g, parent, E, self, a, b, atb).value;
    if self in Below(parent, a, b) {
      BranchSolve(g, parent, E, b, a, self, g.inv(atb));
      RelativeSymmetric(g, parent, E[self := s], b, a);
      InverseInverse(g, atb);
    } else {
      BranchSolve(g, parent, E, a, b, self, atb);
    }
  }

  /** One case of `solve` never reads the entry of the node it solves for. */
  lemma BranchCaseIgnoresOwnEntry<T>(g: Group<T>, parent: map<Node, Node>, E: map<Node, T>, F: map<Node, T>, z: Node, x: Node, y: Node, v: T)
    requires Acyclic(parent) && Shared(parent, y, x) >= 1 && z in Below(parent, x, y)
    requires forall n :: n != z ==> (n in E <==> n in F) && (n in E ==> E[n] == F[n])
    ensures BranchCase(g, parent, E, z, x, y, v) == BranchCase(g, parent, F, z, x, y, v)
  {
    var _, _ := BranchSplit(parent, y, x, z);
    RelativeReads(g, parent, E, F, parent[z], y);
    RelativeReads(g, parent, E, F, x, z);
  }

  /** `solve` never reads the entry of `self`: two states that differ only there give the same result. */
  lemma SolveIgnoresOwnEntry<T>(g: Group<T>, parent: map<Node, Node>, E: map<Node, T>, F: map<Node, T>, self: Node, a: Node, b: Node, atb: T)
    requires Acyclic(parent)
    requires forall n :: n != self ==> (n in E <==> n in F) && (n in E ==> E[n] == F[n])
    ensures Solve(g, parent, E, self, a, b, atb) == Solve(g, parent, F, self, a, b, atb)
  {
    SharedIffSameRoot(parent, a, b);
    if PathTo(parent, a, b).Ok? {
      SlicesAreBranches(parent, a, b, self);
      if self in Below(parent, a, b) {
        BranchCaseIgnoresOwnEntry(g, parent, E, F, self, a, b, g.inv(atb));
      } else if self in Below(parent, b, a) {
        BranchCaseIgnoresOwnEntry(g, parent, E, F, self, b, a, atb);
      }
    }
  }
}
