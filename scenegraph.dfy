/**
 * The scene nodes and their mutable `_parent` fields, gathered in one
 * object: `parent` holds the link of every node that has one, and `next`
 * is the identity the next `SceneNode(...)` receives. The methods are the
 * imperative members of `SceneNode`; each is proved to compute the
 * function of the parent map that the other modules reason about.
 */
module Scenes {
  import opened Basics
  import opened Groups
  import opened Sequences
  import opened Paths
  import opened Reparent
  import opened Frames
  import opened States
  import opened Solving

  /** Every node on a root path is the start node or the parent of some node. */
  lemma RootPathNodes(parent: map<Node, Node>, n: Node, z: Node)
    requires Acyclic(parent) && z in RootPath(parent, n)
    ensures z == n || z in parent.Values
  {
    var p := RootPath(parent, n);
    var i :| 0 <= i < |p| && p[i] == z;
    if i > 0 {
      RootPathStep(parent, n, i - 1);
    }
  }

  /** Updating a map adds at most the new value to its values. */
  lemma UpdatedValues(m: map<Node, Node>, k: Node, v: Node)
    ensures forall w :: w in m[k := v].Values ==> w == v || w in m.Values
  {
    forall w | w in m[k := v].Values ensures w == v || w in m.Values {
      var j :| j in m[k := v] && m[k := v][j] == w;
      if j != k {
        assert m[j] == w;
      }
    }
  }

  class SceneGraph {
    var parent: map<Node, Node>
    var next: nat

    /** The links join nodes that have been created. */
    ghost predicate Closed()
      reads this
    {
      && (forall n :: n in parent ==> n.id < next)
      && (forall n :: n in parent.Values ==> n.id < next)
    }

    /** The links form a forest over nodes that have been created. */
    ghost predicate Valid()
      reads this
    {
      Acyclic(parent) && Closed()
    }

    /** `n` is a node this scene has created. */
    predicate Known(n: Node)
      reads this
    {
      n.id < next
    }

    constructor()
      ensures Valid() && parent == map[] && next == 0
    {
      parent, next := map[], 0;
      assert Ranked(map[], map[]);
    }

    /** `SceneNode(parent)`: a new node, linked to `p` if given; the constructor makes no cycle check. */
    method NewNode(p: Option<Node>) returns (n: Node)
      requires Valid() && (p.Some? ==> Known(p.value))
      modifies this
      ensures Valid() && next == old(next) + 1
      ensures n.id == old(next) && !old(Known(n)) && Known(n)
      ensures parent == if p.Some? then old(parent)[n := p.value] else old(parent)
    {
      n := Node(next);
      if p.Some? {
        if n in RootPath(parent, p.value) {
          RootPathNodes(parent, p.value, n);
          assert false;
        }
        ReparentAcyclic(parent, n, p.value);
        UpdatedValues(parent, n, p.value);
        parent := parent[n := p.value];
      }
      next := next + 1;
    }

    /** `n.path_to_root()`: follow the links upwards until a node without parent. */
    method PathToRoot(n: Node) returns (nodes: seq<Node>)
      requires Valid()
      ensures nodes == RootPath(parent, n)
    {
      ghost var path := RootPath(parent, n);
      nodes := [n];
      while nodes[|nodes| - 1] in parent
        invariant 1 <= |nodes| <= |path| && nodes == path[..|nodes|]
        decreases |path| - |nodes|
      {
        var k := |nodes| - 1;
        RootPathStep(parent, n, k);
        nodes := nodes + [parent[nodes[k]]];
        assert nodes == path[..k + 2];
      }
      if |nodes| < |path| {
        // every node on a root path but the last has a parent
        RootPathStep(parent, n, |nodes| - 1);
        assert false;
      }
    }

    /**
     * `self.parent = p`, with the cycle test made complete: `p` must be a
     * node, and `self` must not be on `p`'s root path.
     */
    method SetParent(self: Node, p: Option<Node>) returns (r: Outcome)
      requires Valid() && Known(self) && (p.Some? ==> Known(p.value))
      modifies this
      ensures Valid() && next == old(next)
      ensures r.Pass? <==> p.Some? && self !in RootPath(old(parent), p.value)
      ensures r.Fail? ==> r.error == if p.None? then NotASceneNode else WouldCreateCycle
      ensures parent == if r.Pass? then old(parent)[self := p.value] else old(parent)
    {
      if p.None? {
        return Fail(NotASceneNode);
      }
      var path := PathToRoot(p.value);
      if self in path {
        return Fail(WouldCreateCycle);
      }
      ReparentAcyclic(parent, self, p.value);
      UpdatedValues(parent, self, p.value);
      parent := parent[self := p.value];
      return Pass;
    }

    /**
     * `self.parent = p` as written: only the root of `p` is compared with
     * `self`. The forest stays acyclic when `self` had no parent; otherwise
     * the assignment can close a cycle (see `RootCheckMissesCycle`).
     */
    method SetParentAsWritten(self: Node, p: Option<Node>) returns (r: Outcome)
      requires Valid() && Known(self) && (p.Some? ==> Known(p.value))
      modifies this
      ensures next == old(next)
      ensures r.Pass? <==> p.Some? && Root(old(parent), p.value) != self
      ensures r.Fail? ==> r.error == if p.None? then NotASceneNode else WouldCreateCycle
      ensures parent == if r.Pass? then old(parent)[self := p.value] else old(parent)
      ensures Closed() && (self !in old(parent) ==> Valid())
      ensures r.Pass? ==> (Acyclic(parent) <==> self !in RootPath(old(parent), p.value))
    {
      if p.None? {
        return Fail(NotASceneNode);
      }
      var path := PathToRoot(p.value);
      if path[|path| - 1] == self {
        return Fail(WouldCreateCycle);
      }
      RootCheck(parent, self, p.value);
      ReparentAcyclic(parent, self, p.value);
      UpdatedValues(parent, self, p.value);
      parent := parent[self := p.value];
      return Pass;
    }

    /**
     * `self.adopt(*children)` with the corrected setter: `child.parent = self`
     * for each child in turn, stopping at the first failure.
     */
    method Adopt(self: Node, children: seq<Node>) returns (r: Result<Node>)
      requires Valid() && Known(self) && forall c :: c in children ==> Known(c)
      modifies this
      ensures Valid() && next == old(next)
      ensures (parent, r) == AdoptAll(old(parent), self, children)
    {
      var i := 0;
      while i < |children|
        invariant i <= |children| && Valid() && next == old(next)
        invariant Known(self) && forall c :: c in children ==> Known(c)
        invariant AdoptAll(parent, self, children[i..]) == AdoptAll(old(parent), self, children)
      {
        assert children[i..][0] == children[i] && children[i..][1..] == children[i + 1..];
        var o := SetParent(children[i], Some(self));
        if o.Fail? {
          return Err(o.error);
        }
        i := i + 1;
      }
      return Ok(self);
    }

    /**
     * `self.adopt(*children)` with the setter as written. `Diverges` stands
     * for the run that never returns normally: once a child above `self` has been
     * linked to `self`, the setter of the next child walks `self.root()`
     * round the cycle.
     */
    method AdoptAsWritten(self: Node, children: seq<Node>) returns (r: AdoptRun)
      requires Valid() && Known(self) && forall c :: c in children ==> Known(c)
      modifies this
      ensures Closed() && next == old(next)
      ensures r == AdoptAllAsWritten(old(parent), self, children) && parent == r.links
    {
      var i := 0;
      while i < |children|
        invariant i <= |children| && Valid() && next == old(next)
        invariant Known(self) && forall c :: c in children ==> Known(c)
        invariant AdoptAllAsWritten(parent, self, children[i..]) == AdoptAllAsWritten(old(parent), self, children)
      {
        var child := children[i];
        assert children[i..][0] == child && children[i..][1..] == children[i + 1..];
        var above := PathToRoot(self);
        var o := SetParentAsWritten(child, Some(self));
        if o.Fail? {
          return Finished(parent, Err(o.error));
        }
        if child in above {
          if i + 1 < |children| {
            return Diverges(parent);
          }
          return Finished(parent, Ok(self));
        }
        i := i + 1;
      }
      return Finished(parent, Ok(self));
    }

    /**
     * `x.t(y, state)`: accumulate the entries from the common ancestor down
     * to `x` and down to `y`, then `common_t_x.inv @ common_t_y`.
     */
    method TransformBetween<T>(g: Group<T>, x: Node, y: Node, state: SceneState<T>) returns (r: Result<T>)
      requires Valid()
      ensures r == Relative(g, parent, state.transforms, x, y)
    {
      RelativeAlongPathTo(g, parent, state.transforms, x, y);
      var path := PathTo(parent, x, y);
      if path.Err? {
        return Err(path.error);
      }
      var (up, down) := path.value;
      var toSelf, toOther := Reverse(up[..|up| - 1]), down[1..];
      var commonTSelf := Accumulate(g, toSelf, state);
      if commonTSelf.Err? {
        return Err(commonTSelf.error);
      }
      var commonTOther := Accumulate(g, toOther, state);
      if commonTOther.Err? {
        return Err(commonTOther.error);
      }
      return Ok(g.compose(g.inv(commonTSelf.value), commonTOther.value));
    }

    /** One loop of `t`: `acc = acc @ state[node]` for each node of `s`, from the identity. */
    method Accumulate<T>(g: Group<T>, s: seq<Node>, state: SceneState<T>) returns (r: Result<T>)
      ensures r == Chain(g, state.transforms, s)
    {
      var acc := g.identity;
      for i := 0 to |s|
        invariant Chain(g, state.transforms, s[..i]) == Ok(acc)
      {
        assert s[..i + 1][..i] == s[..i];
        var e := state.Get(s[i]);
        if e.Err? {
          ChainStopsAtFirstMissing(g, state.transforms, s, i);
          return Err(e.error);
        }
        acc := g.compose(acc, e.value);
      }
      assert s[..|s|] == s;
      return Ok(acc);
    }

    /**
     * `state[self] = self.solve(a, b, a_t_b, state)`: afterwards `a.t(b)`
     * is `a_t_b`, and no other entry has changed; nothing is written when
     * `solve` fails.
     */
    method Calibrate<T(!new)>(g: Group<T>, self: Node, a: Node, b: Node, atb: T, state: SceneState<T>) returns (r: Outcome)
      requires Valid() && IsGroup(g)
      modifies state
      ensures r.Pass? <==> Solve(g, parent, old(state.transforms), self, a, b, atb).Ok?
      ensures r.Pass? ==> state.transforms == old(state.transforms)[self := Solve(g, parent, old(state.transforms), self, a, b, atb).value]
      ensures r.Pass? ==> Relative(g, parent, state.transforms, a, b) == Ok(atb)
      ensures r.Fail? ==> state.transforms == old(state.transforms)
    {
      var s := Solve(g, parent, state.transforms, self, a, b, atb);
      if s.Err? {
        return Fail(s.error);
      }
      SolveAchieves(g, parent, state.transforms, self, a, b, atb);
      var _ := state.Assign([self], [s.value]);
      return Pass;
    }
  }
}
