/**
 * What assigning a parent does to the forest: which assignments keep the
 * parent links acyclic, how far the root-only check of the `parent` setter
 * falls short of that, and the outcome of `adopt`, as functions of the parent map.
 */
module Reparent {
  import opened Basics
  import opened Sequences
  import opened Paths

  /** The number of parent links above `n`. */
  function Depth(parent: map<Node, Node>, n: Node): nat
    requires Acyclic(parent)
  {
    |RootPath(parent, n)| - 1
  }

  /** A node one link further up sits one level less deep. */
  lemma DepthOfChild(parent: map<Node, Node>, n: Node)
    requires Acyclic(parent) && n in parent
    ensures Depth(parent, n) == Depth(parent, parent[n]) + 1
  {
    assert RootPath(parent, n) == [n] + RootPath(parent, parent[n]);
  }

  /** A node below `n` other than `n` lies below `n`'s parent as well. */
  lemma AncestryThroughParent(parent: map<Node, Node>, n: Node, z: Node)
    requires Acyclic(parent) && n in parent && z != n
    ensures z in RootPath(parent, n) <==> z in RootPath(parent, parent[n])
  {
    assert RootPath(parent, n) == [n] + RootPath(parent, parent[n]);
  }

  /** Giving `self` the parent `p` keeps the forest acyclic when `self` is not an ancestor of `p`. */
  lemma {:induction false} ReparentKeepsAcyclic(parent: map<Node, Node>, self: Node, p: Node)
    requires Acyclic(parent) && self !in RootPath(parent, p)
    ensures Acyclic(parent[self := p])
  {
    var next := parent[self := p];
    var nodes := parent.Keys + parent.Values + {self, p};
    var shift := Depth(parent, p) + 1;
    var rank := map n | n in nodes ::
      if self in RootPath(parent, n) then Depth(parent, n) + shift else Depth(parent, n);
    forall n | n in next ensures n in rank && next[n] in rank && rank[next[n]] < rank[n] {
      if n != self {
        var q := parent[n];
        assert q in parent.Values;
        DepthOfChild(parent, n);
        AncestryThroughParent(parent, n, self);
      } else {
        assert self in RootPath(parent, self);
      }
    }
    assert Ranked(next, rank);
  }

  /** Along a stretch of links of a ranked map, the rank strictly falls. */
  lemma {:induction false} RankFalls(links: map<Node, Node>, rank: map<Node, nat>, s: seq<Node>, i: nat, j: nat)
    requires Ranked(links, rank) && i < j < |s|
    requires forall k | i <= k < j :: s[k] in links && links[s[k]] == s[k + 1]
    ensures s[i] in rank && s[j] in rank && rank[s[j]] < rank[s[i]]
    decreases j - i
  {
    if i + 1 < j {
      RankFalls(links, rank, s, i + 1, j);
    }
  }

  /** Giving `self` a parent among its own descendants (or itself) closes a cycle. */
  lemma {:induction false} ReparentToDescendantCycles(parent: map<Node, Node>, self: Node, p: Node)
    requires Acyclic(parent) && self in RootPath(parent, p)
    ensures !Acyclic(parent[self := p])
  {
    var next := parent[self := p];
    var s := RootPath(parent, p);
    var j :| 0 <= j < |s| && s[j] == self;
    RootPathDistinct(parent, p);
    // follow the links from `p` up to `self` and back to `p`
    var cycle := s[..j + 1] + [p];
    forall k | 0 <= k < j + 1 ensures cycle[k] in next && next[cycle[k]] == cycle[k + 1] {
      if k < j {
        RootPathStep(parent, p, k);
      }
    }
    if rank :| Ranked(next, rank) {
      RankFalls(next, rank, cycle, 0, j + 1);
      assert false;
    }
  }

  /** The assignment `self.parent = p` leaves the forest acyclic exactly when `self` is not an ancestor of `p`. */
  lemma ReparentAcyclic(parent: map<Node, Node>, self: Node, p: Node)
    requires Acyclic(parent)
    ensures Acyclic(parent[self := p]) <==> self !in RootPath(parent, p)
  {
    if self in RootPath(parent, p) {
      ReparentToDescendantCycles(parent, self, p);
    } else {
      ReparentKeepsAcyclic(parent, self, p);
    }
  }

  /**
   * The setter's test `parent.root() is self` never rejects an assignment
   * that would keep the forest acyclic, and for a `self` without a parent it
   * rejects exactly the assignments that would close a cycle.
   */
  lemma RootCheck(parent: map<Node, Node>, self: Node, p: Node)
    requires Acyclic(parent)
    ensures Root(parent, p) == self ==> self in RootPath(parent, p)
    ensures self !in parent ==> (Root(parent, p) == self <==> self in RootPath(parent, p))
  {
    if self !in parent && self in RootPath(parent, p) {
      RootUnique(parent, p, self);
    }
  }

  /** The forest `a <- b <- c`: `b` is not a root, and `c` is below it. */
  function ChainOfThree(): map<Node, Node> {
    map[Node(1) := Node(0), Node(2) := Node(1)]
  }

  /**
   * With the forest `a <- b <- c`, the setter's root test lets `b.parent = c`
   * through (the root of `c` is `a`, not `b`), and the assignment closes the
   * cycle `b -> c -> b`.
   */
  lemma RootCheckMissesCycle()
    ensures Acyclic(ChainOfThree())
    ensures Root(ChainOfThree(), Node(2)) != Node(1)
    ensures !Acyclic(ChainOfThree()[Node(1) := Node(2)])
  {
    var parent := ChainOfThree();
    var a, b, c := Node(0), Node(1), Node(2);
    assert Ranked(parent, map[a := 0, b := 1, c := 2]);
    assert RootPath(parent, a) == [a];
    assert RootPath(parent, b) == [b, a];
    assert RootPath(parent, c) == [c, b, a];
    ReparentToDescendantCycles(parent, b, c);
  }

  /** Reassigning a node that is not on `n`'s root path leaves that root path as it was. */
  lemma {:induction false} RootPathFrame(parent: map<Node, Node>, c: Node, v: Node, n: Node)
    requires Acyclic(parent) && Acyclic(parent[c := v]) && c !in RootPath(parent, n)
    ensures RootPath(parent[c := v], n) == RootPath(parent, n)
    decreases Height(parent, n)
  {
    if n in parent {
      assert RootPath(parent, n) == [n] + RootPath(parent, parent[n]);
      RootPathFrame(parent, c, v, parent[n]);
    }
  }

  /**
   * `self.adopt(*children)`: each child in turn is given the parent `self`,
   * with the cycle test of the setter; the first child that is an ancestor of
   * `self` stops the loop with the children before it already reassigned.
   */
  function AdoptAll(parent: map<Node, Node>, self: Node, children: seq<Node>): (res: (map<Node, Node>, Result<Node>))
    requires Acyclic(parent)
    ensures Acyclic(res.0)
    ensures res.1.Ok? <==> forall c :: c in children ==> c !in RootPath(parent, self)
    ensures res.1.Ok? ==> res.1.value == self
    ensures res.1.Ok? ==> forall c :: c in children ==> c in res.0 && res.0[c] == self
    ensures res.1.Err? ==> res.1.error == WouldCreateCycle
    ensures forall n :: n !in children ==> (n in res.0 <==> n in parent)
    ensures forall n :: n !in children && n in parent ==> res.0[n] == parent[n]
    decreases |children|
  {
    if children == [] then (parent, Ok(self))
    else
      var c := children[0];
      if c in RootPath(parent, self) then
        assert c in children;
        (parent, Err(WouldCreateCycle))
      else
        ReparentAcyclic(parent, c, self);
        RootPathFrame(parent, c, self, self);
        assert forall d :: d in children <==> d == c || d in children[1..];
        AdoptAll(parent[c := self], self, children[1..])
  }

  /**
   * A first child that is not an ancestor of `self` is adopted, and the rest
   * follow, so an agreement between the links after the other children and
   * after the first `k - 1` of them carries over to all the children.
   */
  lemma AdoptPrefixStep(parent: map<Node, Node>, self: Node, children: seq<Node>, k: nat)
    requires Acyclic(parent) && 1 <= k <= |children| && children[0] !in RootPath(parent, self)
    requires Acyclic(parent[children[0] := self])
    requires AdoptAll(parent[children[0] := self], self, children[1..]).0 ==
      AdoptAll(parent[children[0] := self], self, children[1..][..k - 1]).0
    ensures AdoptAll(parent, self, children).0 == AdoptAll(parent, self, children[..k]).0
  {
    assert children[..k][0] == children[0] && children[..k][1..] == children[1..][..k - 1];
  }

  /**
   * When the `k`-th child is the first ancestor of `self` among the children,
   * `adopt` fails with the first `k` children reassigned as a successful
   * `adopt` of just those would leave them.
   */
  lemma {:induction false} AdoptStopsAtFirstAncestor(parent: map<Node, Node>, self: Node, children: seq<Node>, k: nat)
    requires Acyclic(parent) && k < |children|
    requires children[k] in RootPath(parent, self)
    requires forall i :: 0 <= i < k ==> children[i] !in RootPath(parent, self)
    ensures AdoptAll(parent, self, children).1 == Err(WouldCreateCycle)
    ensures AdoptAll(parent, self, children).0 == AdoptAll(parent, self, children[..k]).0
    decreases k
  {
    assert children[k] in children;
    if k == 0 {
      assert children[..k] == [];
    } else {
      var c, rest := children[0], children[1..];
      var next := parent[c := self];
      ReparentAcyclic(parent, c, self);
      RootPathFrame(parent, c, self, self);
      assert forall i :: 0 <= i < k - 1 ==> rest[i] !in RootPath(next, self) by {
        forall i | 0 <= i < k - 1 ensures rest[i] !in RootPath(next, self) {
          assert rest[i] == children[i + 1];
        }
      }
      assert rest[k - 1] == children[k];
      AdoptStopsAtFirstAncestor(next, self, rest, k - 1);
      AdoptPrefixStep(parent, self, children, k);
    }
  }

  /**
   * How `self.adopt(*children)` as written ends: it returns `self` or raises
   * the `RuntimeError` of the setter, leaving `links`; or it never returns
   * normally, because a child's setter calls `self.root()` on links that hold
   * a cycle through `self`, and `path_to_root` grows its list without end.
   */
  datatype AdoptRun = Finished(links: map<Node, Node>, result: Result<Node>) | Diverges(links: map<Node, Node>)

  /**
   * `self.adopt(*children)` with the setter as written: a child is refused
   * only when it is the root of `self`. A child that is an ancestor of `self`
   * below the root is linked to `self`, which closes a cycle; the loop ends
   * there if that child is the last, and otherwise never returns normally.
   */
  function AdoptAllAsWritten(parent: map<Node, Node>, self: Node, children: seq<Node>): (r: AdoptRun)
    requires Acyclic(parent)
    ensures r.Finished? && r.result.Ok? ==> r.result.value == self
    ensures r.Finished? && r.result.Err? ==> r.result.error == WouldCreateCycle && Acyclic(r.links)
    ensures r.Finished? && r.result.Err? ==> Root(parent, self) in children
    decreases |children|
  {
    if children == [] then Finished(parent, Ok(self))
    else
      var c := children[0];
      if Root(parent, self) == c then Finished(parent, Err(WouldCreateCycle))
      else if c in RootPath(parent, self) then
        if |children| == 1 then Finished(parent[c := self], Ok(self)) else Diverges(parent[c := self])
      else
        ReparentAcyclic(parent, c, self);
        RootPathFrame(parent, c, self, self);
        assert forall d :: d in children[1..] ==> d in children;
        AdoptAllAsWritten(parent[c := self], self, children[1..])
  }

  /**
   * While the first child that is an ancestor of `self` (if any) is its root,
   * the root test is as good as the complete one: `adopt` as written
   * finishes with the links and the result of the corrected `adopt`.
   */
  lemma {:induction false} AdoptAsWrittenAgrees(parent: map<Node, Node>, self: Node, children: seq<Node>)
    requires Acyclic(parent)
    requires forall k ::
      (&& 0 <= k < |children| && children[k] in RootPath(parent, self)
       && forall i :: 0 <= i < k ==> children[i] !in RootPath(parent, self))
      ==> children[k] == Root(parent, self)
    ensures AdoptAllAsWritten(parent, self, children) == Finished(AdoptAll(parent, self, children).0, AdoptAll(parent, self, children).1)
    decreases |children|
  {
    if children != [] {
      var c := children[0];
      if c !in RootPath(parent, self) {
        var next, rest := parent[c := self], children[1..];
        ReparentAcyclic(parent, c, self);
        RootPathFrame(parent, c, self, self);
        forall k | 0 <= k < |rest| && rest[k] in RootPath(next, self) &&
          (forall i :: 0 <= i < k ==> rest[i] !in RootPath(next, self))
          ensures rest[k] == Root(next, self)
        {
          assert rest[k] == children[k + 1];
          forall i | 0 <= i < k + 1 ensures children[i] !in RootPath(parent, self) {
            if i > 0 {
              assert children[i] == rest[i - 1];
            }
          }
        }
        AdoptAsWrittenAgrees(next, self, rest);
      }
    }
  }

  /** In particular, `adopt` as written on a root `self` is the corrected `adopt`. */
  lemma AdoptAsWrittenAtRoot(parent: map<Node, Node>, self: Node, children: seq<Node>)
    requires Acyclic(parent) && self !in parent
    ensures AdoptAllAsWritten(parent, self, children) == Finished(AdoptAll(parent, self, children).0, AdoptAll(parent, self, children).1)
  {
    assert RootPath(parent, self) == [self];
    AdoptAsWrittenAgrees(parent, self, children);
  }

  /** The as-written half of `AdoptAsWrittenCycles`, by induction on `k`. */
  lemma {:induction false} AsWrittenRunCycles(parent: map<Node, Node>, self: Node, children: seq<Node>, k: nat)
    requires Acyclic(parent) && k < |children|
    requires children[k] in RootPath(parent, self) && children[k] != Root(parent, self)
    requires forall i :: 0 <= i < k ==> children[i] !in RootPath(parent, self)
    ensures var r := AdoptAllAsWritten(parent, self, children); r.Diverges? || !Acyclic(r.links)
    decreases k
  {
    var c := children[0];
    if k == 0 {
      ReparentToDescendantCycles(parent, c, self);
    } else {
      assert c !in RootPath(parent, self);
      var next := parent[c := self];
      var rest := children[1..];
      ReparentAcyclic(parent, c, self);
      RootPathFrame(parent, c, self, self);
      assert AdoptAllAsWritten(parent, self, children) == AdoptAllAsWritten(next, self, rest);
      assert Root(next, self) == Root(parent, self);
      forall i | 0 <= i < k - 1 ensures rest[i] !in RootPath(next, self) {
        assert rest[i] == children[i + 1];
      }
      assert rest[k - 1] == children[k];
      AsWrittenRunCycles(next, self, rest, k - 1);
    }
  }

  /**
   * When the first child that is an ancestor of `self` is not its root, the
   * corrected `adopt` fails, while `adopt` as written either never returns normally
   * or finishes with links that hold a cycle.
   */
  lemma AdoptAsWrittenCycles(parent: map<Node, Node>, self: Node, children: seq<Node>, k: nat)
    requires Acyclic(parent) && k < |children|
    requires children[k] in RootPath(parent, self) && children[k] != Root(parent, self)
    requires forall i :: 0 <= i < k ==> children[i] !in RootPath(parent, self)
    ensures AdoptAll(parent, self, children).1 == Err(WouldCreateCycle)
    ensures var r := AdoptAllAsWritten(parent, self, children); r.Diverges? || !Acyclic(r.links)
  {
    AdoptStopsAtFirstAncestor(parent, self, children, k);
    AsWrittenRunCycles(parent, self, children, k);
  }

  /**
   * On `a <- b <- c`: `c.adopt(b)` as written returns `c` and leaves the
   * cycle `b -> c -> b`, where the corrected `adopt` fails; `b.adopt(b)`
   * links `b` to itself; `c.adopt(b, a)` never returns normally; and
   * `c.adopt(a, b)` raises at `a`, the root, leaving the links as they were,
   * as the corrected `adopt` does.
   */
  lemma AdoptAsWrittenOnChain()
    ensures Acyclic(ChainOfThree())
    ensures AdoptAllAsWritten(ChainOfThree(), Node(2), [Node(1)]) == Finished(ChainOfThree()[Node(1) := Node(2)], Ok(Node(2)))
    ensures !Acyclic(ChainOfThree()[Node(1) := Node(2)])
    ensures AdoptAll(ChainOfThree(), Node(2), [Node(1)]).1 == Err(WouldCreateCycle)
    ensures AdoptAllAsWritten(ChainOfThree(), Node(1), [Node(1)]) == Finished(ChainOfThree()[Node(1) := Node(1)], Ok(Node(1)))
    ensures !Acyclic(ChainOfThree()[Node(1) := Node(1)])
    ensures AdoptAllAsWritten(ChainOfThree(), Node(2), [Node(1), Node(0)]).Diverges?
    ensures AdoptAllAsWritten(ChainOfThree(), Node(2), [Node(0), Node(1)]) == Finished(ChainOfThree(), Err(WouldCreateCycle))
    ensures AdoptAll(ChainOfThree(), Node(2), [Node(0), Node(1)]) == (ChainOfThree(), Err(WouldCreateCycle))
  {
    var parent := ChainOfThree();
    RootCheckMissesCycle();
    assert RootPath(parent, Node(1)) == [Node(1), Node(0)];
    assert RootPath(parent, Node(2)) == [Node(2), Node(1), Node(0)];
    ReparentToDescendantCycles(parent, Node(1), Node(1));
  }
}
