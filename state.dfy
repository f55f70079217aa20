/**
 * `SceneState`: the table from scene nodes to their transforms relative to
 * their parents, read with `state[node]`, written with `state[nodes] = ...`
 * and duplicated with `copy`.
 */
module States {
  import opened Basics

  /** The transforms a write assigns: a single transform is repeated once for every node. */
  function Spread<T>(ts: seq<T>, count: nat): (r: seq<T>)
    ensures |ts| == 1 ==> |r| == count && forall i :: 0 <= i < count ==> r[i] == ts[0]
    ensures |ts| != 1 ==> r == ts
  {
    if |ts| == 1 then seq(count, _ => ts[0]) else ts
  }

  /** The table after `table[nodes[i]] = ts[i]` for each `i` in turn. */
  function Written<T>(table: map<Node, T>, nodes: seq<Node>, ts: seq<T>): map<Node, T>
    requires |nodes| == |ts|
    decreases |nodes|
  {
    if nodes == [] then table
    else Written(table[nodes[0] := ts[0]], nodes[1..], ts[1..])
  }

  /**
   * The written nodes are added, the others keep their entries, and a node
   * written more than once keeps its last transform.
   */
  lemma {:induction false} WrittenEntries<T>(table: map<Node, T>, nodes: seq<Node>, ts: seq<T>)
    requires |nodes| == |ts|
    ensures var r := Written(table, nodes, ts);
      && (forall n :: n in r <==> n in table || n in nodes)
      && (forall n :: n in table && n !in nodes ==> r[n] == table[n])
      && (forall i :: 0 <= i < |nodes| && nodes[i] !in nodes[i + 1..] ==> r[nodes[i]] == ts[i])
    decreases |nodes|
  {
    if nodes != [] {
      var rest := nodes[1..];
      WrittenEntries(table[nodes[0] := ts[0]], rest, ts[1..]);
      assert forall n :: n in nodes <==> n == nodes[0] || n in rest;
      forall i | 1 <= i < |nodes| ensures nodes[i] == rest[i - 1] && nodes[i + 1..] == rest[i..] {
      }
    }
  }

  /** A single transform written to a list of nodes becomes the entry of each of them. */
  lemma {:induction false} WrittenBroadcast<T>(table: map<Node, T>, nodes: seq<Node>, t: T)
    ensures var r := Written(table, nodes, Spread([t], |nodes|));
      forall n :: n in nodes ==> n in r && r[n] == t
    decreases |nodes|
  {
    if nodes != [] {
      var rest := nodes[1..];
      assert Spread([t], |nodes|)[1..] == Spread([t], |rest|);
      WrittenBroadcast(table[nodes[0] := t], rest, t);
      WrittenEntries(table[nodes[0] := t], rest, Spread([t], |rest|));
      assert forall n :: n in nodes ==> n == nodes[0] || n in rest;
    }
  }

  class SceneState<T> {
    /** `node -> parent_t_node`. */
    var transforms: map<Node, T>

    constructor(transforms: map<Node, T>)
      ensures this.transforms == transforms
    {
      this.transforms := transforms;
    }

    /** `state[n]`, with the `KeyError` of a node without an entry. */
    method Get(n: Node) returns (r: Result<T>)
      ensures r.Ok? <==> n in transforms
      ensures r.Ok? ==> r.value == transforms[n]
      ensures r.Err? ==> r.error == MissingEntry(n)
    {
      if n in transforms {
        r := Ok(transforms[n]);
      } else {
        r := Err(MissingEntry(n));
      }
    }

    /**
     * `state[nodes] = ts`: pairwise, or one transform for all nodes; any
     * other pair of lengths fails the length assertion before anything is
     * written.
     */
    method Assign(nodes: seq<Node>, ts: seq<T>) returns (r: Outcome)
      modifies this
      ensures r.Pass? <==> |ts| == 1 || |ts| == |nodes|
      ensures r.Fail? ==> r.error == LengthMismatch && transforms == old(transforms)
      ensures r.Pass? ==> transforms == Written(old(transforms), nodes, Spread(ts, |nodes|))
    {
      var spread := ts;
      if |spread| == 1 {
        spread := seq(|nodes|, _ => ts[0]);
      }
      if |spread| != |nodes| {
        return Fail(LengthMismatch);
      }
      for i := 0 to |nodes|
        invariant Written(transforms, nodes[i..], spread[i..]) == Written(old(transforms), nodes, spread)
      {
        assert nodes[i..][1..] == nodes[i + 1..] && spread[i..][1..] == spread[i + 1..];
        transforms := transforms[nodes[i] := spread[i]];
      }
      return Pass;
    }

    /** `state.copy()`: a new state over a copy of the table. */
    method Copy() returns (c: SceneState<T>)
      ensures fresh(c) && c.transforms == transforms
    {
      c := new SceneState(transforms);
    }
  }

  /** Writing to a copy leaves the original state as it was. */
  method WriteToCopy<T>(s: SceneState<T>, n: Node, t: T) returns (c: SceneState<T>)
    ensures fresh(c) && c.transforms == s.transforms[n := t]
    ensures s.transforms == old(s.transforms)
  {
    c := s.Copy();
    var _ := c.Assign([n], [t]);
  }
}
