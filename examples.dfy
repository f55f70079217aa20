/**
 * The three-level scene `root -> base -> (a, c -> b)`: the paths between
 * its nodes, and solving for `c`'s entry so that `a.t(b)` takes a requested
 * value.
 */
module SceneExamples {
  import opened Basics
  import opened Groups
  import opened Sequences
  import opened Paths
  import opened Reparent
  import opened Frames
  import opened Solving
  import opened States
  import opened Scenes

  const root := Node(0)
  const base := Node(1)
  const a := Node(2)
  const c := Node(3)
  const b := Node(4)

  /** `root -> base -> (a, c -> b)`. */
  function TestTree(): map<Node, Node> {
    map[base := root, a := base, c := base, b := c]
  }

  lemma TestTreeRootPaths()
    ensures Acyclic(TestTree())
    ensures RootPath(TestTree(), a) == [a, base, root]
    ensures RootPath(TestTree(), b) == [b, c, base, root]
    ensures RootPath(TestTree(), c) == [c, base, root]
    ensures RootPath(TestTree(), root) == [root]
  {
    var t := TestTree();
    assert Ranked(t, map[root := 0, base := 1, a := 2, c := 2, b := 3]);
    assert RootPath(t, root) == [root];
    assert RootPath(t, base) == [base, root];
    assert RootPath(t, c) == [c, base, root];
  }

  /** The lists `path_to` returns on the example tree. */
  lemma TestTreePathTo()
    ensures Acyclic(TestTree())
    ensures PathTo(TestTree(), a, root) == Ok(([a, base, root], [root]))
    ensures PathTo(TestTree(), a, b) == Ok(([a, base], [base, c, b]))
    ensures PathTo(TestTree(), c, b) == Ok(([c], [c, b]))
  {
    var t := TestTree();
    TestTreeRootPaths();
    var la, lb, lc, lr := Lineage(t, a), Lineage(t, b), Lineage(t, c), Lineage(t, root);
    assert la == [root, base, a];
    assert lb == [root, base, c, b];
    assert lc == [root, base, c];
    assert lr == [root];
    MatchLengthUnique(la, lr, 1);
    MatchLengthUnique(la, lb, 2);
    MatchLengthUnique(lc, lb, 3);
    assert Reverse(la[0..]) == [a, base, root];
    assert Reverse(la[1..]) == [a, base];
    assert Reverse(lc[2..]) == [c];
  }

  /** The lowest common ancestor of `a` and `b` is `base`. */
  lemma TestTreeCommonParent()
    ensures Acyclic(TestTree()) && CommonParent(TestTree(), a, b) == Ok(base)
  {
    TestTreePathTo();
  }

  /** The branches below the lowest common ancestor for the pairs `solve` and `t` visit. */
  lemma TestTreeBelowAB()
    ensures Acyclic(TestTree())
    ensures Shared(TestTree(), a, b) == 2
    ensures Below(TestTree(), a, b) == [a] && Below(TestTree(), b, a) == [c, b]
  {
    var t := TestTree();
    TestTreeRootPaths();
    var la, lb := Lineage(t, a), Lineage(t, b);
    assert la == [root, base, a];
    assert lb == [root, base, c, b];
    MatchLengthUnique(la, lb, 2);
    SharedSymmetric(t, a, b);
  }

  lemma TestTreeBelowBaseA()
    ensures Acyclic(TestTree())
    ensures Root(TestTree(), base) == Root(TestTree(), a)
    ensures Below(TestTree(), base, a) == [] && Below(TestTree(), a, base) == [a]
  {
    var t := TestTree();
    TestTreeRootPaths();
    assert RootPath(t, base) == [base, root];
    var la, lbase := Lineage(t, a), Lineage(t, base);
    assert la == [root, base, a];
    assert lbase == [root, base];
    MatchLengthUnique(lbase, la, 2);
    SharedSymmetric(t, base, a);
  }

  lemma TestTreeBelowBC()
    ensures Acyclic(TestTree())
    ensures Root(TestTree(), b) == Root(TestTree(), c)
    ensures Below(TestTree(), b, c) == [b] && Below(TestTree(), c, b) == []
  {
    var t := TestTree();
    TestTreeRootPaths();
    var lb, lc := Lineage(t, b), Lineage(t, c);
    assert lb == [root, base, c, b];
    assert lc == [root, base, c];
    MatchLengthUnique(lb, lc, 3);
    SharedSymmetric(t, b, c);
  }

  /** With entries for `a` and `b`, `c.solve(a, b, ...)` takes the branch towards `b` and succeeds. */
  lemma TestTreeSolvable<T>(g: Group<T>, E: map<Node, T>, atb: T)
    requires a in E && b in E
    ensures Acyclic(TestTree()) && Solve(g, TestTree(), E, c, a, b, atb).Ok?
  {
    var t := TestTree();
    TestTreeBelowAB();
    TestTreeBelowBaseA();
    TestTreeBelowBC();
    RelativeDefined(g, t, E, base, a);
    RelativeDefined(g, t, E, b, c);
    SolveSucceeds(g, t, E, c, a, b, atb);
  }

  /** `SceneNode.tree('root -> base -> (a, c -> b)')`, built node by node. */
  method BuildTestTree() returns (scene: SceneGraph)
    ensures fresh(scene) && scene.Valid() && scene.parent == TestTree()
  {
    scene := new SceneGraph();
    var n0 := scene.NewNode(None);
    assert n0 == root && scene.parent == map[];
    var n1 := scene.NewNode(Some(n0));
    assert n1 == base && scene.parent == map[base := root];
    var n2 := scene.NewNode(Some(n1));
    assert n2 == a && scene.parent == map[base := root, a := base];
    var n3 := scene.NewNode(Some(n1));
    assert n3 == c && scene.parent == map[base := root, a := base, c := base];
    var n4 := scene.NewNode(Some(n3));
    assert n4 == b;
  }

  /**
   * `test_path_to_and_solve`: build the scene, give `a`, `c` and `b` entries,
   * set `c`'s entry with `solve`, and `a.t(b)` comes out as requested, in
   * the non-commutative group of isometries of the integer line.
   */
  method PathToAndSolve(ta: (bool, int), tc: (bool, int), tb: (bool, int), desired: (bool, int)) returns (r: Result<(bool, int)>)
    ensures r == Ok(desired)
  {
    var scene := BuildTestTree();
    var state := new SceneState(map[]);
    var _ := state.Assign([a, c, b], [ta, tc, tb]);
    WrittenEntries(map[], [a, c, b], [ta, tc, tb]);
    var g := LineIsometries();
    LineIsometriesFormNonCommutativeGroup();
    TestTreeSolvable(g, state.transforms, desired);
    var o := scene.Calibrate(g, c, a, b, desired, state);
    r := scene.TransformBetween(g, a, b, state);
  }

  /**
   * The setter as written on the scene `a <- b <- c`: `b.parent = c` is
   * accepted, because the root of `c` is `a`, and the links then hold the
   * cycle `b -> c -> b`.
   */
  method SetterAdmitsCycle() returns (scene: SceneGraph, r: Outcome)
    ensures r == Pass && !Acyclic(scene.parent)
  {
    scene := new SceneGraph();
    var n0 := scene.NewNode(None);
    var n1 := scene.NewNode(Some(n0));
    var n2 := scene.NewNode(Some(n1));
    assert scene.parent == ChainOfThree();
    RootCheckMissesCycle();
    r := scene.SetParentAsWritten(n1, Some(n2));
  }

  /**
   * `c.adopt(b)` as written on the scene `a <- b <- c`: it returns `c`, and
   * the links then hold the cycle `b -> c -> b`.
   */
  method AdoptAdmitsCycle() returns (scene: SceneGraph, r: AdoptRun)
    ensures r == Finished(scene.parent, Ok(Node(2))) && !Acyclic(scene.parent)
  {
    scene := new SceneGraph();
    var n0 := scene.NewNode(None);
    var n1 := scene.NewNode(Some(n0));
    var n2 := scene.NewNode(Some(n1));
    assert scene.parent == ChainOfThree();
    AdoptAsWrittenOnChain();
    r := scene.AdoptAsWritten(n2, [n1]);
  }
}
