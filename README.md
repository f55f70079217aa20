# transform3d scene graph, in Dafny

This project models the scene graph of `transform3d`, found in
`transform3d/scene.py`. It has two parts.

- A `SceneNode` is a coordinate frame in a forest linked by parent pointers.
  The `parent` setter guards against cycles. `path_to_root`, `root`,
  `path_to` and `common_parent` find the path between two frames through
  their lowest common ancestor. `t` composes the per-node transforms along
  that path. `solve` computes the one transform that makes a requested
  relation between two other frames come out exactly.
- A `SceneState` holds each node's transform relative to its parent, as a
  mutable table. Writes are paired or broadcast, and `copy` makes a copy.

Rigid transforms appear only through the group structure that the scene code
uses: `@` (`transform3d/transform.py:109-113`), `.inv`
(`transform3d/transform.py:64-71`) and the identity `Transform()`. They are an
abstract `Group<T>`. The group laws are the hypothesis `IsGroup(g)` of every
lemma that needs them. `Groups.LineIsometries` shows that the hypothesis can be
met by a group whose composition does not commute.

Modules, in dependency order:

| file | module | what it holds |
|---|---|---|
| `basics.dfy` | `Basics` | nodes, the error kinds, `Result`/`Outcome`/`Option` |
| `groups.dfy` | `Groups` | the group of transforms and the algebra the proofs use |
| `sequences.dfy` | `Sequences` | `[::-1]` and the common-prefix search of `path_to` |
| `paths.dfy` | `Paths` | root paths, `root`, `path_to` and `common_parent`, as functions of the parent map |
| `reparent.dfy` | `Reparent` | which parent assignments keep the forest acyclic; the outcome of `adopt`, as written and corrected |
| `frames.dfy` | `Frames` | what `t` computes, and its algebra |
| `solve.dfy` | `Solving` | what `solve` computes, and what it achieves |
| `state.dfy` | `States` | the class `SceneState` |
| `scenegraph.dfy` | `Scenes` | the class `SceneGraph`: the nodes' parent fields and the imperative `SceneNode` members |
| `examples.dfy` | `SceneExamples` | the scene of `test_path_to_and_solve` and the cycles the setter and `adopt` let through |

The `_parent` fields of all nodes are kept together in one field of
`SceneGraph`, `parent: map<Node, Node>`. A node with no entry is a root. Object
identity (`is`) is equality of `Node` ids. The forest invariant is
`Acyclic(parent)`: some rank strictly decreases from every node to its parent.

The loops of the source are methods with loops:
- the `while` of `path_to_root` is `SceneGraph.PathToRoot`;
- the two `for` loops of `t` are `SceneGraph.Accumulate`, which
  `SceneGraph.TransformBetween` calls twice;
- the writes of `__setitem__` are `SceneState.Assign`;
- the loop of `adopt` is `SceneGraph.AdoptAsWritten`, with the setter as
  written, and `SceneGraph.Adopt`, with the corrected setter.

Each of these is proved equal to a function of the old state: `RootPath`,
`Chain`, `Relative`, `Written`, `AdoptAllAsWritten` and `AdoptAll`. The lemmas about the path
algebra are proved about those functions. The expression-only members
(`path_to`, `common_parent`, `root`, `solve`) are functions.

In two places the code does less than its own error messages announce. The
model gives the code as written and also the behaviour the message states (see
"## Findings"):
- The setter raises `'assignment would create cycle'` (`transform3d/scene.py:46`),
  but it only compares the new parent's root with `self`
  (`transform3d/scene.py:45`). So it misses a cycle through an ancestor below
  the root. `adopt` assigns through the setter (`transform3d/scene.py:51`) and
  misses the same cycles.
- `solve` builds `ValueError('self.parent must be in the path from a to b')` for a
  node on neither branch (`transform3d/scene.py:103`), but never raises it. It
  returns `None` instead.

## Model

| member | source | states |
|---|---|---|
| `Groups.InverseInverse` | transform3d/transform.py:64-71 | `t.inv.inv == t` under the group laws |
| `Groups.InverseOfCompose` | transform3d/transform.py:109-113 | `(x @ y).inv == y.inv @ x.inv` |
| `Groups.LineIsometriesFormNonCommutativeGroup` | transform3d/transform.py:109-113 | the group hypothesis is satisfiable by a group whose composition does not commute |
| `Sequences.MatchLength` | transform3d/scene.py:70 | the index of the first `False` in the `is`-comparison list: both sequences agree before it and differ at it, unless one of them ends there |
| `Sequences.MatchLengthUnique` | transform3d/scene.py:70 | the first disagreement is the only length with those properties |
| `Paths.RootPath` | transform3d/scene.py:58-62 | the root path starts at the node and ends at a node without a parent |
| `Paths.RootPathStep` | transform3d/scene.py:58-62 | each element of the root path but the last has a parent, and it is the next element |
| `Paths.RootPathDistinct` | transform3d/scene.py:58-62 | in an acyclic forest the root path visits no node twice |
| `Paths.Root` | transform3d/scene.py:64-65 | the root is on the root path and has no parent |
| `Paths.RootUnique` | transform3d/scene.py:64-65 | the root is the only node on the root path without a parent |
| `Paths.Lineage` | transform3d/scene.py:68-69 | the reversed root path runs from the root down to the node |
| `Paths.SharedIffSameRoot` | transform3d/scene.py:70-71 | `idx >= 0` exactly when the two nodes have the same root |
| `Paths.PathTo` | transform3d/scene.py:67-74 | `path_to` fails with the assertion exactly for nodes of different trees. Otherwise the first list climbs parent links from `self` to the ancestor. The second descends child links from the ancestor to `other`. They share only the ancestor. |
| `Paths.PathToBranches` | transform3d/scene.py:85-88 | the slices `t` walks, `[:-1]` reversed and `[1:]`, are the two branches strictly below the lowest common ancestor |
| `Paths.SlicesAreBranches` | transform3d/scene.py:97-99 | a node is in `path_a_to_common[:-1]` exactly when it is on the branch towards `a`, and in `path_common_to_b[1:]` exactly when it is on the branch towards `b` |
| `Paths.LastSharedIsLowest` | transform3d/scene.py:72-74 | the last shared node of the two lineages is an ancestor of both, and every common ancestor is an ancestor of it |
| `Paths.CommonParent` | transform3d/scene.py:76-77 | `common_parent` succeeds exactly for nodes of one tree, and returns their lowest common ancestor |
| `Reparent.ReparentAcyclic` | transform3d/scene.py:41-47 | `self.parent = p` keeps the forest acyclic if and only if `self` is not on `p`'s root path |
| `Reparent.RootCheck` | transform3d/scene.py:45 | `p.root() is self` implies that `self` is an ancestor of `p`. For a `self` without a parent the two are equivalent. |
| `Reparent.RootCheckMissesCycle` | transform3d/scene.py:45-47 | on `a <- b <- c` the root test accepts `b.parent = c`, which makes the links cyclic |
| `Reparent.AdoptAll` | transform3d/scene.py:49-52 | the corrected `adopt`, whose setter tests the whole root path: it returns `self` exactly when no child is an ancestor of `self`, and then every child's parent is `self`. Otherwise it fails with the cycle error. Nodes that are not children keep their links. The forest stays acyclic. |
| `Reparent.AdoptStopsAtFirstAncestor` | transform3d/scene.py:49-52 | in the corrected `adopt`, when a later child fails, the children before it stay reassigned, exactly as by an `adopt` of those children alone |
| `Reparent.AdoptPrefixStep` | transform3d/scene.py:49-52 | in the corrected `adopt`, a first child that is not an ancestor of `self` carries an agreement between the links after the later children and after some of them over to the whole list |
| `Reparent.AdoptAllAsWritten` | transform3d/scene.py:45-52 | `adopt` as written: a run that returns gives `self`; a run that raises the cycle error leaves acyclic links, and some child is the root of `self`. When it agrees with the corrected `adopt` and when it cycles or never returns normally is stated by `AdoptAsWrittenAgrees` and `AsWrittenRunCycles` |
| `Reparent.AdoptAsWrittenAgrees` | transform3d/scene.py:45-52 | when no child is an ancestor of `self`, or the first child that is one is its root, `adopt` as written finishes with the links and result of the corrected `adopt`; with `AsWrittenRunCycles` this covers every input |
| `Reparent.AdoptAsWrittenAtRoot` | transform3d/scene.py:45-52 | for a `self` without a parent, `adopt` as written and corrected coincide |
| `Reparent.AdoptAsWrittenCycles` | transform3d/scene.py:45-52 | when the first child above `self` is not its root, the corrected `adopt` fails, and `adopt` as written never returns normally or leaves cyclic links |
| `Reparent.AsWrittenRunCycles` | transform3d/scene.py:45-52 | the as-written half of `AdoptAsWrittenCycles`: such a run never returns normally or leaves cyclic links |
| `Reparent.AdoptAsWrittenOnChain` | transform3d/scene.py:45-52 | on `a <- b <- c`: `c.adopt(b)` returns `c` with the cycle `b -> c -> b`, where the corrected `adopt` fails; `b.adopt(b)` links `b` to itself; `c.adopt(b, a)` never returns normally; `c.adopt(a, b)` raises at `a` with the links unchanged, as the corrected `adopt` does |
| `Frames.Chain` | transform3d/scene.py:85-89 | the accumulation succeeds exactly when every node walked has an entry; otherwise it fails naming a node without one |
| `Frames.ChainStopsAtFirstMissing` | transform3d/scene.py:85-89 | the `KeyError` names the first node without an entry |
| `Frames.ChainFrame` | transform3d/scene.py:85-89 | the accumulation reads only the entries of the nodes it walks |
| `Frames.ChainAppend` | transform3d/scene.py:85-89 | accumulating over a concatenation composes the two accumulations |
| `Frames.Relative` | transform3d/scene.py:79-90 | `t` fails only for nodes of different trees or a missing entry |
| `Frames.RelativeAlongPathTo` | transform3d/scene.py:83-90 | `Relative` is `inv(C_self) @ C_other` over the two slices of `path_to`'s lists, and fails when `path_to` does |
| `Frames.RelativeDefined` | transform3d/scene.py:83-90 | `t` succeeds exactly for nodes of one tree whose branch nodes below the ancestor all have entries |
| `Frames.RelativeReads` | transform3d/scene.py:85-89 | `t` reads only the entries of the two branches below the ancestor |
| `Frames.RelativeIgnoresAncestors` | transform3d/scene.py:85-88 | the entries of the ancestor and of every node above it, the root included, may be changed or removed without changing `t` |
| `Frames.RelativeSelf` | transform3d/scene.py:79-90 | `x.t(x)` is the identity |
| `Frames.RelativeSymmetric` | transform3d/scene.py:79-90 | `y.t(x)` succeeds exactly when `x.t(y)` does, and is its inverse |
| `Frames.RelativeFromAncestor` | transform3d/scene.py:83-90 | starting both accumulations at any common ancestor gives the same `t` |
| `Frames.RelativeViaRoot` | transform3d/scene.py:79-90 | `x.t(y) == inv(root_t_x) @ root_t_y` |
| `Frames.RelativeCompose` | transform3d/scene.py:79-90 | `x.t(y) @ y.t(z) == x.t(z)` in a fully populated tree |
| `Solving.SolveCases` | transform3d/scene.py:96-101 | `solve` reaches its last branch exactly when the nodes share a tree and `self` is on neither branch below the ancestor |
| `Solving.BranchCase` | transform3d/scene.py:97-101 | one case of `solve` fails only with the error of one of its two `t` calls |
| `Solving.BranchCaseIgnoresOwnEntry` | transform3d/scene.py:97-101 | one case of `solve` does not read the entry of the node it solves for |
| `Solving.BranchCaseSucceeds` | transform3d/scene.py:97-101 | one case of `solve` succeeds exactly when both of its `t` calls succeed |
| `Solving.Solve` | transform3d/scene.py:92-103 | the corrected `solve` fails with `NotOnBranch` exactly when `self` is on neither branch of two nodes that share a tree |
| `Solving.SolveSucceeds` | transform3d/scene.py:96-101 | `solve` succeeds exactly when `self` is on a branch (the branch towards `a` first) and the two `t` calls of that case succeed |
| `Solving.SolveAsWritten` | transform3d/scene.py:102-103 | as written, `solve` returns `None` exactly when `self` is on neither branch |
| `Solving.SolveAsWrittenReturnsNone` | transform3d/scene.py:102-103 | as written, `x.solve(a, a, ...)` returns `None` where the corrected one fails; elsewhere the two agree |
| `Solving.BranchSolve` | transform3d/scene.py:99-101 | for `z` on `y`'s branch, the entry `z.parent.t(x) @ v @ y.t(z)` makes `x.t(y) == v` |
| `Solving.SolveAchieves` | transform3d/scene.py:92-101 | after `state[self] = self.solve(a, b, a_t_b, state)`, `a.t(b, state) == a_t_b` |
| `Solving.SolveIgnoresOwnEntry` | transform3d/scene.py:97-101 | `solve` does not read `state[self]` |
| `States.WrittenEntries` | transform3d/scene.py:25-26 | the written nodes gain entries, the others keep theirs, and a node written several times keeps its last transform |
| `States.WrittenBroadcast` | transform3d/scene.py:22-23 | a single transform written to several nodes becomes the entry of each |
| `States.SceneState.constructor` | transform3d/scene.py:9-12 | the state holds the given table |
| `States.SceneState.Get` | transform3d/scene.py:14-15 | `state[n]` is `n`'s entry, or a `KeyError` naming `n` when it has none |
| `States.SceneState.Assign` | transform3d/scene.py:17-26 | `state[nodes] = ts` succeeds exactly when there is one transform or as many as nodes; then the table is the written table. Otherwise it fails the length assertion with nothing written. |
| `States.SceneState.Copy` | transform3d/scene.py:28-29 | `copy` returns a new state with the same table |
| `States.WriteToCopy` | transform3d/scene.py:28-29 | a write to a copy leaves the original's table as it was |
| `Scenes.SceneGraph.NewNode` | transform3d/scene.py:33-35 | `SceneNode(parent)` is a new node, linked to its parent if one is given |
| `Scenes.SceneGraph.PathToRoot` | transform3d/scene.py:58-62 | the `while` loop returns the root path |
| `Scenes.SceneGraph.SetParent` | transform3d/scene.py:41-47 | the corrected setter: a `TypeError` without a node, a cycle error exactly when `self` is on the new parent's root path, otherwise the one link changes. The forest stays acyclic. |
| `Scenes.SceneGraph.SetParentAsWritten` | transform3d/scene.py:41-47 | the setter as written: rejects exactly when the new parent's root is `self`; the result is acyclic when `self` had no parent, and after an accepted assignment it is acyclic exactly when `self` was not on the new parent's root path |
| `Scenes.SceneGraph.Adopt` | transform3d/scene.py:49-52 | the loop of the corrected `adopt` leaves the links and returns the result that `AdoptAll` describes |
| `Scenes.SceneGraph.AdoptAsWritten` | transform3d/scene.py:45-52 | the loop of `adopt` with the setter as written leaves the links and ends as `AdoptAllAsWritten` describes |
| `Scenes.SceneGraph.Accumulate` | transform3d/scene.py:84-89 | each `for` loop of `t` computes the accumulation `Chain`, `KeyError` included |
| `Scenes.SceneGraph.TransformBetween` | transform3d/scene.py:79-90 | `x.t(y, state)` computes `Relative` |
| `Scenes.SceneGraph.Calibrate` | transform3d/tests/test_scene.py:36-38 | `state[self] = self.solve(...)` with the corrected `solve`: it writes only `self`'s entry, and afterwards `a.t(b)` is the requested transform; nothing is written when `solve` fails |
| `SceneExamples.TestTreePathTo` | transform3d/tests/test_scene.py:28-31 | the three `path_to` results the test expects on `root -> base -> (a, c -> b)` |
| `SceneExamples.TestTreeCommonParent` | transform3d/scene.py:76-77 | on the test scene the lowest common ancestor of `a` and `b` is `base` |
| `SceneExamples.PathToAndSolve` | transform3d/tests/test_scene.py:27-39 | building the test scene, writing `a`, `c` and `b`, and solving for `c` makes `a.t(b)` the requested transform, in a non-commutative group |
| `SceneExamples.SetterAdmitsCycle` | transform3d/scene.py:45-47 | on `a <- b <- c` the setter as written accepts `b.parent = c` and leaves cyclic links |
| `SceneExamples.AdoptAdmitsCycle` | transform3d/scene.py:49-52 | on `a <- b <- c`, `c.adopt(b)` as written returns `c` and leaves cyclic links |

## Left out

- `transform3d/transform.py` (the numbers behind `Transform`) is not part of this model:
  - its NumPy matrices and scipy rotation conversions;
  - its cached inverse and tolerance comparison;
  - `save`, `load`, `random`, `__str__` and `__repr__`.
  These are floating point and foreign library code. Transforms are an abstract group instead.
- The string branch of `__setitem__` (`transform3d/scene.py:21`) calls `Transform.load`, which is file input. Only transform values are written.
- States.SceneState.Assign: the bare-node and bare-transform forms of `__setitem__` (`transform3d/scene.py:19-20`) are the one-element sequences a caller passes.
- States.SceneState.constructor: Python stores the dictionary it is given, so the caller and the state share one dictionary. The model's table is a value, so it does not capture that sharing. `copy` is modelled exactly: it is a new object over an equal table.
- Scenes.SceneGraph.NewNode: the constructor accepts any value as parent. The model accepts only nodes already created, since a model node cannot refer to an object that does not exist. The `name` label is not modelled.
- Scenes.SceneGraph.SetParent and Scenes.SceneGraph.SetParentAsWritten: a non-`SceneNode` argument is `None`, and it raises the `TypeError`. Other Python types have no counterpart.
- Scenes.SceneGraph.SetParentAsWritten: it does not promise an acyclic forest when `self` already had a parent, because the code can create a cycle there (see "## Findings").
- Scenes.SceneGraph.AdoptAsWritten: a run that never returns normally is modelled by the result `Diverges`, returned at the point where the next child's setter would start walking the cycle. In Python, `path_to_root` (`transform3d/scene.py:59-61`) then appends to its list round the cycle until memory runs out, so the run ends in a `MemoryError` or with the process killed; "never returns" in this model means no normal return. The links it leaves may be cyclic, so it promises `Closed()` but not `Valid()`.
- Scenes.SceneGraph.PathToRoot: it requires the whole forest to be acyclic, which is a choice of the model. In Python the loop never ends only for a node whose root path runs into a cycle; a node in another tree still gets its path. Only the setter as written can produce cyclic links.
- The `parent` getter (`transform3d/scene.py:37-39`) is a lookup in `parent`. The loop's truth test `nodes[-1].parent` is taken as "has a parent", since a `SceneNode` is always truthy.
- Three helpers are left out: `SceneNode.tree`, a string grammar that `scene.py` does not contain; `SceneNode.n`; and `__str__`/`__repr__`, which only display.
- `test_t` is left out. It multiplies the matrices leaf to root, which is not what `t` computes. `setup.py` is packaging.
- Exceptions are values (`Result`, `Outcome`). `solve` and `t` report the first error in Python's evaluation order.

## Findings

| source | as written | input that shows it | evidently intended | confidence | as-written member | corrected member |
|---|---|---|---|---|---|---|
| transform3d/scene.py:45 | the setter rejects only when the new parent's root is `self` | forest `a <- b <- c`, then `b.parent = c`: the root of `c` is `a`, the assignment is accepted and `b -> c -> b` is a cycle. Through `adopt`: `c.adopt(b)` returns `c` with that cycle, `b.adopt(b)` links `b` to itself, and `c.adopt(b, a)` never returns normally | reject whenever `self` is on the new parent's root path | not executed | `Scenes.SceneGraph.SetParentAsWritten` (with `Reparent.RootCheckMissesCycle`, `SceneExamples.SetterAdmitsCycle`); for `adopt` (`transform3d/scene.py:51`), `Scenes.SceneGraph.AdoptAsWritten` and `Reparent.AdoptAllAsWritten` (with `Reparent.AdoptAsWrittenCycles`, `Reparent.AdoptAsWrittenOnChain`, `SceneExamples.AdoptAdmitsCycle`) | `Scenes.SceneGraph.SetParent` (with `Reparent.ReparentAcyclic`); for `adopt`, `Scenes.SceneGraph.Adopt` and `Reparent.AdoptAll` (with `Reparent.AdoptAsWrittenAgrees`) |
| transform3d/scene.py:103 | the `ValueError` is constructed but not raised, so `solve` returns `None` | `a.solve(a, a, t, state)`: `a` is on neither (empty) branch, and the result `None` would be stored as a transform | raise the error | not executed | `Solving.SolveAsWritten` (with `Solving.SolveAsWrittenReturnsNone`) | `Solving.Solve` (with `Solving.SolveAchieves`), which `Scenes.SceneGraph.Calibrate` uses. As written, `state[root] = root.solve(a, b, t, state)` on the test tree stores `None` in `state[root]` (`transform3d/scene.py:19-26`); `Calibrate` fails with `NotOnBranch` and writes nothing |
