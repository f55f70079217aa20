/** Node identities and the error outcomes shared by the scene-graph modules. */
module Basics {

  /** A scene node, identified by object identity (`is` in the source). */
  datatype Node = Node(id: nat)

  /** The exceptions the scene code raises (or, for NotOnBranch, evidently meant to raise). */
  datatype SceneError =
    | NotASceneNode          // TypeError from the parent setter
    | WouldCreateCycle       // RuntimeError('assignment would create cycle')
    | DisjointTrees          // the failing `assert idx >= 0` of path_to
    | MissingEntry(node: Node) // KeyError from SceneState.__getitem__
    | LengthMismatch         // the failing length assertion of SceneState.__setitem__
    | NotOnBranch            // the ValueError that solve builds for a node off both branches

  /** A value, or the error raised while computing it. */
  datatype Result<V> = Ok(value: V) | Err(error: SceneError)

  /** Success, or the error raised by an operation that returns nothing. */
  datatype Outcome = Pass | Fail(error: SceneError)

  /** Optional values; `None` is Python's `None`. */
  datatype Option<V> = None | Some(value: V)
}
