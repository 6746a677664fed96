/** Errors shared by the tree forms, and the capacity check they all start from. */
module TreeErrors {
  import opened Binary

  datatype TreeError =
    | InvalidGeometry(depth: nat, shardHeight: nat)
    | CapacityOverflow(depth: nat)
    | TreeFull(depth: nat)
    | DuplicateLeaf
    | LeafNotFound
    | LeafIndexOutOfRange(index: nat, leafCount: nat)
    | DuplicateOwnedLeaf(leafIndex: nat)
    | OwnedLeafMismatch(leafIndex: nat)
    | NoteNotMarked
    | NoteAlreadyCompleted(shardIndex: nat)
    | ShardNotCompleted(shardIndex: nat)
    | InvalidSiblingCount(expected: nat, actual: nat)
    | WitnessRootMismatch(shardIndex: nat)
    | InvalidSnapshot
    | RewindBeforeCompleted(minimum: nat, requested: nat)
    | NonCanonicalField

  datatype Option<+T> = None | Some(value: T) {
    function UnwrapOr(default: T): T {
      if Some? then value else default
    }
  }

  datatype Result<+T> = Ok(value: T) | Err(error: TreeError) {
    predicate IsFailure() {
      Err?
    }

    function PropagateFailure<U>(): Result<U>
      requires Err?
    {
      Err(error)
    }

    function Extract(): T
      requires Ok?
    {
      value
    }
  }

  /** Width of the platform's index type. */
  const USIZE_BITS: nat := 64

  /** `1 << depth`, refused when the shift does not fit the index type. */
  function TreeCapacity(depth: nat): (r: Result<nat>) {
    if depth < USIZE_BITS then Ok(Pow2(depth)) else Err(CapacityOverflow(depth))
  }
}
