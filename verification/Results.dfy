/** The source's `Option` and `Result`, and its error type. */
module Results {
  import opened Words

  datatype Option<+T> = None | Some(value: T) {
    function UnwrapOr(default: T): T {
      if Some? then value else default
    }
  }

  datatype Result<+T, +E> = Ok(value: T) | Err(error: E)

  /** The error texts carried by `StoreError` are not part of the model. */
  datatype MerkleError =
    | StoreError
    | LeafIndexOutOfBounds(index: u64, numLeaves: u64)
    | TreeFull(depth: u32, capacity: u64)
    | LengthMismatch(levels: nat, indices: nat)
}
