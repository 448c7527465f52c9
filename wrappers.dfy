/** Failure-carrying values shared by every module of the model. */
module Wrappers {

  datatype Option<+T> = None | Some(value: T)

  /** The kinds of exception the library raises. */
  datatype Error =
    | InvalidName          // a node was created without a name
    | NilKey               // `[]` was given nil
    | DuplicateName        // `add` of a name already in the receiver's index
    | CapacityExceeded     // a binary or BST node already holds two children
    | SameName             // BST `add` of a child named like the receiver
    | OrderingViolation    // BST slot setter given a child on the wrong side
    | InvalidOperation     // BST `swap_children`
    | NotAHash             // hash decoder given something that is not a Hash
    | NotOneEntry          // hash decoder given a Hash without exactly one entry
    | InvalidChild         // hash decoder found a value that is neither a Hash nor nil
    | MissingParent        // a flat record names a parent that was never created
    | MalformedRecord      // a text record lacks one of its three fields

  datatype Result<+T> = Ok(value: T) | Err(error: Error)
}
