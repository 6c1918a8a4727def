/** Shared vocabulary of the monitor's model: outcomes, errors, addresses, hashes and blocks. */
module Basics {

  datatype Option<+T> = None | Some(value: T)

  /** The outcome of an operation that the monitor may abort with an exception. */
  datatype Result<+T> = Success(value: T) | Failure(error: Error) {
    predicate IsFailure() {
      Failure?
    }

    function PropagateFailure<U>(): Result<U>
      requires Failure?
    {
      Failure(error)
    }

    function Extract(): T
      requires Success?
    {
      value
    }
  }

  /** Every exception or failed assertion the modelled code can raise. Any of them ends the process. */
  datatype Error =
    | EmptyValidatorSet        // an epoch without validators was added
    | NoEpochs                 // the oracle was asked before it knew any epoch
    | HeightUnknown            // the oracle was asked beyond its maximum height
    | BeforeFirstEpoch         // the oracle was asked below its first epoch
    | UnsortedEpochHeights     // a contract listed its epochs out of order
    | MissingGenesisRange      // a multi list has no entry for height 0
    | EmptyStaticList          // a multi list has a static entry without validators
    | RangesNotConnected       // two neighbouring definition ranges leave a gap
    | SkipOutOfOrder           // a validator's skips arrived in the wrong order
    | DivisionByZero           // the offline window has size 0
    | NoInitialBlock           // the block to start from could not be resolved
    | BlockNotFound            // the node did not return a requested block
    | UnknownForkBase          // a fork's base is not known to the monitor
    | BranchNotConnected       // a list of blocks is not parent-linked
    | BlockAlreadyKnown        // an inserted block is already stored
    | NegativeLimit            // a negative number of blocks was asked for
    | OwnBlockMissing          // the equivocation reporter's own block is not stored

  datatype Address = Address(id: nat)

  datatype Hash = Hash(digest: nat)

  /** A block as the monitor sees it. The proposer is the address recovered from its signature. */
  datatype Block = Block(hash: Hash, parentHash: Hash, number: nat, step: nat, proposer: Address)

  function Max(a: int, b: int): int {
    if a < b then b else a
  }

  function Min(a: int, b: int): int {
    if a < b then a else b
  }
}
