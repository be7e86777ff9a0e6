/**
 * The exceptions the commitment code throws, as values. Every `throw` of
 * the modelled source files maps to one kind; an operation that can throw
 * returns a `Result`.
 */
module Errors {

  datatype Error =
    | OtsNotSet              // "Need to compute (and set) OTs before committing / cloning"
    | LsbForBitCommit        // a threshold index passed to a 1-bit commitment
    | IncorrectCodewordSize  // an entry size other than cword_bytes
    | ShareSizeMismatch      // the two share buffers hold different numbers of entries
    | OnlyFor128             // a non-NORMAL commit type with messages other than 128 bits
    | UnsupportedMsgSize     // a message size other than 1 or 128 bits
    | IncorrectMsgSize       // a result buffer whose entry size is not msg_bytes
    | DecommitCountMismatch  // a result buffer with the wrong number of entries
    | InvalidBatchDecommit   // BatchDecommit with a message size other than 1 or 128 bits
    | UnsupportedNumValues   // more check columns than fit in one 128-column block
    | InvalidArgument        // std::invalid_argument from a channel resize

  datatype Result<T> = Ok(value: T) | Err(error: Error)

  datatype Option<T> = None | Some(value: T)
}
