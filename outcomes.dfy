/** Failure outcomes shared by the codec and the node structure. */
module Outcomes {

  /** The exceptions the source raises, one constructor per distinct cause. */
  datatype Error =
    | NullArgument            // ArgumentNullException on a null node, stream or parent argument
    | CannotSeek              // the stream does not support seeking
    | CannotRead              // the stream does not support reading
    | CannotWrite             // the stream does not support writing
    | ReadPastEnd             // a read that needs bytes beyond the stream's length
    | PrematureEnd            // FostrianException "End of stream reached prematurely."
    | NegativeLength          // allocating a payload buffer of negative length
    | CountOutOfRange         // ArgumentOutOfRangeException on a child count <= 0
    | IndexOutOfRange         // a list index or an encoding-table index out of range
    | EncodingNotImplemented  // NotImplementedException: encoding not in the table
    | NullParent              // NullReferenceException: "Parent node was null."
    | NullData                // NullReferenceException: a node whose Data is null is written

  datatype Option<T> = None | Some(value: T)

  datatype Result<T> = Success(value: T) | Failure(error: Error)

  datatype Outcome = Pass | Fail(error: Error)
}
