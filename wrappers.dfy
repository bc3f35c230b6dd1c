/** Small result types shared by the other modules. */
module Wrappers {

  /** A value or its absence; `None` stands for Java's `null`. */
  datatype Option<+T> = None | Some(value: T)

  /** The outcome of a public queue call: a returned value, or the
      IllegalArgumentException the queue throws for a null argument. */
  datatype Outcome<+T> = Ok(value: T) | IllegalArgument
}
