/** Success and failure values shared by the modules of this model. A Python
    exception raised by the modelled code becomes an `Err` carrying a value
    that says which exception it was. */
module Outcomes {

  datatype Option<+T> = None | Some(value: T)

  datatype Result<+T, +E> = Ok(value: T) | Err(error: E)

  /** An embedding: one row of floats, as the embedding endpoint returns it
      and as the vector store keeps it. */
  type Vector = seq<real>
}
