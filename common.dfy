/** Values shared by every part of the model. */
module Common {

  /** JavaScript `undefined`/SQL `NULL` versus a present value. */
  datatype Option<+T> = None | Some(value: T)
}
