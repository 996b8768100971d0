/** Small result types shared by the modules of the model. */
module Wrappers {
  datatype Option<T> = None | Some(value: T)

  /** The outcome of an operation that stops the program on a failed
      run-time assertion. `Abort` stands for that stop. */
  datatype Outcome<T> = Done(value: T) | Abort
  {
    predicate IsDone() { this.Done? }
  }
}
