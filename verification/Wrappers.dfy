/** The two failure-carrying types the models share. */
module Wrappers {

  datatype Option<+T> = None | Some(value: T)

  /** `Panic` stands for a failed `expect`, `assert!` or checked operation. */
  datatype Outcome<+T> = Done(value: T) | Panic

}
