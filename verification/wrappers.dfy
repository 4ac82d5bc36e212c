/** The null-or-value shape of the service's reference-typed inputs. */
module Wrappers {

  /** `None` stands for a Java `null`, `Some(v)` for a present value. */
  datatype Option<+T> = None | Some(value: T)
}
