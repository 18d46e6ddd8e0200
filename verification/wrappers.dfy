/** The optional value used wherever the telemetry code uses `None`. */
module Wrappers {

  /** `None` stands for Python's `None` (an absent value or a failed lookup). */
  datatype Option<+T> = None | Some(value: T)
}
