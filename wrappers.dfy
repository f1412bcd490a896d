/** Stand-ins for Python's `None` and for numpy's `NaN` results. */
module Wrappers {

  /** `None` models an undefined result (`None`, or `NaN` used as "undefined"). */
  datatype Option<+T> = None | Some(value: T)
}
