/** Small helpers shared by the planners. */
module Wrappers {

  /** A value that may be absent, the model of Python's `None` results. */
  datatype Option<+T> = None | Some(value: T)

  /** Python's `abs` on a float. */
  function Abs(r: real): real { if r < 0.0 then -r else r }
}
