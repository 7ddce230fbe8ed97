/** Values that may be absent, and the integers that a number holds exactly. */
module Wrappers {

  datatype Option<+T> = None | Some(value: T)

  /** `Number.MAX_SAFE_INTEGER` (section 21.1.2.6 of ECMA-262). */
  const MAX_SAFE_INTEGER := 0x1F_FFFF_FFFF_FFFF
}
