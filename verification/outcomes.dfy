/** Optional values, used where the source leaves a field unassigned or a
    lookup finds nothing. */
module Outcomes {

  datatype Option<+T> = None | Some(value: T)
}
