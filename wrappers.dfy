/** The absence value shared by every module: a missing response, a failed
    search, an empty waypoint placeholder. */
module Wrappers {

  datatype Option<+T> = None | Some(value: T)
}
