/** Optional values, standing for the null references and "no result" returns of the program. */
module Wrappers {

  datatype Option<+T> = None | Some(value: T)
}
