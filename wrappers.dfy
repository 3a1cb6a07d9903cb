/** The nullable results of the repository (`String?`, `User?`) as an Option. */
module Wrappers {

  datatype Option<+T> = None | Some(value: T)

}
