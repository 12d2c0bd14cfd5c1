/** The optional value used where the source uses `None`: an unset start or goal cell,
    and the missing predecessor of the start cell. */
module Wrappers {

  datatype Option<T> = None | Some(value: T)

}
