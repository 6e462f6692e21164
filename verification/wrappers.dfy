/** An optional value: an absent e-mail address, an empty file field, a
    form that was not posted, or a data file that does not exist yet. */
module Wrappers {

  datatype Option<+T> = None | Some(value: T)
}
