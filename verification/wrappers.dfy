/** Optional values: a nullable database column, an absent form field,
    or a lookup that found nothing. */
module Wrappers {

  datatype Option<+T> = None | Some(value: T)
}
