/** Optional values: a query parameter that did not parse, a body field that
    was not sent, a lookup that found nothing. */
module Wrappers {

  datatype Option<+T> = None | Some(value: T)
}
