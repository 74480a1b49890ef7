/** Optional values: a Python `None`, an absent dictionary key or an error
    that has not happened is `None`; a present value is `Some`. */
module Wrappers {

  datatype Option<+T> = None | Some(value: T)
}
