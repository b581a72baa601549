/** Optional values. `None` stands for a Java `null` (or an empty string, which
    the widget treats the same way through `TextUtils.isEmpty`). */
module Wrappers {

  datatype Option<+T> = None | Some(value: T)
}
