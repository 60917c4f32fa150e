/** Optional values: `None` stands for JSON null, a missing JSON member, SQL NULL or "no row". */
module Wrappers {

  datatype Option<+T> = None | Some(value: T)

}
