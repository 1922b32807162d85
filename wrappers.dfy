/** Optional values, standing for JavaScript's `undefined`/`null` where ARCitect's TypeScript tests for them. */
module Wrappers {

  datatype Option<+T> = None | Some(value: T)
}
