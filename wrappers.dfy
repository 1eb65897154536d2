/** The optional value that `Option<PathBuf>` and the `.ok()?` early returns
    of the gate produce. */
module Wrappers {

  datatype Option<+T> = None | Some(value: T)
}
