/** Types shared by the locator, the rewriter and the boot switcher. */
module Common {

  /** A value that may be missing, as Python's `None`. */
  datatype Option<+T> = None | Some(value: T)

  /** File-system paths are plain strings. */
  type Path = string
}
