/** Shared vocabulary: host objects reduced to plain identifiers, and the
    Python exceptions the configuration's callbacks can raise. */
module Common {

  /** A window of the host, reduced to a distinct identifier. */
  type WindowId = nat

  /** A group (virtual desktop) of the host, reduced to its name. */
  type GroupName = string

  datatype Option<T> = None | Some(value: T)

  /** The exceptions the modelled callbacks can raise; the host only logs them. */
  datatype PyError =
    | IndexError      // indexing a list past its end
    | AttributeError  // reading `.name` of None

  /** What a callback does: finish with a value, or raise. */
  datatype Result<T> = Ok(value: T) | Raised(error: PyError)
}
