/**
 * Option and Result, and the exceptions the parser can raise, as values.
 */
module Wrappers {

  datatype Option<+T> = None | Some(value: T)

  datatype Result<+T> = Ok(value: T) | Err(error: Error)

  /** The Python exceptions the modelled code raises, one constructor per cause. */
  datatype Error =
    | UnpackError(segment: string)      // `k, v = s.split("=")` with more than one "="
    | IndexError(index: nat)            // positional attribute number past the end
    | KeyError(key: string)             // `getproperty` of a missing attribute
    | TypeError(reason: string)         // e.g. `str + int` while building an id
    | NotReading                        // `read` before `startreading`
    | PreexistingContent                // `startreading` on a block that has content
    | NoneHasNoAttribute                // a query step applied to the `None` parent of the root
    | NoHeader                          // an attribute filter on a node without header
    | RecursionLimit(query: string)     // a query whose evaluation never ends
}
