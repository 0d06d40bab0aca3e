/** Optional values and results with an error, used throughout the model. */
module Wrappers {

  datatype Option<T> = None | Some(value: T)

  datatype Result<T, E> = Ok(value: T) | Err(error: E)
}

/** The errors goconf returns. Each carries the data its message is formatted from. */
module Errors {

  datatype Error =
    | OpenFailed(reason: string)   // os.Open failed; `reason` stands for the OS error
    | InvalidLine(line: string)    // "invalid config line: [<line>]", the cleaned line
    | NoSuchSection(section: string) // "no such section: <quoted section>"
    | NonPositiveTTL               // "ttl must be greater than 0"
}
