/** Option and Result, and the error kinds that the filesystem boundary and the
    entity layer report. */
module Results {

  datatype Option<+T> = None | Some(value: T)

  /** What a failed call surfaces to its caller. The filesystem kinds follow the
      POSIX errno the underlying call would report. */
  datatype Error =
    | NotFound          // ENOENT
    | NotADirectory     // ENOTDIR
    | IsADirectory      // EISDIR
    | AlreadyExists     // EEXIST
    | NotEmpty          // ENOTEMPTY
    | Busy              // EBUSY: the root cannot be removed or renamed
    | InvalidMove       // EINVAL: a directory moved into itself
    | KindMismatch      // `assert(this.isFile)` / `assert(this.isDir)` in a constructor
    | Cancelled         // the guarded delete was declined
    | Decode            // the structured-value codec rejected the text
    | NotANumber        // `assert` on questionNumber's default
    | ZeroSize          // resizeWithin: a dimension is 0
    | NegativeOrigin    // resizeWithin: an origin dimension is negative
    | BadTarget         // resizeWithin: a negative target other than -1
    | BothTargetsAuto   // resizeWithin: both targets are -1

  datatype Result<+T> = Ok(value: T) | Err(error: Error)
}
