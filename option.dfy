/** The optional value used wherever the Java code can throw: `None` stands
    for the exception, `Some(v)` for a normal return of `v`. */
module Options {
  datatype Option<+T> = None | Some(value: T)
}
