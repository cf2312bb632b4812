/** The optional value used wherever the roster code returns "nothing found"
    (Python's `None` from `dict.get` or `next(..., None)`). */
module Options {

  datatype Option<+T> = None | Some(value: T)

}
