/** The optional value used throughout the model: `None` stands for Python's
    `None`, for an absent dictionary key, or for an operation that raised. */
module Options {

  datatype Option<+T> = None | Some(value: T)
}
