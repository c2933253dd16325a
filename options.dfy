/** The usual optional-value datatype; `None` stands for PHP's `null` or an unset key. */
module Options {
  datatype Option<+T> = None | Some(value: T)
}
