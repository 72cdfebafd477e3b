/** The optional values the provider stores and returns (a C# `string?`). */
module Options {

  /** `None` stands for a null reference, `Some(v)` for a present value. */
  datatype Option<+T> = None | Some(value: T)
}
