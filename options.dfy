/** The absent-or-present value used for every optional field of the relay:
    a memo's content, a configuration entry, the cursor. */
module Options {
  datatype Option<+T> = None | Some(value: T)
}
