/** The absent-or-present wrapper used throughout the model: `None` stands for
    JavaScript's `undefined` (a missing field, a thrown parse, a failed lookup). */
module Options {
  datatype Option<+T> = None | Some(value: T)
}
