/** The optional result used wherever the bot's Python code returns a value or `None`/`False`. */
module Wrappers {
  datatype Option<+T> = None | Some(value: T)
}
