/** The optional value used wherever the bot's JavaScript yields `null`,
    `undefined` or `NaN` instead of a value. */
module Wrappers {

  datatype Option<+T> = None | Some(value: T)

}
