/** The null-or-value results of the game engine (a JavaScript function that
    returns `null` or throws on bad input returns `None` here). */
module Options {

  datatype Option<+T> = None | Some(value: T)
}
