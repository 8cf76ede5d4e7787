/** An optional value: the model's stand-in for the sentinels the source uses
    for "nothing yet" (an infinite best cost, an unset index). */
module Options {
  datatype Option<T> = None | Some(value: T)
}
