/** The usual Some/None datatype, used for values the source may fail to produce. */
module Optional {

  datatype Option<+T> = None | Some(value: T)
}
