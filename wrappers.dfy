/** The optional value that pandas represents as NaN / NaT: a coerced ratio that did not parse,
    a trailing mean over too few observations, the maximum of an empty column. */
module Wrappers {

  datatype Option<+T> = None | Some(value: T)
}
