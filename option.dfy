/** The Java code signals "no value" with null; the model uses Option instead. */
module Optional {

  datatype Option<+T> = None | Some(value: T)
}
