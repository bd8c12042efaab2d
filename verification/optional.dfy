/** A value that may be absent: the model's stand-in for a C# null or for an
    operation that threw before producing a value. */
module Optional {

  datatype Option<+T> = None | Some(value: T)

}
