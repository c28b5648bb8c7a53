/** An optional value: the model's stand-in for JavaScript's `undefined` and for
    operations that may fail without saying why. */
module Optional {

  datatype Option<+T> = None | Some(value: T)

}
