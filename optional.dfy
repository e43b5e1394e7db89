/** An optional value. `None` stands for JavaScript's `undefined` wherever the
    modelled code reads a missing object key or a missing request header. */
module Optional {

  datatype Option<+T> = None | Some(value: T)

}
