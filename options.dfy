/** The optional value that stands for Java's nullable references and for
    library calls that either return a value or throw. */
module Options {

  datatype Option<+T> = None | Some(value: T)
}
