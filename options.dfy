/** C#'s `null`: a missing value, as a nullable string or the answer of
    `FirstOrDefault` and `FindAsync` that find nothing. */
module Options {

  datatype Option<T> = None | Some(value: T)
}
