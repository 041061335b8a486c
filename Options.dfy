/** The optional value used wherever the C++ code either finds something or
    reports that it is absent (a map lookup that throws, a missing separator). */
module Options {

  datatype Option<+T> = None | Some(value: T)

}
