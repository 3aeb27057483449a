/** An optional value: present for push instructions' operands, absent otherwise. */
module Options {

  datatype Option<+T> = None | Some(value: T)
}
