/** An optional value, and the unsigned machine words of the programs. */
module Options {
  datatype Option<T> = None | Some(value: T)
}

module Words {
  type byte = x: int | 0 <= x < 0x100
  type u16 = x: int | 0 <= x < 0x1_0000
}
