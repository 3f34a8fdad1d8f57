/** Machine integers and optional values shared by the models. */
module Common {
  const MAX_U64: nat := 0xFFFF_FFFF_FFFF_FFFF

  type u64 = n: nat | n <= MAX_U64

  datatype Option<+T> = None | Some(value: T)
}
