/** What several of the models share: optional values and 32-bit words. */
module Words {

  const WORD: nat := 0x1_0000_0000

  type u32 = x: nat | x < 0x1_0000_0000

  datatype Option<T> = None | Some(value: T)
}
