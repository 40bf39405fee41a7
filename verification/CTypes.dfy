/** C's types and the option type that several modules share. */
module CTypes {
  const UINT := 0x1_0000_0000     // unsigned numbers are below this
  const INT := 0x8000_0000        // ints are from -INT up to INT

  type Byte = b: int | 0 <= b < 256

  datatype Option<T> = None | Some(value: T)

  /** The int that an unsigned number becomes when it is passed as one. */
  function ToInt(x: nat): (n: int)
    ensures -INT <= n < INT && (n - x) % UINT == 0
  {
    (x + INT) % UINT - INT
  }
}
