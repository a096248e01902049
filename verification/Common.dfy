/** What several modules use. */
module Common {

  datatype Option<+T> = None | Some(value: T)

  /** The identifier of a trace. */
  type Id = string

  const TWO_63: int := 0x8000_0000_0000_0000
  const TWO_64: int := 0x1_0000_0000_0000_0000

  /** The 64-bit word of `x`, read as unsigned. */
  function UInt64(x: int): nat {
    x % TWO_64
  }

  /** The 64-bit word of `x`, read as signed. */
  function Int64(x: int): int {
    var w := UInt64(x);
    if w < TWO_63 then w else w - TWO_64
  }
}
