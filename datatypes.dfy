/** The client's value types: Go's `type DataType int` with its seven
    named constants, the fixed-width unsigned integers the client uses, and
    the byte width of each data type. */
module DataTypes {

  type u8 = x: int | 0 <= x < 0x100
  type u32 = x: int | 0 <= x < 0x1_0000_0000

  /** Go's `int` on a 64-bit platform: any value of it is a `DataType`,
      not only the named ones. */
  newtype DataType = x: int | -0x8000_0000_0000_0000 <= x < 0x8000_0000_0000_0000

  // The constants in `iota` order.
  const Byte: DataType := 0
  const Bit: DataType := 1
  const Word: DataType := 2
  const Counter: DataType := 3
  const Timer: DataType := 4
  const DWord: DataType := 5
  const Real: DataType := 6

  /** One of the seven named data types. */
  predicate IsKnown(t: DataType) {
    0 <= t <= 6
  }

  /** The byte width of a data type; 0 for a tag that names no type. */
  function Size(t: DataType): (s: nat)
    ensures s <= 4
    ensures s > 0 <==> IsKnown(t)
  {
    if t == Bit || t == Byte then 1
    else if t == Word || t == Counter || t == Timer then 2
    else if t == DWord || t == Real then 4
    else 0
  }

  /** The width is positive exactly for the named types, and is 1, 2 or 4. */
  lemma SizeTable(t: DataType)
    ensures Size(t) > 0 <==> IsKnown(t)
    ensures Size(t) in {0, 1, 2, 4}
    ensures Size(t) == 1 <==> t == Bit || t == Byte
    ensures Size(t) == 2 <==> 2 <= t <= 4
    ensures Size(t) == 4 <==> 5 <= t <= 6
  {
  }
}
