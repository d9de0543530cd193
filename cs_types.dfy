/** The shapes of the .NET values the extension methods take and return. */
module CsTypes {

  /** A reference that may be null: `None` is C#'s `null`. */
  datatype Option<+T> = None | Some(value: T)

  /** One UTF-16 code unit, the element of a .NET `string` (a `char`). */
  type CodeUnit = x: int | 0 <= x < 0x1_0000

  /** One 8-bit byte, the element of a .NET `byte[]`. */
  type Byte = x: int | 0 <= x < 0x100

  /** A .NET `int` (`System.Int32`). */
  type Int32 = x: int | -0x8000_0000 <= x < 0x8000_0000

  /** `int.MaxValue`. */
  const IntMaxValue: Int32 := 0x7FFF_FFFF

  /** A .NET `string` reference: null, or a sequence of code units. */
  type CsString = Option<seq<CodeUnit>>
}
