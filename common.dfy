/** Machine integer widths, optional values and error outcomes shared by both tools. */
module Common {

  /** An 8-bit unsigned value (C# `byte`). */
  newtype byte = b: int | 0 <= b < 0x100

  /** A 16-bit unsigned value (C# `ushort`). */
  newtype ushort = u: int | 0 <= u < 0x1_0000

  /** A 32-bit unsigned value (C# `uint`). */
  newtype uint = u: int | 0 <= u < 0x1_0000_0000

  /** A nullable reference or value: `None` stands for C# `null`. */
  datatype Option<+T> = None | Some(value: T)

  /** The exceptions the modelled code can raise. */
  datatype Error =
    | IndexOutOfRange           // an array or list index outside its bounds
    | LevelVariations           // the world map defines level variants, which are not supported

  datatype Result<+T> = Success(value: T) | Failure(error: Error)

  /** `Environment.NewLine` on the Windows desktop the tools target. */
  const NewLine: string := "\r\n"
}
