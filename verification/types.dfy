/** The value types the game engine is built from (System.Drawing's Point and Size,
    the FlagKind and GameResult enums, and the exceptions the engine throws). */
module Types {

  /** An unsigned 8-bit value, as stored in the uncovered map. */
  type Byte = x: int | 0 <= x < 0x100

  /** The range of a C# `ushort`. */
  type UInt16 = x: int | 0 <= x < 0x1_0000

  /** The range of a C# `int`. */
  type Int32 = x: int | -0x8000_0000 <= x < 0x8000_0000

  predicate IsInt32(n: int) {
    -0x8000_0000 <= n < 0x8000_0000
  }

  /** The value recorded for an exposed mine (`byte.MaxValue`). */
  const Mine: Byte := 255

  datatype Point = Point(x: int, y: int) {
    /** `Point + Size`: the point moved by the size's components. */
    function Plus(d: Size): Point {
      Point(x + d.width, y + d.height)
    }
  }

  datatype Size = Size(width: int, height: int) {
    /** `Size.IsEmpty`: both components are zero. */
    predicate IsEmpty() {
      width == 0 && height == 0
    }
  }

  datatype FlagKind = RedFlag | Tentative

  datatype GameResult = Lose | Win

  /** The exceptions of the modelled code, by kind. */
  datatype Error =
    | Argument           // ArgumentException
    | InvalidOperation   // InvalidOperationException
    | IndexOutOfRange    // IndexOutOfRangeException
    | Format             // FormatException from int.Parse
    | Overflow           // OverflowException from int.Parse

  /** The position lies inside a field of the given size. */
  predicate InField(field: Size, p: Point) {
    p.x >= 0 && p.y >= 0 && p.x < field.width && p.y < field.height
  }

  /** Every position of the field. */
  function Cells(field: Size): (cells: set<Point>)
    ensures forall p :: p in cells <==> InField(field, p)
  {
    set x, y | 0 <= x < field.width && 0 <= y < field.height :: Point(x, y)
  }

  /** Both sides lie in 1..255, as the game's constructor demands. */
  predicate ValidField(field: Size) {
    0 < field.width < 256 && 0 < field.height < 256
  }

  /** A non-empty sequence is its head followed by its tail. */
  lemma HeadTail<T>(s: seq<T>)
    requires |s| > 0
    ensures [s[0]] + s[1..] == s
  {
  }
}
