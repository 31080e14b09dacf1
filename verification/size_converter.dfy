/** The persistence conversion of a field size to "WxH" text and back
    (Minesweeper/Model/Mapping/SizeConverter.cs). */
module SizeConverter {
  import opened Wrappers
  import opened Types
  import Numbers

  /** The column size the mapping reserves (`ConverterMappingHints(7)`). */
  const MaxLength := 7

  /** model -> db: "{Width}x{Height}". */
  function ToText(size: Size): string {
    Numbers.PairText(size.width, size.height)
  }

  /** db -> model: split on 'x' and parse fields [0] and [1]. */
  function FromText(text: string): Result<Size, Error> {
    var pair :- Numbers.ParsePair(text);
    Success(Size(pair.0, pair.1))
  }

  /** Reading written text gives the same size back, negative components included. */
  lemma RoundTrip(size: Size)
    requires IsInt32(size.width) && IsInt32(size.height)
    ensures FromText(ToText(size)) == Success(size)
  {
    Numbers.ParsePairText(size.width, size.height);
  }

  /** A field size the game accepts always fits the reserved column. */
  lemma FitsColumn(size: Size)
    requires ValidField(size)
    ensures |ToText(size)| <= MaxLength
  {
    Numbers.DigitsTextShort(size.width);
    Numbers.DigitsTextShort(size.height);
  }

  /** Text without an 'x' fails; further 'x' fields are ignored. */
  lemma TextShape(a: string, b: string, rest: string)
    requires forall i :: 0 <= i < |a| ==> a[i] != 'x'
    requires forall i :: 0 <= i < |b| ==> b[i] != 'x'
    ensures FromText(a).Failure?
    ensures FromText(a + "x" + b + "x" + rest) == FromText(a + "x" + b)
  {
    Numbers.ParsePairNeedsSeparator(a);
    Numbers.ParsePairIgnoresExtra(a, b, rest);
  }
}
