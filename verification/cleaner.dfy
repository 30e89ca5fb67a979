/** The rule the post-OCR CSV clean-up applies to every numeric cell: a
    number from 100 to 999 is taken to be Kbps and becomes Mbps; anything
    else is left as it is. */
module DataCleaner {
  import UnitConverter

  /** A CSV cell as pandas hands it over. `bool` is a subclass of `int` in
      Python, so a Boolean cell counts as the number 0 or 1. */
  datatype Cell = IntCell(i: int) | FloatCell(f: real) | TextCell(s: string) | BoolCell(b: bool) | NoneCell

  /** `isinstance(value, (int, float))`. */
  predicate IsNumber(c: Cell)
  {
    c.IntCell? || c.FloatCell? || c.BoolCell?
  }

  /** The number a numeric cell holds. */
  function NumberOf(c: Cell): real
    requires IsNumber(c)
  {
    match c
    case IntCell(i) => i as real
    case FloatCell(f) => f
    case BoolCell(b) => if b then 1.0 else 0.0
  }

  /** The cells the rule converts: numbers from 100 to 999 inclusive. */
  predicate InKbpsRange(c: Cell)
  {
    IsNumber(c) && 100.0 <= NumberOf(c) <= 999.0
  }

  /** `_convert_kbps_to_mbps`: a number in the Kbps range becomes the float
      a thousandth of it, which lies between 0.1 and 0.999; every other cell
      comes back unchanged. */
  function ConvertKbpsToMbps(c: Cell): (r: Cell)
    ensures InKbpsRange(c) ==> r.FloatCell? && r.f * 1000.0 == NumberOf(c) && 0.1 <= r.f <= 0.999
    ensures !InKbpsRange(c) ==> r == c
  {
    if IsNumber(c) && 100.0 <= NumberOf(c) <= 999.0 then FloatCell(NumberOf(c) / 1000.0)
    else c
  }

  /** A converted cell is out of the Kbps range, so cleaning twice is
      cleaning once. */
  lemma ConvertIdempotent(c: Cell)
    ensures ConvertKbpsToMbps(ConvertKbpsToMbps(c)) == ConvertKbpsToMbps(c)
  {
  }

  /** The rule agrees with the unit converter: a cell it converts gets the
      value that reading it as Kbps and converting to Mbps gives. */
  lemma AgreesWithUnitConverter(c: Cell, original: string, confidence: real)
    requires InKbpsRange(c)
    ensures ConvertKbpsToMbps(c).f
      == UnitConverter.ConvertToUnit(UnitConverter.ParsedValue(original, NumberOf(c), UnitConverter.Kbps, confidence), UnitConverter.Mbps)
  {
    var p := UnitConverter.ParsedValue(original, NumberOf(c), UnitConverter.Kbps, confidence);
    UnitConverter.KbpsMbpsFactor(p);
  }

  /** The cases the unit tests pin down. */
  lemma ConvertExamples()
    ensures ConvertKbpsToMbps(IntCell(100)) == FloatCell(0.1)
    ensures ConvertKbpsToMbps(IntCell(500)) == FloatCell(0.5)
    ensures ConvertKbpsToMbps(IntCell(999)) == FloatCell(0.999)
    ensures ConvertKbpsToMbps(IntCell(99)) == IntCell(99)
    ensures ConvertKbpsToMbps(IntCell(50)) == IntCell(50)
    ensures ConvertKbpsToMbps(IntCell(0)) == IntCell(0)
    ensures ConvertKbpsToMbps(IntCell(1000)) == IntCell(1000)
    ensures ConvertKbpsToMbps(IntCell(5000)) == IntCell(5000)
    ensures ConvertKbpsToMbps(FloatCell(150.5)) == FloatCell(0.1505)
    ensures ConvertKbpsToMbps(TextCell("N/A")) == TextCell("N/A")
    ensures ConvertKbpsToMbps(NoneCell) == NoneCell
    ensures ConvertKbpsToMbps(TextCell("")) == TextCell("")
  {
  }
}
