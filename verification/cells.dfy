/** Spreadsheet cell values as `openpyxl` returns them with `values_only=True`,
    and the tolerant coercions `si` and `sf` of seed_elections.py. */
module Cells {
  import opened Wrappers
  import opened Text
  import opened PyFloat

  /** `None`, an `int`, a `float`, or a `str`. */
  datatype Cell = Empty | Int(n: int) | Real(f: Float) | Text(s: string)

  /** One spreadsheet row; rows of a sheet may differ in length. */
  type Row = seq<Cell>

  /** Python truthiness of a cell value: `None`, `0`, `0.0` and `""` are false;
      NaN and the infinities are true. */
  predicate Truthy(c: Cell) {
    match c
    case Empty => false
    case Int(n) => n != 0
    case Real(f) => !(f.Finite? && f.value == 0.0)
    case Text(s) => s != ""
  }

  /** Python's `float(v)`: `None` where it raises (`TypeError` for `None`,
      `ValueError` for malformed text). */
  function FloatOf(c: Cell): Option<Float> {
    match c
    case Empty => None
    case Int(n) => Some(Finite(n as real))
    case Real(f) => Some(f)
    case Text(s) => ParseFloat(s)
  }

  /** `si`: `int(float(v))`, with 0 for `None` and for every value on which
      either conversion raises (text `float()` rejects, NaN, the infinities). */
  function SafeInt(c: Cell): (r: int)
    ensures (FloatOf(c).None? || !FloatOf(c).value.Finite?) ==> r == 0
    ensures FloatOf(c).Some? && FloatOf(c).value.Finite? ==>
      var v := FloatOf(c).value.value;
      && (r > 0 ==> v > 0.0) && (r < 0 ==> v < 0.0)
      && (r as real - 1.0 < v < r as real + 1.0)
      && (v >= 0.0 ==> r as real <= v) && (v <= 0.0 ==> v <= r as real)
  {
    if c.Empty? then 0
    else
      match FloatOf(c)
      case Some(Finite(v)) => Trunc(v)
      case _ => 0
  }

  /** `sf`: `float(v)`, with 0.0 for `None` and for text `float()` rejects. */
  function SafeFloat(c: Cell): (r: Float)
    ensures FloatOf(c).Some? ==> r == FloatOf(c).value
    ensures FloatOf(c).None? ==> r == Finite(0.0)
  {
    if c.Empty? then Finite(0.0)
    else
      match FloatOf(c)
      case Some(f) => f
      case None => Finite(0.0)
  }

  /** `si` is `int()` applied to what `sf` returns, with 0 where `int()` raises. */
  lemma SafeIntThroughSafeFloat(c: Cell)
    ensures SafeInt(c) == (if SafeFloat(c).Finite? then Trunc(SafeFloat(c).value) else 0)
  {
  }

  /** An integer cell, or text holding Python's rendering of an integer, reads
      back as that integer. */
  lemma SafeIntOfIntText(n: int)
    ensures SafeInt(Text(IntToString(n))) == n
    ensures SafeInt(Int(n)) == n
  {
    ParseFloatOfIntString(n);
    SafeIntOfWhole(Text(IntToString(n)), n);
    SafeIntOfWhole(Int(n), n);
  }

  /** A cell that converts to a whole number gives that number. */
  lemma SafeIntOfWhole(c: Cell, n: int)
    requires FloatOf(c) == Some(Finite(n as real))
    ensures SafeInt(c) == n
  {
  }

  /** `si` of text led by a file separator is 0: `float()` rejects it. */
  lemma SafeIntOfSeparatedText()
    ensures SafeInt(Text("\U{1c}7")) == 0
  {
    var s := "\U{1c}7";
    SeparatorRejected();
    SafeIntOfRejected(Text(s));
  }

  /** A cell `float()` rejects gives 0. */
  lemma SafeIntOfRejected(c: Cell)
    requires c.Text? && ParseFloat(c.s).None?
    ensures SafeInt(c) == 0
  {
  }

  /** Up to `k` decimal digits of a fraction in [0, 1), stopping when the rest
      is zero. */
  function FractionDigits(x: real, k: nat): (r: string)
    decreases k
    requires 0.0 <= x < 1.0
    ensures AllDigits(r)
  {
    if k == 0 || x == 0.0 then ""
    else
      var d := (x * 10.0).Floor;
      assert 0 <= d < 10;
      [DigitChar(d)] + FractionDigits(x * 10.0 - d as real, k - 1)
  }

  /** Python's `str()` of a float, for NaN, the infinities and values written
      in positional notation with at most 17 fraction digits. */
  function FloatRepr(f: Float): string {
    match f
    case NaN => "nan"
    case Inf(negative) => if negative then "-inf" else "inf"
    case Finite(v) =>
      var a := if v < 0.0 then -v else v;
      var frac := FractionDigits(a - a.Floor as real, 17);
      (if v < 0.0 then "-" else "") + NatToString(a.Floor) + "." + (if frac == "" then "0" else frac)
  }

  /** Python's `str(v)` of a cell value. */
  function CellStr(c: Cell): string {
    match c
    case Empty => "None"
    case Int(n) => IntToString(n)
    case Real(f) => FloatRepr(f)
    case Text(s) => s
  }
}
