/** Python's `float` values and the `float(str)` conversion that `si` and `sf`
    apply to text cells.

    A float is modelled by its exact value: double-precision rounding, and the
    overflow of very large literals to infinity, are not modelled. */
module PyFloat {
  import opened Wrappers
  import opened Text

  datatype Float = Finite(value: real) | NaN | Inf(negative: bool)

  /** A `digitpart` of Python's float grammar: decimal digits, with single
      underscores allowed between two digits ("1_000"). */
  predicate IsDigitPart(s: string) {
    && s != [] && IsDigit(s[0]) && IsDigit(s[|s| - 1])
    && (forall i :: 0 <= i < |s| ==> IsDigit(s[i]) || s[i] == '_')
    && (forall i :: 0 < i < |s| ==> IsDigit(s[i - 1]) || IsDigit(s[i]))
  }

  function DropUnderscores(s: string): (r: string)
    ensures |r| <= |s|
    ensures (forall i :: 0 <= i < |s| ==> IsDigit(s[i]) || s[i] == '_') ==> AllDigits(r)
  {
    if s == [] then []
    else (if s[0] == '_' then [] else [s[0]]) + DropUnderscores(s[1..])
  }

  lemma DigitPartDigits(s: string)
    requires s == [] || IsDigitPart(s)
    ensures AllDigits(DropUnderscores(s))
  {
    if s != [] {
      assert forall i :: 0 <= i < |s| ==> IsDigit(s[i]) || s[i] == '_';
    }
  }

  lemma DropUnderscoresOfDigits(s: string)
    requires AllDigits(s)
    ensures DropUnderscores(s) == s
  {
  }

  function Pow10(k: nat): (r: nat)
    ensures r > 0
  {
    if k == 0 then 1 else 10 * Pow10(k - 1)
  }

  /** `m * 10^e` as a real number. */
  function Scale(m: nat, e: int): (r: real)
    ensures r >= 0.0
  {
    if e >= 0 then (m * Pow10(e)) as real else m as real / Pow10(-e) as real
  }

  /** The exponent part after `e`/`E`: an optional sign and a digitpart. */
  function ParseExponent(s: string): Option<int> {
    var neg := s != [] && s[0] == '-';
    var digits := if s != [] && (s[0] == '+' || s[0] == '-') then s[1..] else s;
    if IsDigitPart(digits) then
      DigitPartDigits(digits);
      var n := DigitsValue(DropUnderscores(digits)) as int;
      Some(if neg then -n else n)
    else None
  }

  /** The part before the first `e`/`E` and the value of the exponent after it
      (0 when there is none, `None` when it is malformed). */
  function SplitExponent(s: string): (string, Option<int>) {
    match IndexOf(Upper(s), "E")
    case None => (s, Some(0))
    case Some(k) => (s[..k], ParseExponent(s[k + 1..]))
  }

  /** The digits before and after the first `.`, and whether there is one. */
  function SplitPoint(mant: string): (string, string, bool) {
    match IndexOf(mant, ".")
    case None => (mant, "", false)
    case Some(k) => (mant[..k], mant[k + 1..], true)
  }

  /** The value of `whole.frac * 10^exp`, when both parts are well formed:
      at least one of them non-empty, the fraction only after a point. */
  function MantissaValue(whole: string, frac: string, hasPoint: bool, exp: int): (r: Option<real>)
    ensures r.Some? ==> r.value >= 0.0
  {
    var wholeOk := IsDigitPart(whole) || (hasPoint && whole == [] && IsDigitPart(frac));
    var fracOk := frac == [] || IsDigitPart(frac);
    if wholeOk && fracOk then
      DigitPartDigits(whole);
      DigitPartDigits(frac);
      var w := DropUnderscores(whole);
      var f := DropUnderscores(frac);
      Some(Scale(DigitsValue(w + f), exp - |f|))
    else None
  }

  /** An unsigned decimal literal: `digitpart`, `digitpart "."`,
      `digitpart "." digitpart` or `"." digitpart`, then an optional exponent. */
  function ParseUnsignedDecimal(s: string): (r: Option<real>)
    ensures r.Some? ==> r.value >= 0.0
  {
    var (mant, exp) := SplitExponent(s);
    if exp.None? then None
    else
      var (whole, frac, hasPoint) := SplitPoint(mant);
      MantissaValue(whole, frac, hasPoint, exp.value)
  }

  /** An optional leading sign: whether it is `-`, and what follows it. */
  function SplitSign(t: string): (bool, string) {
    if t != [] && (t[0] == '+' || t[0] == '-') then (t[0] == '-', t[1..]) else (false, t)
  }

  /** An unsigned float literal: `inf`, `infinity` or `nan` in any case, or a
      decimal literal. */
  function ParseUnsignedFloat(body: string): Option<Float> {
    var word := Upper(body);
    if word == "INF" || word == "INFINITY" then Some(Inf(false))
    else if word == "NAN" then Some(NaN)
    else
      match ParseUnsignedDecimal(body)
      case None => None
      case Some(v) => Some(Finite(v))
  }

  function Negate(f: Float): Float {
    match f
    case Finite(v) => Finite(-v)
    case NaN => NaN
    case Inf(negative) => Inf(!negative)
  }

  /** The whitespace `float()` ignores around a literal. CPython maps each
      non-ASCII whitespace character to a space and then strips only ASCII
      whitespace (space and `\t` to `\r`), so the separators `\x1c` to
      `\x1f`, which `str.strip()` removes, stay and make the literal
      malformed. */
  predicate IsFloatSpace(c: char) {
    IsSpace(c) && !('\U{1c}' <= c <= '\U{1f}')
  }

  /** Leading `float()` whitespace removed. */
  function FloatTrimStart(s: string): (r: string)
    ensures |r| <= |s| && r == s[|s| - |r|..]
    ensures forall i :: 0 <= i < |s| - |r| ==> IsFloatSpace(s[i])
    ensures r != [] ==> !IsFloatSpace(r[0])
  {
    if s != [] && IsFloatSpace(s[0]) then FloatTrimStart(s[1..]) else s
  }

  /** Trailing `float()` whitespace removed. */
  function FloatTrimEnd(s: string): (r: string)
    ensures |r| <= |s| && r == s[..|r|]
    ensures forall i :: |r| <= i < |s| ==> IsFloatSpace(s[i])
    ensures r != [] ==> !IsFloatSpace(r[|r| - 1])
  {
    if s != [] && IsFloatSpace(s[|s| - 1]) then FloatTrimEnd(s[..|s| - 1]) else s
  }

  /** Python's `float(s)` for a string: `Some(value)`, or `None` where Python
      raises `ValueError`. Surrounding `float()` whitespace is ignored. */
  function ParseFloat(s: string): Option<Float> {
    ParseSignedFloat(FloatStrip(s))
  }

  /** `float()`'s own strip of the surrounding whitespace. */
  function FloatStrip(s: string): string {
    FloatTrimEnd(FloatTrimStart(s))
  }

  function ParseSignedFloat(t: string): Option<Float> {
    var sign := SplitSign(t);
    match ParseUnsignedFloat(sign.1)
    case None => None
    case Some(f) => Some(if sign.0 then Negate(f) else f)
  }

  /** Python's `int(x)` for a finite float: truncation toward zero. */
  function Trunc(v: real): (r: int)
    ensures v >= 0.0 ==> 0 <= r && r as real <= v < r as real + 1.0
    ensures v < 0.0 ==> r <= 0 && r as real - 1.0 < v <= r as real
  {
    if v >= 0.0 then v.Floor else -((-v).Floor)
  }

  lemma AllDigitsNoOccurrence(s: string, c: char)
    requires AllDigits(s) && !IsDigit(c)
    ensures IndexOf(s, [c]).None?
  {
    forall j | 0 <= j < |s|
      ensures !OccursAt(s, [c], j)
    {
      assert s[j..j + 1] == [s[j]];
    }
  }

  /** A plain run of digits reads as its decimal value. */
  lemma ParseUnsignedDigits(d: string)
    requires d != [] && AllDigits(d)
    ensures ParseUnsignedDecimal(d) == Some(DigitsValue(d) as real)
  {
    UpperOfUpper(d);
    AllDigitsNoOccurrence(d, 'E');
    AllDigitsNoOccurrence(d, '.');
    assert SplitExponent(d) == (d, Some(0));
    assert SplitPoint(d) == (d, "", false);
    DropUnderscoresOfDigits(d);
    assert DropUnderscores("") == "";
    assert d + "" == d;
    assert Scale(DigitsValue(d), 0) == DigitsValue(d) as real;
  }

  /** A run of digits is not one of the words `inf`, `infinity`, `nan`. */
  lemma ParseUnsignedFloatDigits(d: string)
    requires d != [] && AllDigits(d)
    ensures ParseUnsignedFloat(d) == Some(Finite(DigitsValue(d) as real))
  {
    UpperOfUpper(d);
    assert d != "INF" && d != "INFINITY" && d != "NAN" by {
      assert IsDigit(d[0]);
    }
    ParseUnsignedDigits(d);
  }

  /** The value of an optionally negated run of digits. */
  function SignedValue(neg: bool, d: string): int
    requires AllDigits(d)
  {
    if neg then -(DigitsValue(d) as int) else DigitsValue(d) as int
  }

  /** An optionally negated run of digits has no surrounding whitespace. */
  lemma SignedDigitsStripped(s: string, neg: bool, d: string)
    requires d != [] && AllDigits(d)
    requires s == (if neg then "-" else "") + d
    ensures FloatStrip(s) == s
  {
    assert IsDigit(s[|s| - 1]) by {
      assert s[|s| - 1] == d[|d| - 1];
    }
    assert s[0] == '-' || IsDigit(s[0]) by {
      if !neg {
        assert s == d;
      }
    }
    FloatTrimNone(s);
  }

  /** Text that neither starts nor ends with `float()` whitespace is left as
      it is. */
  lemma FloatTrimNone(s: string)
    requires s != [] && !IsFloatSpace(s[0]) && !IsFloatSpace(s[|s| - 1])
    ensures FloatStrip(s) == s
  {
    assert FloatTrimStart(s) == s;
  }

  lemma ParsePlainDigits(d: string)
    requires d != [] && AllDigits(d)
    ensures ParseSignedFloat(d) == Some(Finite(DigitsValue(d) as real))
  {
    assert SplitSign(d) == (false, d) by {
      assert IsDigit(d[0]);
    }
    ParseUnsignedFloatDigits(d);
  }

  lemma ParseNegatedDigits(d: string)
    requires d != [] && AllDigits(d)
    ensures ParseSignedFloat("-" + d) == Some(Finite(-(DigitsValue(d) as real)))
  {
    var s := "-" + d;
    var sign := SplitSign(s);
    assert sign.0 && sign.1 == d by {
      assert s[0] == '-' && s[1..] == d;
    }
    var f := Finite(DigitsValue(d) as real);
    assert ParseUnsignedFloat(sign.1) == Some(f) by {
      ParseUnsignedFloatDigits(d);
    }
    assert ParseSignedFloat(s) == Some(Negate(f));
  }

  lemma ParseSignedFloatDigits(s: string, neg: bool, d: string)
    requires d != [] && AllDigits(d)
    requires s == (if neg then "-" else "") + d
    ensures ParseSignedFloat(s) == Some(Finite(SignedValue(neg, d) as real))
  {
    if neg {
      ParseNegatedDigits(d);
    } else {
      assert s == d;
      ParsePlainDigits(d);
    }
  }

  /** A signed run of digits reads as its signed decimal value. */
  lemma ParseSignedDigits(s: string, neg: bool, d: string)
    requires d != [] && AllDigits(d)
    requires s == (if neg then "-" else "") + d
    ensures ParseFloat(s) == Some(Finite(SignedValue(neg, d) as real))
  {
    SignedDigitsStripped(s, neg, d);
    ParseSignedFloatDigits(s, neg, d);
  }

  /** `float()` reads Python's rendering of an integer back as that integer. */
  lemma ParseFloatOfIntString(n: int)
    ensures ParseFloat(IntToString(n)) == Some(Finite(n as real))
  {
    var s := IntToString(n);
    var m: nat := if n < 0 then -n else n;
    var d := NatToString(m);
    NatToStringValue(m);
    assert s == (if n < 0 then "-" else "") + d;
    ParseSignedDigits(s, n < 0, d);
  }

  /** A file separator in front of a number is not `float()` whitespace, so
      the text is rejected, although `str.strip()` would remove it. */
  lemma SeparatorRejected()
    ensures Strip("\U{1c}7") == "7"
    ensures ParseFloat("\U{1c}7").None?
  {
    var s := "\U{1c}7";
    SeparatorStripped(s);
    SeparatorNotFloat(s);
  }

  lemma SeparatorStripped(s: string)
    requires s == "\U{1c}7"
    ensures Strip(s) == "7"
  {
    assert TrimStart(s) == "7" by {
      assert s[1..] == "7";
    }
  }

  lemma SeparatorNotFloat(s: string)
    requires s == "\U{1c}7"
    ensures ParseFloat(s).None?
  {
    assert !IsFloatSpace(s[0]) && !IsFloatSpace(s[1]);
    FloatTrimNone(s);
    assert SplitSign(s) == (false, s);
    assert Upper(s) == s by {
      assert Upper(s) == [UpperChar(s[0])] + Upper(s[1..]);
    }
    assert IndexOf(s, "E").None? by {
      assert !OccursAt(s, "E", 0) && !OccursAt(s, "E", 1);
    }
    assert IndexOf(s, ".").None? by {
      assert !OccursAt(s, ".", 0) && !OccursAt(s, ".", 1);
    }
    assert !IsDigitPart(s);
  }
}
