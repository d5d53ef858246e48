/** Character-level string operations the two programs rely on: Python's
    `str.strip()`, `str.upper()`, `in` on strings and `str(int)`, and
    JavaScript's `startsWith`, `endsWith` and `replace` with a string pattern. */
module Text {
  import opened Wrappers

  /** Python's `str.isspace()` for one character: the whitespace set that
      `str.strip()` removes. */
  predicate IsSpace(c: char) {
    c == ' ' || ('\t' <= c <= '\r') || ('\U{1c}' <= c <= '\U{1f}')
    || c == '\U{85}' || c == '\U{a0}' || c == '\U{1680}'
    || ('\U{2000}' <= c <= '\U{200a}') || c == '\U{2028}' || c == '\U{2029}'
    || c == '\U{202f}' || c == '\U{205f}' || c == '\U{3000}'
  }

  /** Leading whitespace removed. */
  function TrimStart(s: string): (r: string)
    ensures |r| <= |s| && r == s[|s| - |r|..]
    ensures forall i :: 0 <= i < |s| - |r| ==> IsSpace(s[i])
    ensures r != [] ==> !IsSpace(r[0])
  {
    if s != [] && IsSpace(s[0]) then TrimStart(s[1..]) else s
  }

  /** Trailing whitespace removed. */
  function TrimEnd(s: string): (r: string)
    ensures |r| <= |s| && r == s[..|r|]
    ensures forall i :: |r| <= i < |s| ==> IsSpace(s[i])
    ensures r != [] ==> !IsSpace(r[|r| - 1])
  {
    if s != [] && IsSpace(s[|s| - 1]) then TrimEnd(s[..|s| - 1]) else s
  }

  /** Python's `str.strip()` with no argument. */
  function Strip(s: string): string {
    TrimEnd(TrimStart(s))
  }

  predicate IsStripped(s: string) {
    s == [] || (!IsSpace(s[0]) && !IsSpace(s[|s| - 1]))
  }

  /** `r` is the slice of `s` that starts at `k`, everything of `s` before and
      after it is whitespace, and `r` itself neither starts nor ends with
      whitespace. */
  predicate IsStripOf(s: string, k: nat, r: string) {
    && k + |r| <= |s|
    && (forall i :: 0 <= i < |r| ==> r[i] == s[k + i])
    && (forall i :: 0 <= i < k ==> IsSpace(s[i]))
    && (forall i :: k + |r| <= i < |s| ==> IsSpace(s[i]))
    && IsStripped(r)
  }

  /** `Strip` removes exactly the leading and trailing whitespace: the result is
      the slice of the input after its leading whitespace, with only whitespace
      after it, and it neither starts nor ends with whitespace. */
  lemma StripSpec(s: string)
    ensures IsStripOf(s, |s| - |TrimStart(s)|, Strip(s))
  {
    var t := TrimStart(s);
    var r := TrimEnd(t);
    assert Strip(s) == r;
    TrimStartSpec(s);
    TrimEndSpec(t);
    StripSlice(s, t, r);
  }

  /** `t` is `s` without its leading whitespace. */
  predicate IsTrimStartOf(s: string, t: string) {
    && |t| <= |s| && t == s[|s| - |t|..]
    && (forall i :: 0 <= i < |s| - |t| ==> IsSpace(s[i]))
    && (t != [] ==> !IsSpace(t[0]))
  }

  /** `r` is `t` without its trailing whitespace. */
  predicate IsTrimEndOf(t: string, r: string) {
    && |r| <= |t| && r == t[..|r|]
    && (forall i :: |r| <= i < |t| ==> IsSpace(t[i]))
    && (r != [] ==> !IsSpace(r[|r| - 1]))
  }

  lemma TrimStartSpec(s: string)
    ensures IsTrimStartOf(s, TrimStart(s))
  {
  }

  lemma TrimEndSpec(t: string)
    ensures IsTrimEndOf(t, TrimEnd(t))
  {
  }

  /** `StripSpec` over any `t` and `r` with the properties of the two trims. */
  lemma StripSlice(s: string, t: string, r: string)
    requires IsTrimStartOf(s, t) && IsTrimEndOf(t, r)
    ensures IsStripOf(s, |s| - |t|, r)
  {
    var k := |s| - |t|;
    PrefixOfSuffix(s, k, t, r);
    forall i | k + |r| <= i < |s|
      ensures IsSpace(s[i])
    {
      var j := i - k;
      assert |r| <= j < |t|;
      assert IsSpace(t[j]);
    }
    if r != [] {
      assert r[0] == t[0];
    }
  }

  /** A prefix `r` of the suffix `t` of `s` that starts at `k` is the slice of
      `s` from `k`, and what follows it in `s` is what follows it in `t`. */
  lemma PrefixOfSuffix(s: string, k: nat, t: string, r: string)
    requires k <= |s| && t == s[k..] && |r| <= |t| && r == t[..|r|]
    ensures forall i :: 0 <= i < |r| ==> r[i] == s[k + i]
    ensures forall i :: k + |r| <= i < |s| ==> s[i] == t[i - k]
  {
  }

  /** Nothing but whitespace. */
  predicate IsBlank(s: string) {
    forall i :: 0 <= i < |s| ==> IsSpace(s[i])
  }

  /** `s.strip()` is empty exactly when `s` is blank. */
  lemma StripEmptyIff(s: string)
    ensures Strip(s) == "" <==> IsBlank(s)
  {
    StripSpec(s);
    var k := |s| - |TrimStart(s)|;
    var r := Strip(s);
    if r != "" {
      assert r[0] == s[k];
    }
  }

  /** Stripping a stripped string changes nothing. */
  lemma StripStripped(s: string)
    requires IsStripped(s)
    ensures Strip(s) == s
  {
  }

  lemma StripIdempotent(s: string)
    ensures Strip(Strip(s)) == Strip(s)
  {
    StripSpec(s);
    StripStripped(Strip(s));
  }

  /** Python's `str.upper()` restricted to ASCII letters. */
  function UpperChar(c: char): char {
    if 'a' <= c <= 'z' then (c as int - 32) as char else c
  }

  function Upper(s: string): (r: string)
    ensures |r| == |s|
    ensures forall i :: 0 <= i < |s| ==> r[i] == UpperChar(s[i])
  {
    seq(|s|, i requires 0 <= i < |s| => UpperChar(s[i]))
  }

  predicate IsUpper(s: string) {
    forall i :: 0 <= i < |s| ==> !('a' <= s[i] <= 'z')
  }

  lemma UpperIsUpper(s: string)
    ensures IsUpper(Upper(s))
  {
  }

  lemma UpperOfUpper(s: string)
    requires IsUpper(s)
    ensures Upper(s) == s
  {
  }

  /** Upper-casing neither creates nor removes whitespace, so it commutes with
      `Strip`. */
  lemma StripUpperCommute(s: string)
    ensures Strip(Upper(s)) == Upper(Strip(s))
  {
    var u := Upper(s);
    var a := TrimStart(s);
    var b := TrimStart(u);
    TrimStartUpper(s);
    TrimEndUpper(a);
  }

  /** Upper-casing a character never changes whether it is whitespace. */
  lemma UpperCharSpace(c: char)
    ensures IsSpace(UpperChar(c)) == IsSpace(c)
  {
  }

  lemma {:induction false} TrimStartUpper(s: string)
    ensures TrimStart(Upper(s)) == Upper(TrimStart(s))
    decreases |s|
  {
    var u := Upper(s);
    if s == [] {
      assert u == [];
    } else {
      assert u[0] == UpperChar(s[0]);
      UpperCharSpace(s[0]);
      if IsSpace(s[0]) {
        assert u[1..] == Upper(s[1..]);
        TrimStartUpper(s[1..]);
      } else {
        assert TrimStart(u) == u && TrimStart(s) == s;
      }
    }
  }

  lemma {:induction false} TrimEndUpper(s: string)
    ensures TrimEnd(Upper(s)) == Upper(TrimEnd(s))
    decreases |s|
  {
    var u := Upper(s);
    if s == [] {
      assert u == [];
    } else {
      assert u[|s| - 1] == UpperChar(s[|s| - 1]);
      UpperCharSpace(s[|s| - 1]);
      if IsSpace(s[|s| - 1]) {
        assert u[..|s| - 1] == Upper(s[..|s| - 1]);
        TrimEndUpper(s[..|s| - 1]);
      } else {
        assert TrimEnd(u) == u && TrimEnd(s) == s;
      }
    }
  }

  // ---------------------------------------------------------------------
  // Substrings
  // ---------------------------------------------------------------------

  predicate StartsWith(s: string, p: string) {
    |p| <= |s| && s[..|p|] == p
  }

  predicate EndsWith(s: string, p: string) {
    |p| <= |s| && s[|s| - |p|..] == p
  }

  /** `needle` occurs in `hay` starting at index `i`. */
  predicate OccursAt(hay: string, needle: string, i: int) {
    0 <= i && i + |needle| <= |hay| && hay[i..i + |needle|] == needle
  }

  /** The first index at or after `from` where `needle` occurs. */
  function IndexOfFrom(hay: string, needle: string, from: nat): (r: Option<nat>)
    ensures r.Some? ==> from <= r.value && OccursAt(hay, needle, r.value)
    ensures r.Some? ==> forall j :: from <= j < r.value ==> !OccursAt(hay, needle, j)
    ensures r.None? ==> forall j :: from <= j ==> !OccursAt(hay, needle, j)
    decreases |hay| - from
  {
    if from + |needle| > |hay| then None
    else if hay[from..from + |needle|] == needle then Some(from)
    else IndexOfFrom(hay, needle, from + 1)
  }

  /** The first occurrence of `needle` in `hay` (JavaScript `indexOf`). */
  function IndexOf(hay: string, needle: string): Option<nat> {
    IndexOfFrom(hay, needle, 0)
  }

  /** Python's `needle in hay` for strings. */
  predicate Contains(hay: string, needle: string) {
    IndexOf(hay, needle).Some?
  }

  lemma ContainsIff(hay: string, needle: string)
    ensures Contains(hay, needle) <==> exists i :: OccursAt(hay, needle, i)
  {
    if IndexOf(hay, needle).Some? {
      assert OccursAt(hay, needle, IndexOf(hay, needle).value);
    }
  }

  /** `pat` occurs at `i` and at no earlier index. */
  predicate FirstOccurrence(s: string, pat: string, i: nat) {
    OccursAt(s, pat, i) && forall j :: 0 <= j < i ==> !OccursAt(s, pat, j)
  }

  /** JavaScript's `s.replace(pat, "")` with a string pattern: the first
      occurrence is cut out, and later ones are kept; without an occurrence
      the string is unchanged. */
  function RemoveFirst(s: string, pat: string): (r: string)
    ensures (forall j :: !OccursAt(s, pat, j)) ==> r == s
    ensures forall i: nat :: FirstOccurrence(s, pat, i) ==>
      |r| == |s| - |pat| && r[..i] == s[..i] && r[i..] == s[i + |pat|..]
  {
    match IndexOf(s, pat)
    case None => s
    case Some(i) => s[..i] + s[i + |pat|..]
  }

  /** `RemoveFirst` at a known first occurrence. */
  lemma RemoveFirstAt(s: string, pat: string, i: nat)
    requires FirstOccurrence(s, pat, i)
    ensures RemoveFirst(s, pat) == s[..i] + s[i + |pat|..]
  {
    var r := RemoveFirst(s, pat);
    assert r == r[..i] + r[i..];
  }

  // ---------------------------------------------------------------------
  // Decimal rendering of integers, as Python's str(int) and JavaScript's
  // String(n) for integral n write them
  // ---------------------------------------------------------------------

  predicate IsDigit(c: char) {
    '0' <= c <= '9'
  }

  function DigitChar(d: nat): (c: char)
    requires d < 10
    ensures IsDigit(c)
  {
    ('0' as int + d) as char
  }

  function DigitValue(c: char): nat
    requires IsDigit(c)
  {
    c as int - '0' as int
  }

  predicate AllDigits(s: string) {
    forall i :: 0 <= i < |s| ==> IsDigit(s[i])
  }

  /** The value of a string of decimal digits, most significant first. */
  function DigitsValue(s: string): nat
    requires AllDigits(s)
  {
    if s == [] then 0 else DigitsValue(s[..|s| - 1]) * 10 + DigitValue(s[|s| - 1])
  }

  function NatToString(n: nat): (r: string)
    ensures r != [] && AllDigits(r)
    ensures |r| > 1 ==> r[0] != '0'
  {
    if n < 10 then [DigitChar(n)] else NatToString(n / 10) + [DigitChar(n % 10)]
  }

  /** Python's `str(n)` for an `int`. */
  function IntToString(n: int): string {
    if n < 0 then "-" + NatToString(-n) else NatToString(n)
  }

  /** A string `IntToString` can produce: an optional minus sign, then digits. */
  predicate IsIntString(s: string) {
    s != [] && (s[0] == '-' ==> |s| > 1) && forall i :: 0 <= i < |s| ==> IsDigit(s[i]) || (i == 0 && s[i] == '-')
  }

  lemma {:induction false} NatToStringValue(n: nat)
    ensures DigitsValue(NatToString(n)) == n
    decreases n
  {
    if n >= 10 {
      NatToStringValue(n / 10);
      var s := NatToString(n);
      assert s[..|s| - 1] == NatToString(n / 10);
    }
  }

  /** The decimal rendering is never empty, has the int-string shape, and is
      "0" exactly for zero. */
  lemma IntToStringShape(n: int)
    ensures IsIntString(IntToString(n))
    ensures IntToString(n) == "0" <==> n == 0
  {
    if n < 0 {
      var s := IntToString(n);
      assert s[0] == '-';
      assert s != "0";
    } else if n != 0 {
      NatToStringValue(n);
      assert DigitsValue("0") == 0;
    }
  }

  /** Reading the rendering back gives the number: `IntToString` is injective. */
  lemma IntToStringInjective(a: int, b: int)
    requires IntToString(a) == IntToString(b)
    ensures a == b
  {
    var s := IntToString(a);
    IntToStringSign(a);
    IntToStringSign(b);
    if a < 0 {
      assert NatToString(-a) == s[1..] == NatToString(-b);
      NatToStringValue(-a);
      NatToStringValue(-b);
    } else {
      NatToStringValue(a);
      NatToStringValue(b);
    }
  }

  /** `str(n)` starts with a minus sign exactly when `n` is negative. */
  lemma IntToStringSign(n: int)
    ensures IntToString(n) != [] && (IntToString(n)[0] == '-' <==> n < 0)
  {
    if n >= 0 {
      assert IsDigit(NatToString(n)[0]);
    }
  }
}
