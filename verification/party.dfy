/** `normalize_party`: collapse known spellings of a party label to one token. */
module Party {
  import opened Wrappers
  import opened Text

  /** The `aliases` table: the canonical token for a stripped, upper-cased
      label, in the order the source lists the entries. */
  function Alias(key: string): (r: Option<string>)
    ensures r.Some? ==> r.value in Canonical
  {
    if key == "JANASENA " then Some("JANASENA")
    else if key == "JANA SENA" then Some("JANASENA")
    else if key == "JATIYA JANA SENA PARTY" then Some("JANASENA")
    else if key == "JSP" then Some("JANASENA")
    else if key == "YSRCP" then Some("YSRCP")
    else if key == "Y.S.R.C.P" then Some("YSRCP")
    else if key == "TDP" then Some("TDP")
    else if key == "TELUGUDE SHAM PARTY" then Some("TDP")
    else if key == "INC" then Some("INC")
    else if key == "CONGRESS" then Some("INC")
    else if key == "BAHUJAN SAMAJ PARTY" then Some("BSP")
    else if key == "B.S.P" then Some("BSP")
    else None
  }

  /** The canonical tokens the alias table maps to. */
  const Canonical: set<string> := {"JANASENA", "YSRCP", "TDP", "INC", "BSP"}

  /** A label already in normal form: no surrounding whitespace, no lower-case
      ASCII letter. */
  predicate IsNormalForm(s: string) {
    IsStripped(s) && IsUpper(s)
  }

  /** `normalize_party(name)`: strip, upper-case, then the alias table; a label
      not in the table is returned stripped and upper-cased. The result is in
      normal form, and a known spelling always yields its canonical token. */
  function NormalizeParty(name: string): (r: string)
    ensures IsNormalForm(r)
    ensures Alias(Upper(Strip(name))).None? ==> r == Upper(Strip(name))
    ensures Alias(Upper(Strip(name))).Some? ==> r == Alias(Upper(Strip(name))).value && r in Canonical
  {
    var key := Upper(Strip(name));
    NormalFormKey(name);
    match Alias(key)
    case Some(canonical) => CanonicalNormalForm(canonical); canonical
    case None => key
  }

  lemma NormalFormKey(name: string)
    ensures IsNormalForm(Upper(Strip(name)))
  {
    StripSpec(name);
    StripUpperCommute(Strip(name));
    StripIdempotent(name);
    StripSpec(Upper(Strip(name)));
    UpperIsUpper(Strip(name));
  }

  lemma CanonicalNormalForm(t: string)
    requires t in Canonical
    ensures IsNormalForm(t)
  {
  }

  /** A canonical token is either absent from the table or mapped to itself. */
  lemma AliasOfCanonical(t: string)
    requires t in Canonical
    ensures Alias(t).None? || Alias(t) == Some(t)
  {
  }

  /** Every canonical token normalizes to itself. */
  lemma CanonicalFixed(t: string)
    requires t in Canonical
    ensures NormalizeParty(t) == t
  {
    CanonicalNormalForm(t);
    StripStripped(t);
    UpperOfUpper(t);
    AliasOfCanonical(t);
  }

  /** Normalizing twice is normalizing once. */
  lemma NormalizeIdempotent(name: string)
    ensures NormalizeParty(NormalizeParty(name)) == NormalizeParty(name)
  {
    var r := NormalizeParty(name);
    if Alias(Upper(Strip(name))).Some? {
      CanonicalFixed(r);
    } else {
      StripStripped(r);
      UpperOfUpper(r);
    }
  }

  /** The `"JANASENA "` entry can never be looked up: the key is looked up
      after stripping, so it never ends in a space. */
  lemma TrailingSpaceAliasUnreachable(name: string)
    ensures Upper(Strip(name)) != "JANASENA "
  {
    NormalFormKey(name);
  }

  /** Known spellings map to their party's token whatever their case and
      surrounding whitespace; an unknown label passes through upper-cased. */
  lemma KnownAliases(name: string)
    ensures Upper(Strip(name)) == "JSP" ==> NormalizeParty(name) == "JANASENA"
    ensures Upper(Strip(name)) == "JANA SENA" ==> NormalizeParty(name) == "JANASENA"
    ensures Upper(Strip(name)) == "CONGRESS" ==> NormalizeParty(name) == "INC"
    ensures Upper(Strip(name)) == "B.S.P" ==> NormalizeParty(name) == "BSP"
    ensures Upper(Strip(name)) == "BJP" ==> NormalizeParty(name) == "BJP"
  {
    AliasEntries();
  }

  /** Some rows of the alias table, and a label that is not in it. */
  lemma AliasEntries()
    ensures Alias("JSP") == Some("JANASENA")
    ensures Alias("JANA SENA") == Some("JANASENA")
    ensures Alias("CONGRESS") == Some("INC")
    ensures Alias("B.S.P") == Some("BSP")
    ensures Alias("BJP") == None
  {
  }
}
