/** `processLocalPollingData` of utils/dataProcessing.ts, in the form that
    takes the JSON document as a parameter: every `AC_<id>_FINAL` array of
    the document becomes one polling station per entry, with candidate maps
    for 2021, 2016 and 2011 built from the entry's `<name>_<year>_pct`
    fields. */
module LocalPolling {
  import opened Wrappers
  import opened Text
  import opened Dict
  import opened PyFloat

  // ---------------------------------------------------------------------
  // JSON values and the JavaScript conversions used on them
  // ---------------------------------------------------------------------

  /** A parsed JSON value. JSON numbers are finite and held exactly: the
      rounding of JavaScript's doubles is not part of the model. */
  datatype Json =
    | JNull
    | JBool(b: bool)
    | JNum(x: real)
    | JStr(s: string)
    | JArr(items: seq<Json>)
    | JObj(fields: seq<(string, Json)>)

  /** A JavaScript object read from JSON: its keys are distinct, in the order
      `Object.keys` lists them. */
  type JsObject = o: seq<(string, Json)> | NoDupKeys(o) witness []

  /** The conversions of the JavaScript runtime that the model does not spell
      out: `parseFloat` on a string, and the decimal rendering of a number
      that is not an integer of magnitude at most 2^53. */
  datatype Runtime = Runtime(parseFloat: string -> Float, numberText: real -> string)

  /** `station[k]`: `None` stands for `undefined`. */
  function Field(o: JsObject, k: string): Option<Json> {
    Get(o, k)
  }

  /** `parseNumeric`: a number is returned as it is, a string gives
      `parseFloat` of it or 0 when that is NaN, anything else gives 0. */
  function ParseNumeric(rt: Runtime, v: Option<Json>): (r: Float)
    ensures !r.NaN?
    ensures v.Some? && v.value.JNum? ==> r == Finite(v.value.x)
    ensures v.Some? && v.value.JStr? ==> r == (if rt.parseFloat(v.value.s).NaN? then Finite(0.0) else rt.parseFloat(v.value.s))
    ensures !(v.Some? && (v.value.JNum? || v.value.JStr?)) ==> r == Finite(0.0)
  {
    match v
    case Some(JNum(x)) => Finite(x)
    case Some(JStr(s)) =>
      var parsed := rt.parseFloat(s);
      if parsed.NaN? then Finite(0.0) else parsed
    case _ => Finite(0.0)
  }

  /** JavaScript truthiness of a value; `undefined` is falsy. */
  predicate JsTruthy(v: Option<Json>) {
    match v
    case None => false
    case Some(JNull) => false
    case Some(JBool(b)) => b
    case Some(JNum(x)) => x != 0.0
    case Some(JStr(s)) => s != ""
    case Some(_) => true
  }

  /** `a ?? b`: `b` only when `a` is `null` or `undefined`. */
  predicate Nullish(v: Option<Json>) {
    v.None? || v.value.JNull?
  }

  /** 2^53: every integer of at most this magnitude is a double, and `String`
      writes it with its exact digits. Above it a double stands for a whole
      range of integers and `String` writes its shortest round-trip digits. */
  const MaxExactInteger: int := 9007199254740992

  /** `String(x)` of a number: integers of magnitude at most 2^53 are written
      in plain decimal; other numbers are left to the runtime. */
  function NumberString(rt: Runtime, x: real): string {
    if x == x.Floor as real && -MaxExactInteger <= x.Floor <= MaxExactInteger then IntToString(x.Floor)
    else rt.numberText(x)
  }

  function JoinComma(parts: seq<string>): string {
    if parts == [] then ""
    else if |parts| == 1 then parts[0]
    else parts[0] + "," + JoinComma(parts[1..])
  }

  /** `String(v)` of a JSON value. */
  function JsString(rt: Runtime, v: Json): string
    decreases v
  {
    match v
    case JNull => "null"
    case JBool(b) => if b then "true" else "false"
    case JNum(x) => NumberString(rt, x)
    case JStr(s) => s
    case JArr(items) =>
      // `Array.prototype.join`: null elements are written as empty strings.
      JoinComma(seq(|items|, i requires 0 <= i < |items| =>
        if items[i].JNull? then "" else JsString(rt, items[i])))
    case JObj(_) => "[object Object]"
  }

  /** `String(a ?? b)` with `b` already a string. */
  function StringOr(rt: Runtime, a: Option<Json>, b: string): string {
    if Nullish(a) then b else JsString(rt, a.value)
  }

  /** `String` of an integer number of magnitude at most 2^53 writes its
      exact decimal digits, so such station numbers read from JSON keep
      their digits. */
  lemma IntegerNumberString(rt: Runtime, n: int)
    requires -MaxExactInteger <= n <= MaxExactInteger
    ensures JsString(rt, JNum(n as real)) == IntToString(n)
  {
    assert (n as real).Floor == n;
  }

  /** An integer above 2^53 is not written digit by digit: 2^60 is left to
      the runtime, which writes the double's shortest digits. */
  lemma LargeIntegerLeftToRuntime(rt: Runtime)
    ensures JsString(rt, JNum(1152921504606846976.0)) == rt.numberText(1152921504606846976.0)
  {
    assert (1152921504606846976.0).Floor == 1152921504606846976;
  }

  // ---------------------------------------------------------------------
  // Candidate keys and year buckets
  // ---------------------------------------------------------------------

  const NonCandidatePrefixes: seq<string> := ["VOTERS", "NOTA", "PS_NO", "POLLED"]

  /** `isCandidateKey`: no non-candidate prefix starts the key. */
  predicate IsCandidateKey(key: string) {
    !(exists p :: p in NonCandidatePrefixes && StartsWith(key, p))
  }

  lemma IsCandidateKeyIff(key: string)
    ensures IsCandidateKey(key) <==>
      !StartsWith(key, "VOTERS") && !StartsWith(key, "NOTA") && !StartsWith(key, "PS_NO") && !StartsWith(key, "POLLED")
  {
    assert NonCandidatePrefixes == ["VOTERS", "NOTA", "PS_NO", "POLLED"];
    if !IsCandidateKey(key) {
      var p :| p in NonCandidatePrefixes && StartsWith(key, p);
      assert p == "VOTERS" || p == "NOTA" || p == "PS_NO" || p == "POLLED";
    }
  }

  const Suffix2021 := "_2021_pct"
  const Suffix2016 := "_2016_pct"
  const Suffix2011 := "_2011_pct"

  /** The year bucket of a field name, by the `else if` chain of suffix
      tests. */
  function YearSuffix(k: string): (r: Option<string>)
    ensures r.Some? ==> r.value in {Suffix2021, Suffix2016, Suffix2011} && EndsWith(k, r.value)
    ensures r.None? ==> !EndsWith(k, Suffix2021) && !EndsWith(k, Suffix2016) && !EndsWith(k, Suffix2011)
    ensures EndsWith(k, Suffix2021) ==> r == Some(Suffix2021)
    ensures EndsWith(k, Suffix2016) ==> r == Some(Suffix2016)
    ensures EndsWith(k, Suffix2011) ==> r == Some(Suffix2011)
  {
    if EndsWith(k, Suffix2021) then Some(Suffix2021)
    else if EndsWith(k, Suffix2016) then Some(Suffix2016)
    else if EndsWith(k, Suffix2011) then Some(Suffix2011)
    else None
  }

  /** The candidate name of a field of year bucket `suffix`: the field name
      with the first occurrence of the suffix removed. */
  function CandidateName(k: string, suffix: string): string {
    RemoveFirst(k, suffix)
  }

  /** When the suffix occurs only at the end, the candidate name is the part
      before it. */
  lemma CandidateNameOfPlainKey(name: string, suffix: string)
    requires IndexOf(name + suffix, suffix) == Some(|name|)
    ensures CandidateName(name + suffix, suffix) == name
  {
    var k := name + suffix;
    assert k[..|name|] == name;
    assert k[|name| + |suffix|..] == [];
  }

  /** A field named `k` feeds bucket `suffix` under candidate name `c`. */
  predicate Feeds(k: string, suffix: string, c: string) {
    YearSuffix(k) == Some(suffix) && CandidateName(k, suffix) == c && IsCandidateKey(c)
  }

  /** The `Object.keys(station).forEach` loop for one bucket, from `fields[0]`
      on, with the map so far in `acc`. */
  function CandidatesFrom(rt: Runtime, fields: seq<(string, Json)>, suffix: string,
                          acc: map<string, Float>): map<string, Float>
    decreases |fields|
  {
    if fields == [] then acc
    else
      var k := fields[0].0;
      var c := CandidateName(k, suffix);
      var acc' := if Feeds(k, suffix, c) then acc[c := ParseNumeric(rt, Some(fields[0].1))] else acc;
      CandidatesFrom(rt, fields[1..], suffix, acc')
  }

  /** The position of the last field feeding bucket `suffix` under name `c`. */
  function LastFeed(fields: seq<(string, Json)>, suffix: string, c: string): (r: Option<nat>)
    ensures r.Some? ==> r.value < |fields| && Feeds(fields[r.value].0, suffix, c)
    ensures r.Some? ==> forall j :: r.value < j < |fields| ==> !Feeds(fields[j].0, suffix, c)
    ensures r.None? ==> forall j :: 0 <= j < |fields| ==> !Feeds(fields[j].0, suffix, c)
    decreases |fields|
  {
    if fields == [] then None
    else
      var rest := LastFeed(fields[1..], suffix, c);
      assert forall j :: 0 < j < |fields| ==> fields[j] == fields[1..][j - 1];
      if rest.Some? then Some(rest.value + 1)
      else if Feeds(fields[0].0, suffix, c) then Some(0) else None
  }

  /** A name is in the bucket exactly when some field feeds it or it was
      already there, and every name in the bucket is a candidate key. */
  lemma {:induction false} CandidatesKeys(rt: Runtime, fields: seq<(string, Json)>, suffix: string,
                                          acc: map<string, Float>)
    requires forall c :: c in acc ==> IsCandidateKey(c)
    ensures var m := CandidatesFrom(rt, fields, suffix, acc);
      && (forall c :: c in m ==> IsCandidateKey(c))
      && (forall c :: c in m <==> LastFeed(fields, suffix, c).Some? || c in acc)
    decreases |fields|
  {
    if fields != [] {
      var k := fields[0].0;
      var c0 := CandidateName(k, suffix);
      var acc' := if Feeds(k, suffix, c0) then acc[c0 := ParseNumeric(rt, Some(fields[0].1))] else acc;
      CandidatesKeys(rt, fields[1..], suffix, acc');
    }
  }

  /** Last write wins: a fed name holds the value of the last field feeding
      it, and any other name keeps its earlier value. */
  lemma {:induction false} CandidatesValues(rt: Runtime, fields: seq<(string, Json)>, suffix: string,
                                            acc: map<string, Float>, c: string)
    requires LastFeed(fields, suffix, c).Some? || c in acc
    ensures var m := CandidatesFrom(rt, fields, suffix, acc);
      && c in m
      && m[c] == (if LastFeed(fields, suffix, c).Some?
                  then ParseNumeric(rt, Some(fields[LastFeed(fields, suffix, c).value].1)) else acc[c])
    decreases |fields|
  {
    if fields != [] {
      var k := fields[0].0;
      var c0 := CandidateName(k, suffix);
      var acc' := if Feeds(k, suffix, c0) then acc[c0 := ParseNumeric(rt, Some(fields[0].1))] else acc;
      var rest := LastFeed(fields[1..], suffix, c);
      assert CandidatesFrom(rt, fields, suffix, acc) == CandidatesFrom(rt, fields[1..], suffix, acc');
      if rest.Some? {
        assert LastFeed(fields, suffix, c) == Some(rest.value + 1);
        assert fields[rest.value + 1] == fields[1..][rest.value];
      } else if Feeds(k, suffix, c) {
        assert LastFeed(fields, suffix, c) == Some(0);
        assert c == c0 && acc'[c] == ParseNumeric(rt, Some(fields[0].1));
      } else {
        assert LastFeed(fields, suffix, c).None?;
        assert c in acc' && acc'[c] == acc[c];
      }
      CandidatesValues(rt, fields[1..], suffix, acc', c);
    }
  }

  // ---------------------------------------------------------------------
  // Stations
  // ---------------------------------------------------------------------

  datatype LocalElection = LocalElection(year: int, totalVotes: Float, candidates: map<string, Float>)

  datatype Station = Station(
    id: string, acId: string, acName: string, psNo: string, psName: string, locality: string,
    latitude: Float, longitude: Float, category: string, strongestParty: string,
    election2021: LocalElection, election2016: LocalElection, election2011: LocalElection)

  function YearElection(rt: Runtime, station: JsObject, year: int, suffix: string, polled: string): LocalElection {
    LocalElection(year, ParseNumeric(rt, Field(station, polled)), CandidatesFrom(rt, station, suffix, map[]))
  }

  /** One year's record of a station: the total is `parseNumeric` of the
      year's POLLED field, and the candidates are the names fed by fields of
      the year's suffix, each with the value of the last such field. A field
      of another year, or with no year suffix, feeds nothing. */
  lemma YearElectionSpec(rt: Runtime, station: JsObject, year: int, suffix: string, polled: string, c: string)
    requires suffix in {Suffix2021, Suffix2016, Suffix2011}
    ensures var e := YearElection(rt, station, year, suffix, polled);
      && e.year == year
      && e.totalVotes == ParseNumeric(rt, Field(station, polled))
      && (c in e.candidates <==> exists j :: 0 <= j < |station| && Feeds(station[j].0, suffix, c))
      && (c in e.candidates ==> IsCandidateKey(c))
      && (c in e.candidates ==> e.candidates[c] == ParseNumeric(rt, Some(station[LastFeed(station, suffix, c).value].1)))
  {
    var none: map<string, Float> := map[];
    CandidatesKeys(rt, station, suffix, none);
    if LastFeed(station, suffix, c).Some? {
      CandidatesValues(rt, station, suffix, none, c);
    }
  }

  /** A field lands in the bucket of the year suffix it ends with and in no
      other. */
  lemma FeedsOwnYearOnly(k: string, suffix: string, other: string, c: string)
    requires suffix in {Suffix2021, Suffix2016, Suffix2011} && EndsWith(k, suffix)
    requires Feeds(k, other, c)
    ensures other == suffix
  {
  }

  /** One entry of an assembly's array, at position `index`. */
  function StationOf(rt: Runtime, acId: string, station: JsObject, index: nat): (s: Station)
    ensures s.acId == acId
    ensures s.id == acId + "_" +
      (if JsTruthy(Field(station, "PS_NO_2021")) then JsString(rt, Field(station, "PS_NO_2021").value)
       else IntToString(index))
    ensures s.psNo == s.psName == StringOr(rt, Field(station, "PS_NO_2021"), IntToString(index))
    ensures s.acName == StringOr(rt, Field(station, "LOCALITY_EXTRACTED"), "AC " + acId)
    ensures s.locality == StringOr(rt, Field(station, "LOCALITY_EXTRACTED"), "")
    ensures s.latitude == ParseNumeric(rt, Field(station, "Latitude"))
    ensures s.longitude == ParseNumeric(rt, Field(station, "Longitude"))
    ensures s.category == StringOr(rt, Field(station, "TOP_SCORE_CATEGORY"), "")
    ensures s.strongestParty == StringOr(rt, Field(station, "TOP_SCORE_PARTY"), "")
    ensures s.election2021 == YearElection(rt, station, 2021, Suffix2021, "POLLED_2021")
    ensures s.election2016 == YearElection(rt, station, 2016, Suffix2016, "POLLED_2016")
    ensures s.election2011 == YearElection(rt, station, 2011, Suffix2011, "POLLED_2011")
  {
    var ps := Field(station, "PS_NO_2021");
    var loc := Field(station, "LOCALITY_EXTRACTED");
    Station(
      acId + "_" + (if JsTruthy(ps) then JsString(rt, ps.value) else IntToString(index)),
      acId,
      StringOr(rt, loc, "AC " + acId),
      StringOr(rt, ps, IntToString(index)),
      StringOr(rt, ps, IntToString(index)),
      StringOr(rt, loc, ""),
      ParseNumeric(rt, Field(station, "Latitude")),
      ParseNumeric(rt, Field(station, "Longitude")),
      StringOr(rt, Field(station, "TOP_SCORE_CATEGORY"), ""),
      StringOr(rt, Field(station, "TOP_SCORE_PARTY"), ""),
      YearElection(rt, station, 2021, Suffix2021, "POLLED_2021"),
      YearElection(rt, station, 2016, Suffix2016, "POLLED_2016"),
      YearElection(rt, station, 2011, Suffix2011, "POLLED_2011"))
  }

  /** `entries.map((station, index) => ...)`. */
  function StationsOf(rt: Runtime, acId: string, entries: seq<JsObject>): (ss: seq<Station>)
    ensures |ss| == |entries|
    ensures forall i :: 0 <= i < |entries| ==> ss[i] == StationOf(rt, acId, entries[i], i)
  {
    seq(|entries|, i requires 0 <= i < |entries| => StationOf(rt, acId, entries[i], i))
  }

  /** A station number of 0 or "" is falsy, so the id falls back to the entry
      index while the station number keeps the value itself. */
  lemma FalsyStationNumber(rt: Runtime, acId: string, station: JsObject, index: nat)
    requires Field(station, "PS_NO_2021") == Some(JNum(0.0)) || Field(station, "PS_NO_2021") == Some(JStr(""))
    ensures var s := StationOf(rt, acId, station, index);
      && s.id == acId + "_" + IntToString(index)
      && s.psNo == (if Field(station, "PS_NO_2021") == Some(JStr("")) then "" else "0")
  {
    FalsyText(rt, Field(station, "PS_NO_2021").value);
  }

  /** `0` and `""` are falsy but not nullish, and `String` renders them as
      "0" and "". */
  lemma FalsyText(rt: Runtime, v: Json)
    requires v == JNum(0.0) || v == JStr("")
    ensures !JsTruthy(Some(v)) && !Nullish(Some(v))
    ensures JsString(rt, v) == if v == JStr("") then "" else "0"
  {
    if v.JNum? {
      IntegerNumberString(rt, 0);
      assert IntToString(0) == "0";
    }
  }

  /** Without a station number both the id and the station number come from
      the entry index. */
  lemma MissingStationNumber(rt: Runtime, acId: string, station: JsObject, index: nat)
    requires Nullish(Field(station, "PS_NO_2021"))
    ensures var s := StationOf(rt, acId, station, index);
      s.id == acId + "_" + IntToString(index) && s.psNo == IntToString(index)
  {
  }

  // ---------------------------------------------------------------------
  // The whole document
  // ---------------------------------------------------------------------

  /** A top-level key that names an assembly's array. */
  predicate IsAssemblyKey(key: string) {
    StartsWith(key, "AC_") && EndsWith(key, "_FINAL")
  }

  /** `key.replace('AC_', '').replace('_FINAL', '')`. */
  function AssemblyId(key: string): string {
    RemoveFirst(RemoveFirst(key, "AC_"), "_FINAL")
  }

  /** `targetAssemblyId && acId !== targetAssemblyId`: a missing or empty
      target selects every assembly. */
  predicate Selected(target: Option<string>, acId: string) {
    target.None? || target.value == "" || acId == target.value
  }

  /** The stations one top-level entry contributes. */
  function Block(rt: Runtime, target: Option<string>, entry: (string, seq<JsObject>)): seq<Station> {
    if IsAssemblyKey(entry.0) && Selected(target, AssemblyId(entry.0))
    then StationsOf(rt, AssemblyId(entry.0), entry.1) else []
  }

  /** The key-by-key loop from `doc[0]` on: the stations of the selected
      assembly keys, in key order. */
  function ProcessFrom(rt: Runtime, target: Option<string>, doc: seq<(string, seq<JsObject>)>): seq<Station>
    decreases |doc|
  {
    if doc == [] then [] else Block(rt, target, doc[0]) + ProcessFrom(rt, target, doc[1..])
  }

  /** The parsed document: an object whose values are arrays of objects. */
  type Document = d: seq<(string, seq<JsObject>)> | NoDupKeys(d) witness []

  /** `processLocalPollingData(targetAssemblyId, jsonData)`. */
  function ProcessLocalPollingData(rt: Runtime, target: Option<string>, doc: Document): seq<Station> {
    ProcessFrom(rt, target, doc)
  }

  /** The number of entries of the selected assembly keys. */
  function SelectedEntries(target: Option<string>, doc: seq<(string, seq<JsObject>)>): nat
    decreases |doc|
  {
    if doc == [] then 0
    else
      (if IsAssemblyKey(doc[0].0) && Selected(target, AssemblyId(doc[0].0)) then |doc[0].1| else 0)
      + SelectedEntries(target, doc[1..])
  }

  /** The output has one station per entry of each selected key, and each
      station carries the assembly id of its key; the document is processed
      key by key, so splitting it splits the output. */
  lemma {:induction false} ProcessShape(rt: Runtime, target: Option<string>, doc: seq<(string, seq<JsObject>)>)
    ensures |ProcessFrom(rt, target, doc)| == SelectedEntries(target, doc)
    ensures forall s :: s in ProcessFrom(rt, target, doc) ==> Selected(target, s.acId)
    decreases |doc|
  {
    if doc != [] {
      ProcessShape(rt, target, doc[1..]);
    }
  }

  lemma {:induction false} ProcessAppend(rt: Runtime, target: Option<string>, a: seq<(string, seq<JsObject>)>,
                                         b: seq<(string, seq<JsObject>)>)
    ensures ProcessFrom(rt, target, a + b) == ProcessFrom(rt, target, a) + ProcessFrom(rt, target, b)
    decreases |a|
  {
    if a != [] {
      assert (a + b)[0] == a[0];
      assert (a + b)[1..] == a[1..] + b;
      ProcessAppend(rt, target, a[1..], b);
    } else {
      assert a + b == b;
    }
  }

  /** The stations of one assembly, in their order. */
  function FilterAssembly(ss: seq<Station>, acId: string): (r: seq<Station>)
    ensures forall s :: s in r <==> s in ss && s.acId == acId
  {
    if ss == [] then []
    else (if ss[0].acId == acId then [ss[0]] else []) + FilterAssembly(ss[1..], acId)
  }

  /** Each station of the assembly is kept as often as it occurs. */
  lemma {:induction false} FilterAssemblyCounts(ss: seq<Station>, acId: string, s: Station)
    ensures multiset(FilterAssembly(ss, acId))[s] == if s.acId == acId then multiset(ss)[s] else 0
    decreases |ss|
  {
    if ss != [] {
      FilterAssemblyCounts(ss[1..], acId, s);
      assert ss == [ss[0]] + ss[1..];
      assert multiset(ss) == multiset([ss[0]]) + multiset(ss[1..]);
    }
  }

  lemma {:induction false} FilterAppend(a: seq<Station>, b: seq<Station>, acId: string)
    ensures FilterAssembly(a + b, acId) == FilterAssembly(a, acId) + FilterAssembly(b, acId)
    decreases |a|
  {
    if a != [] {
      assert (a + b)[0] == a[0];
      assert (a + b)[1..] == a[1..] + b;
      FilterAppend(a[1..], b, acId);
    } else {
      assert a + b == b;
    }
  }

  /** A filter that keeps all or none of a block's stations. */
  lemma {:induction false} FilterBlock(ss: seq<Station>, acId: string, id: string)
    requires forall i :: 0 <= i < |ss| ==> ss[i].acId == id
    ensures FilterAssembly(ss, acId) == if id == acId then ss else []
    decreases |ss|
  {
    if ss != [] {
      FilterBlock(ss[1..], acId, id);
    }
  }

  /** Asking for one assembly gives the stations of all assemblies that carry
      its id, in the same order. */
  lemma {:induction false} TargetIsFilter(rt: Runtime, t: string, doc: seq<(string, seq<JsObject>)>)
    requires t != ""
    ensures ProcessFrom(rt, Some(t), doc) == FilterAssembly(ProcessFrom(rt, None, doc), t)
    decreases |doc|
  {
    if doc != [] {
      var key := doc[0].0;
      var all := if IsAssemblyKey(key) then StationsOf(rt, AssemblyId(key), doc[0].1) else [];
      TargetIsFilter(rt, t, doc[1..]);
      FilterAppend(all, ProcessFrom(rt, None, doc[1..]), t);
      FilterBlock(all, t, AssemblyId(key));
    }
  }

  /** An empty target is the same as none. */
  lemma {:induction false} EmptyTargetIsNone(rt: Runtime, doc: seq<(string, seq<JsObject>)>)
    ensures ProcessFrom(rt, Some(""), doc) == ProcessFrom(rt, None, doc)
    decreases |doc|
  {
    if doc != [] {
      EmptyTargetIsNone(rt, doc[1..]);
    }
  }

  /** A key that does not name an assembly contributes nothing. */
  lemma OtherKeysIgnored(rt: Runtime, target: Option<string>, key: string, entries: seq<JsObject>,
                         rest: seq<(string, seq<JsObject>)>)
    requires !IsAssemblyKey(key)
    ensures ProcessFrom(rt, target, [(key, entries)] + rest) == ProcessFrom(rt, target, rest)
  {
    assert ([(key, entries)] + rest)[1..] == rest;
  }

  /** `AC_<digits>_FINAL` names assembly `<digits>`. */
  lemma AssemblyIdOfKey(id: string)
    requires AllDigits(id)
    ensures IsAssemblyKey("AC_" + id + "_FINAL")
    ensures AssemblyId("AC_" + id + "_FINAL") == id
  {
    var key := "AC_" + id + "_FINAL";
    assert key[..3] == "AC_";
    assert key[|key| - 6..] == "_FINAL";
    RemovePrefixTag(id);
    RemoveSuffixTag(id);
  }

  /** The `AC_` at the front is the first occurrence. */
  lemma RemovePrefixTag(id: string)
    ensures RemoveFirst("AC_" + id + "_FINAL", "AC_") == id + "_FINAL"
  {
    var key := "AC_" + id + "_FINAL";
    assert key[0..3] == "AC_";
    assert FirstOccurrence(key, "AC_", 0);
    RemoveFirstAt(key, "AC_", 0);
    assert key[..0] + key[3..] == id + "_FINAL";
  }

  /** In digits followed by `_FINAL`, the tag occurs first after the digits. */
  lemma RemoveSuffixTag(id: string)
    requires AllDigits(id)
    ensures RemoveFirst(id + "_FINAL", "_FINAL") == id
  {
    var k := id + "_FINAL";
    forall j | 0 <= j < |id| ensures !OccursAt(k, "_FINAL", j) {
      assert k[j] == id[j];
    }
    assert k[|id|..|id| + 6] == "_FINAL";
    assert FirstOccurrence(k, "_FINAL", |id|);
    RemoveFirstAt(k, "_FINAL", |id|);
    assert k[..|id|] == id && k[|id| + 6..] == [];
  }
}
