# Election data ETL and local polling data, in Dafny

This project models two data-transformation cores of a polling-station
dashboard.

The first is `seed_elections.py`, the script that seeds the station
documents. It reads four workbook sheets, one per election year (2009,
2014, 2019 and 2024). From them it builds one canonical record per station
and year, `election_field`, holding the year, the total and the vote shares
of the parties.

- The three older sheets are read by one algorithm over three column
  layouts. The layouts share only the key cells: the year in cell 0, the
  assembly id in cell 4 and the station number in cell 11. Each year has its
  own party columns and its own way of finding the total. The records are
  keyed by `(ac_id, ps_no)`, and the three years are merged into one update
  per key.
- The 2024 sheet is a run of blocks: a marker row with the assembly's name,
  a header row, then station rows. Its assembly names are matched to
  assembly ids through a name map built from the stored documents. The
  match tries an exact lookup first, then the first containment match in
  map order.
- The writes are sent in batches of 400.

The second is `processLocalPollingData` of `utils/dataProcessing.ts`, in the
form that takes the JSON document as a parameter
(`components/RetroBoothsAnalysis.tsx`). It turns every `AC_<id>_FINAL` array
of the document into polling stations. Each station's per-year candidate
maps are built from its `<name>_<year>_pct` fields.

## Modules

- `wrappers.dfy`: `Option` and `Result`.
- `text.dfy`:
  - Python's `strip` and `upper`;
  - `startswith`, `endswith` and `in` on strings;
  - JavaScript's `replace` with a string pattern;
  - the decimal rendering of integers.
- `pyfloat.dfy`: Python floats (finite, NaN, ±inf) and `float()` on text,
  following Python's float literal grammar.
- `cells.dfy`: spreadsheet cells, Python truthiness, `si`, `sf` and `str()` of
  a cell.
- `dict.dfy`: Python's insertion-ordered `dict` as a list of pairs.
- `records.dfy`: `share`, `election_field`, and the fixed-column vote loop.
- `party.dfy`: `normalize_party`.
- `fixed_layout.dfy`: the 2009, 2014 and 2019 parsers. They are one algorithm
  over three layouts.
- `sheet2024.dfy`: `parse_sheet4_2024`.
- `merge.dfy`: the merge of the three keyed years, and document ids.
- `reconcile.dfy`: `build_ac_name_map`, name resolution, and the 2024 writes.
- `seed.dfy`: `seed` up to the writes, and the batch split.
- `local_polling.dfy`: `parseNumeric`, `isCandidateKey` and
  `processLocalPollingData`.

## Model

| member | source | states |
|---|---|---|
| Text.StripSpec | seed_elections.py:82 | `strip()` removes exactly the leading and trailing whitespace. The result is the middle slice of the input and neither starts nor ends with whitespace. |
| Text.StripIdempotent | seed_elections.py:82 | Stripping twice is stripping once. |
| Text.StripUpperCommute | seed_elections.py:82 | Upper-casing and stripping commute. |
| Text.UpperIsUpper | seed_elections.py:82 | The result of `upper()` has no lower-case letter left. |
| Text.ContainsIff | seed_elections.py:237 | `needle in hay` holds exactly when the needle occurs at some position. |
| Text.IndexOfFrom | utils/dataProcessing.ts:28 | The result is the first position at or after the start where the needle occurs, and `None` exactly when it occurs nowhere there. |
| Text.RemoveFirst | utils/dataProcessing.ts:28 | `replace(pat, '')` removes the first occurrence only. When the pattern first occurs at position i, the result is one pattern shorter: the text before i, then the text after that occurrence. With no occurrence the string is unchanged. |
| Text.StripEmptyIff | seed_elections.py:219 | `strip()` gives the empty string exactly when the text is all whitespace. |
| Text.NatToStringValue | seed_elections.py:114 | Reading the decimal rendering of a natural number back gives the number. |
| Text.IntToStringShape | seed_elections.py:114-116 | `str(int)` is never empty, has the shape "optional minus, then digits", and is "0" exactly for 0. So the `not ac_id` test never fires, and `ps_no == '0'` means `si` gave 0. |
| Text.IntToStringInjective | seed_elections.py:114-115 | Distinct integers have distinct renderings. |
| PyFloat.Trunc | seed_elections.py:63 | `int()` of a finite float truncates toward zero. |
| PyFloat.ParseSignedDigits | seed_elections.py:63 | `float()` reads an optionally signed run of digits as its decimal value. |
| PyFloat.ParseFloatOfIntString | seed_elections.py:63 | `float()` reads Python's rendering of any integer back as that integer. |
| PyFloat.SeparatorRejected | seed_elections.py:63 | `float()` strips a narrower whitespace set than `strip()`: a leading file separator (U+001C) is removed by `strip()` but makes `float()` reject the text. |
| Cells.SafeInt | seed_elections.py:60-64 | `si` gives 0 for `None`, for text `float()` rejects, and for NaN and the infinities. Otherwise it gives the value truncated toward zero. |
| Cells.SafeFloat | seed_elections.py:66-70 | `sf` gives `float(v)`, and 0.0 for `None` and for text `float()` rejects. |
| Cells.SafeIntThroughSafeFloat | seed_elections.py:60-70 | `si` is `int()` applied to what `sf` returns, with 0 where `int()` raises. |
| Cells.SafeIntOfIntText | seed_elections.py:60-64 | An integer cell, or text holding an integer's rendering, reads back as that integer. |
| Cells.SafeIntOfSeparatedText | seed_elections.py:60-64 | `si` of the text "7" preceded by a file separator is 0, because `float()` raises on it. |
| Dict.Get | seed_elections.py:381 | `d.get(k)` finds a value exactly when the key is present, and the found pair is an entry of the dict. |
| Dict.GetEntry | seed_elections.py:381 | In a dict without repeated keys, `get` of an entry's key gives that entry's value. |
| Dict.PutAllGet | seed_elections.py:282 | Assigning pairs one after another, the last assignment wins: each key holds the value of its last pair, a key no pair assigns keeps its value, keys stay distinct, and every entry is one of the pairs or was already there. |
| Dict.LastValueSpec | seed_elections.py:282 | The value of the last pair for a key exists exactly when some pair has that key. It is the value of a pair with that key, and no later pair has the key. |
| Dict.PutAllAppend | seed_elections.py:282 | Assigning two runs of pairs is assigning the first run, then the second. |
| Dict.Put | seed_elections.py:309 | `d[k] = v` makes `k` map to `v` and leaves every other key as it was. A new key is appended, a present key keeps its position, and keys stay distinct. Every entry afterwards is the new pair or an entry from before. |
| Records.Share | seed_elections.py:72-74 | `share(votes, total)` times `total` gives back `votes` when `total > 0`; it is 0 when `total <= 0`. |
| Records.ElectionField | seed_elections.py:76-78 | `election_field` copies the year and the total unchanged. Its candidates are exactly the parties with a non-empty label and a positive count, and each holds that party's `share` of the total. |
| Records.ColumnVotesSum | seed_elections.py:118-122 | The party-column loop keeps the dict free of repeated keys. The sum of its values grows by every column's count, zero or not, so skipping zero counts does not change the total. |
| Records.ColumnVotesEntries | seed_elections.py:118-122 | The loop adds exactly the labels whose column holds a nonzero count, each with that count, and leaves other labels alone. |
| Party.NormalizeParty | seed_elections.py:80-97 | The result has no surrounding whitespace and no lower-case letter. A label that is not in the alias table comes back stripped and upper-cased; a label that is in it gives a canonical party token. |
| Party.NormalizeIdempotent | seed_elections.py:80-97 | Normalizing twice is normalizing once, because every alias target is a fixed point. |
| Party.CanonicalFixed | seed_elections.py:84-97 | Each canonical token normalizes to itself. |
| Party.TrailingSpaceAliasUnreachable | seed_elections.py:84 | The `"JANASENA "` alias key can never be looked up, because the lookup key has been stripped. |
| Party.KnownAliases | seed_elections.py:84-97 | "JSP" and "JANA SENA" give JANASENA, "CONGRESS" gives INC and "B.S.P" gives BSP, whatever their case and surrounding whitespace. An unknown label such as BJP passes through. |
| FixedLayout.OthersSumIsRangeSum | seed_elections.py:124-128 | The 2009 `others` loop, which skips zero counts, equals the plain sum of the counts of columns 18 to 29 that the row has. |
| FixedLayout.ParseRow | seed_elections.py:111-132 | A data row raises exactly when it is empty, or when it is a row of the sheet's year too short to have cell 11. It emits exactly when cell 0 is truthy with `si` equal to the year, `si` of cell 11 is nonzero, and the total is nonzero. An emitted row is keyed by the renderings of cells 4 and 11 and holds `election_field` of its votes and total. |
| FixedLayout.Outcomes | seed_elections.py:111-132 | Every emitted record is of the layout's year with a nonzero total, under a key of integer renderings whose station number is not "0". |
| FixedLayout.RunFromFailure | seed_elections.py:111-132 | The row loop stops with an error exactly when some remaining row raises, and then at the first such row. |
| FixedLayout.RunFromLastWriteWins | seed_elections.py:132 | A key is in the result exactly when some row assigns it, and it holds the record of the last such row. |
| FixedLayout.SheetLastWriteWins | seed_elections.py:111-135 | At sheet level, the header row is skipped. The parse fails exactly when a data row raises, and reports the first one. Otherwise the result holds exactly the keys some data row emits, each with the record of the last such row. |
| FixedLayout.Named2009 | seed_elections.py:118-122 | The six named 2009 columns give exactly the labels with nonzero counts, never OTHERS, and sum to the columns' total. |
| FixedLayout.Total2009 | seed_elections.py:118-130 | The 2009 total is the six named columns' counts plus the counts of columns 18 to 29. |
| FixedLayout.Keys2009 | seed_elections.py:124-128 | The 2009 votes hold OTHERS exactly when the residual columns sum to a nonzero count. |
| FixedLayout.Total2014 | seed_elections.py:161 | The 2014 total is `si` of cell 19 when that cell is truthy, even when it reads as 0; otherwise it is the sum of the seven party columns. |
| FixedLayout.Total2019 | seed_elections.py:192 | The 2019 total is always the sum of the seven party columns. |
| FixedLayout.ZeroAssemblyAccepted | seed_elections.py:114-116 | A row with assembly id 0 is accepted under the key part "0". |
| FixedLayout.Example2009Row | seed_elections.py:101-132 | A 2009 row of assembly 108, station 1 with PRP 100, INC 50, IND 0 and TDP 200 gives a total of 350 and shares 2/7, 1/7 and 4/7. IND is left out. |
| Sheet2024.LastMentionSpec | seed_elections.py:235-243 | The NOTA and total column searches return the last header that mentions the word, and `None` exactly when none does. |
| Sheet2024.PartyColsFromKeepsNone | seed_elections.py:246-252 | Because the skip terms include the empty string, no header is ever kept as a party column. |
| Sheet2024.HeaderShape | seed_elections.py:230-252 | A block's header has no party columns, and its NOTA and total columns are the last headers mentioning those words. |
| Sheet2024.StationTotalOfHeader | seed_elections.py:264-278 | Under a block's header, which never has party columns, the total is `si` of the total cell when the total column is not column 0 and lies within the row, even when that reads as 0. Otherwise it is `si` of the NOTA cell when that column lies within the row, and 0 when it does not. |
| Sheet2024.StationRow | seed_elections.py:263-283 | A station row is kept exactly when cell 1 holds a number and the total is nonzero. It is then keyed by the rendering of `si(cell 1)` and holds the 2024 record. |
| Sheet2024.StationRowValid | seed_elections.py:268-282 | A kept station's record is for 2024, has a nonzero total, and names only the party columns' labels and NOTA. |
| Sheet2024.StationOnlyNota | seed_elections.py:246-276 | Under a real header, a station's candidates hold at most NOTA. |
| Sheet2024.ScanBlock | seed_elections.py:256-283 | The station loop stops at the end of the sheet or at the next marker, which it does not consume, and every row it passes is a non-empty non-marker. It raises exactly when an empty row comes before any marker, and then at the first empty row. |
| Sheet2024.BlockEnd | seed_elections.py:256-262 | The loop's stopping row is the first marker from the start row on, or the end of the sheet, when no empty row comes first. Otherwise the loop raises at the first empty row, before any marker. |
| Sheet2024.StationsArePuts | seed_elections.py:256-283 | The station loop assigns `booths[ps_no]` for each kept station row, in row order, and nothing else. |
| Sheet2024.StationsLastWins | seed_elections.py:256-283 | Within a block, a later row with the same station number overwrites an earlier one: each number holds the record of its last station row, and a number no row carries is absent. |
| Sheet2024.ScanBlockValid | seed_elections.py:255-283 | A block's stations are keyed once each and are all valid records. |
| Sheet2024.ScanBlocksSpec | seed_elections.py:215-288 | The scan raises exactly when some row is faulty, and then at the first faulty row. A faulty row is an empty row that is not taken as a block's header. Otherwise the scan returns exactly the blocks the markers lay out, in sheet order: a marker, the header row after it, and the station rows up to the next marker. Blocks without a station are dropped. |
| Sheet2024.Parse2024LastBlockWins | seed_elections.py:215-288 | The sheet raises exactly when it has a faulty row, and then at the first one. Otherwise each assembly name maps to the stations of the last block the markers lay out under that name, so a later block replaces an earlier one wholesale. No name appears twice and no stored block is empty. |
| Sheet2024.ZeroTotalBlockLeavesNoEntry | seed_elections.py:278-286 | A block whose only station has a total of 0 leaves no entry at all, whatever its header row holds. |
| Merge.UpdateFor | seed_elections.py:351-357 | A key's update holds `electionYYYY` exactly for the years that have the key, with that year's record, and no other field. |
| Merge.MergeUpdates | seed_elections.py:328-360 | The merged keys are the union of the three years' keys. Each update holds `electionYYYY` exactly for the years that have the key, with that year's record, and no other field. So no update is empty and the `if not update` branch is never taken. |
| Merge.DocIdInjective | seed_elections.py:348 | Keys whose assembly ids are integer renderings get distinct `"{ac_id}-{ps_no}"` document ids. |
| Merge.MergedDocIdsDistinct | seed_elections.py:347-363 | Distinct merged keys write distinct documents, so the order of the writes does not change what is stored. |
| Reconcile.BuildNameMapSpec | seed_elections.py:304-309 | The name map holds, for every upper-cased name some document contributes with a non-empty id, the id of the last such document. It holds no other name, no empty name or id, and no name twice. |
| Reconcile.NameMapOfSpec | seed_elections.py:297-313 | The same, starting from the empty map. |
| Reconcile.FirstOverlap | seed_elections.py:384-387 | The partial match is the first entry in map order whose name contains, or is contained in, the assembly name. |
| Reconcile.Resolve | seed_elections.py:381-387 | A resolved id is never empty. On a well-formed map, a name resolves exactly when it is a key or overlaps some key, and a key resolves to its own id even when an earlier entry overlaps it. A name that is not a key resolves to the id of the first entry in map order that overlaps it. |
| Reconcile.ExactBeforeOverlap | seed_elections.py:381-387 | With entries "VIJAYAWADA WEST" then "VIJAYAWADA", the name "VIJAYAWADA" resolves to its own id although the first entry overlaps it. |
| Reconcile.BlockWrites | seed_elections.py:393-396 | A matched block writes each station's record under `"{ac_id}-{ps_no}"`, in the block's order. Distinct station numbers give distinct document ids. |
| Reconcile.Upload2024Spec | seed_elections.py:380-396 | The unmatched names are exactly the unresolved blocks' names, and none of their stations are written. The writes are exactly the stations of resolved blocks under the resolved id, one write per station. |
| Reconcile.Upload2024InOrder | seed_elections.py:380-396 | The blocks are uploaded one after the other in sheet order: uploading two runs of blocks gives the first run's writes then the second's, and the first run's unmatched names then the second's. So `unmatched_asms` keeps the sheet order, and when two blocks resolve to the same document the later write is the last one sent. |
| Reconcile.Upload2024Single | seed_elections.py:381-396 | One block alone writes its stations under its resolved id, in the block's order, or, when its name does not resolve, only adds its name to the unmatched list. |
| Seed.SeedPlan | seed_elections.py:321-328 | The sheets are parsed in the order 2009, 2014, 2019, 2024, and the first that raises ends the run. On success the updates are the merge of the three keyed years. |
| Seed.SeedPlanSpec | seed_elections.py:328-396 | A successful run sends one non-empty update per key of the union of the three years. Its unmatched names are the unresolved 2024 blocks. It writes one 2024 record per station of a resolved block. |
| Seed.CommitSizes | seed_elections.py:334-369 | The commits of a phase add up to its writes. Every commit has between 1 and 400 writes, all but the last have exactly 400, and there are ceil(n / 400) of them. |
| Seed.TotalWritten | seed_elections.py:334-401 | `total_written` is the number of merged updates plus the number of 2024 writes, each phase committed in batches of at most 400. |
| LocalPolling.ParseNumeric | utils/dataProcessing.ts:8-15 | A number is returned as it is. A string gives `parseFloat` of it, or 0 when that is NaN. Anything else, `undefined` included, gives 0. The result is never NaN. |
| LocalPolling.IsCandidateKeyIff | utils/dataProcessing.ts:18-20 | A key is a candidate key exactly when it starts with none of VOTERS, NOTA, PS_NO and POLLED. |
| LocalPolling.YearSuffix | utils/dataProcessing.ts:40-55 | A field goes to the bucket of the year suffix it ends with, and to no bucket when it ends with none. |
| LocalPolling.FeedsOwnYearOnly | utils/dataProcessing.ts:40-55 | A field ending with one year's suffix never feeds another year's map. |
| LocalPolling.CandidateNameOfPlainKey | utils/dataProcessing.ts:41 | When the suffix occurs only at the end of a field name, the candidate name is the part before it. |
| LocalPolling.CandidatesKeys | utils/dataProcessing.ts:39-56 | A year's map holds exactly the names some field of that year feeds, and only candidate keys. |
| LocalPolling.CandidatesValues | utils/dataProcessing.ts:39-56 | A name holds the value of the last field feeding it (last write wins). |
| LocalPolling.YearElectionSpec | utils/dataProcessing.ts:69-71 | A year's record has its year and `parseNumeric(POLLED_<year>)` as total. Its candidates are exactly the names the year's fields feed, each a candidate key with the value of its last field. |
| LocalPolling.IntegerNumberString | utils/dataProcessing.ts:59 | `String()` of an integral number of magnitude at most 2^53 (9007199254740992) is its plain decimal rendering, so such station numbers keep their digits. |
| LocalPolling.LargeIntegerLeftToRuntime | utils/dataProcessing.ts:59 | `String()` of 2^60 is not its exact decimal: above 2^53 the digits are the runtime's rendering of the double. |
| LocalPolling.StationOf | utils/dataProcessing.ts:58-72 | The id is `acId + "_" + (PS_NO_2021 \|\| index)`. `ps_no` and `ps_name` are `String(PS_NO_2021 ?? index)`. `ac_name` is `LOCALITY_EXTRACTED ?? "AC " + acId`, and `locality`, `category` and `strongestParty` fall back to "". Latitude and longitude go through `parseNumeric`. The 2021, 2016 and 2011 records are built from the `_2021_pct`, `_2016_pct` and `_2011_pct` fields with totals `POLLED_2021`, `POLLED_2016` and `POLLED_2011`. |
| LocalPolling.FalsyStationNumber | utils/dataProcessing.ts:59-63 | A station number of 0 or "" gives an id built from the index, while `ps_no` is "0" or "". |
| LocalPolling.MissingStationNumber | utils/dataProcessing.ts:59-63 | Without a station number, both the id and `ps_no` come from the index. |
| LocalPolling.ProcessShape | utils/dataProcessing.ts:26-76 | The output has one station per entry of each selected `AC_..._FINAL` key, and every station belongs to a selected assembly. |
| LocalPolling.ProcessAppend | utils/dataProcessing.ts:74 | The keys are processed one by one: splitting the document splits the output. |
| LocalPolling.TargetIsFilter | utils/dataProcessing.ts:31 | Asking for a non-empty assembly id gives exactly the stations of that id from the output for all assemblies, in the same order. |
| LocalPolling.EmptyTargetIsNone | utils/dataProcessing.ts:31 | An empty target selects every assembly, like a null one. |
| LocalPolling.OtherKeysIgnored | utils/dataProcessing.ts:27 | A top-level key that does not start with `AC_` and end with `_FINAL` contributes nothing. |
| LocalPolling.AssemblyIdOfKey | utils/dataProcessing.ts:27-28 | `AC_<digits>_FINAL` is an assembly key, and its assembly id is `<digits>`. |
| LocalPolling.FilterAssembly | components/RetroBoothsAnalysis.tsx:118 | Filtering keeps exactly the stations of the given assembly. |
| LocalPolling.FilterAssemblyCounts | components/RetroBoothsAnalysis.tsx:118 | Each station of the assembly is kept as many times as it occurs, and any other station not at all. |
| LocalPolling.FilterAppend | components/RetroBoothsAnalysis.tsx:118 | Filtering a concatenation concatenates the filtered parts, so the stations keep their order. |

## Left out

- Firestore: the connection, the document stream, `batch.set`, `commit`, the console output and the JSON backup file are I/O. The writes are returned as data instead: the merged updates, the 2024 writes and the unmatched names.
- `build_ac_name_map` reads the documents as `(ac_id, ac_name)` pairs already rendered with `str()`. Its `try`/`except` around the stream is I/O.
- openpyxl: each sheet is given as a list of rows of cells (`None`, int, float or str). Boolean and date cells are not modelled.
- Workbook sheets missing from the file (a `KeyError` on `wb[...]`) are not modelled.
- The order in which the merged updates are sent (`sorted(all_keys)`) is not modelled. `MergedDocIdsDistinct` shows that distinct keys write distinct documents, so the order does not change what is stored.
- Records.Share: the `round(..., 6)` of `share` is not modelled, and shares are exact rationals. No bound to [0, 1] is claimed: a 2014 declared total can be smaller than the party sum.
- PyFloat: floats are exact values. Double-precision rounding, and overflow of huge literals to infinity, are not modelled. Non-ASCII digits in `float()` are not modelled either.
- Text.Upper: only ASCII letters are upper-cased; Python's full Unicode case mapping is not modelled.
- Cells.FloatRepr: `str()` of a float is modelled only in positional notation with up to 17 fraction digits, not Python's shortest round-trip form or its exponent notation. It only matters for a header cell that holds a float.
- LocalPolling.ParseNumeric: JavaScript's `parseFloat` on strings is a parameter of the model (`Runtime.parseFloat`), not its prefix grammar.
- LocalPolling.NumberString: `String()` of a number that is not an integer of magnitude at most 2^53 is a parameter of the model (`Runtime.numberText`). Above 2^53 JavaScript writes the shortest digits that round-trip to the double (`String(2**60)` is "1152921504606847000"), which the model does not spell out.
- LocalPolling.ParseNumeric: JSON numbers are exact reals (`JNum`), not doubles. The rounding JavaScript applies when it reads a JSON number is not modelled, so `parseNumeric` of a number returns the exact value written in the document.
- JSON numbers are finite, so the NaN test of `parseNumeric` on numbers never fires.
- Array entries of the JSON document are taken to be objects, as the source's type cast declares.
- `Object.keys` order is the order of the given field list. The keys involved (`AC_..._FINAL`, `..._pct`) are never integer-like, so JavaScript's rule of listing integer-like keys first does not apply to them.
- The module-level `processLocalPollingData(targetAssemblyId)` of utils/dataProcessing.ts reads a bundled JSON import. It is modelled through the copy that takes the document as a parameter; the two bodies are the same.
- The React components and pages, the float statistics, and the data-rewriting scripts are outside this model.
