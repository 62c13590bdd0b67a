# Chicago food inspections ETL, modelled in Dafny

This project models the record-transformation core of the Chicago food
inspections ETL. The ETL pages the city's inspection dataset out of a
Socrata endpoint and loads a MySQL operational schema (`risk`, `result`,
`violation`, `establishment`, `inspection`, `inspection_violation`). It then
fills the warehouse fact table `fact_inspection` from that schema. The same
code appears in `food-inspections.py` and in `scripts/food-inspections.py`
(line for line, 6 lines earlier). The paging loop `inputData` also appears in
`main.py`. One model serves all three, and the table below cites
`food-inspections.py` and `main.py`.

Modules, one per stage of the pipeline:

- `Wrappers`: `Option`, which stands for a missing value (pandas `NaN`, SQL
  `NULL`).
- `Collections`: `list(set(...))` deduplication (`Distinct`, `DistinctMap`),
  and concatenation of pages.
- `Strings`: Python's `in`, `str.split` with and without `n=1`, `str.replace`
  and slicing.
- `Records`: the raw inspection record and `str()` of a possibly-missing cell.
- `Paginator`: `inputData`, an imperative loop over pages of a remote dataset.
  The endpoint is a function from the filter clause to the ordered rows it
  serves.
- `Risks`: risk tiering and the `risk` rows.
- `Results`: result normalisation, the `result` rows, and the result key
  rebuilt for the merge.
- `Violations`: splitting violation blobs into `inspection_violation` entries,
  and the distinct violation texts.
- `Address`: `reverseTuple` and `extractAddress`. The `usaddress` parser's
  output (tagged tokens, or failure) is an input.
- `Establishments`: coordinate cleaning, full-address assembly and
  establishment tuples.
- `Linking`: `datetrans`, the three left merges that give an inspection its
  ids, and the inner merge that gives violation entries their ids.
- `Facts`: the `fact_inspection` SELECT, with its joins and 0/1 flags.

Where the code does something other than its comments and column names
suggest, the model follows the code:

- Violation text and comment are not trimmed. The code splits but never strips.
- Components produced by `extractAddress` can still contain `"nan"`, because
  the removal is a single pass.
- The condition marker the code tests is the misspelt `"w/ Condititions"`
  (see Findings).
- The paging loop stops on the first page whose size differs from the limit.
  It does not test for "strictly fewer".

## Model

| member | source | states |
|---|---|---|
| Records.PyStr | food-inspections.py:170 | the text is `"nan"` exactly when the cell is missing or holds the text "nan", which is the test the `!= "nan"` filter relies on |
| Collections.Distinct | food-inspections.py:169 | `list(set(s))`: no duplicates, and an element is in the result iff it is in `s` |
| Collections.DistinctMap | food-inspections.py:382-383 | `list(set(f(x) for x in xs))`: no duplicates; every image is present; every element is an image |
| Strings.SplitOnce | food-inspections.py:244 | `split(sep, n=1)`: no separator gives the whole text and a missing tail; otherwise head + sep + tail is the text and the head ends at the first occurrence |
| Strings.SplitJoin | food-inspections.py:239 | joining the pieces of `split(sep)` with `sep` gives back the text |
| Strings.SplitPiecesFree | food-inspections.py:239 | no piece of `split(sep)` contains `sep` |
| Strings.ReplaceIsJoinOfSplit | food-inspections.py:336 | `str.replace(pat, rep)` equals joining `split(pat)` with `rep` |
| Strings.Prefix | food-inspections.py:402 | `x[:n]`: the first `min(n, len(x))` characters of `x` |
| Paginator.StartFilter | main.py:49-52 | the filter is empty iff the start date is empty; otherwise it is `&$where=inspection_date` + condition + quoted date |
| Paginator.Page | main.py:59-62 | the page at an offset holds `min(limit, rows left)` rows; it is the slice at the offset, and empty past the end |
| Paginator.Pages | main.py:57-65 | the pages the loop requests: at least one, and the first is the page at the start offset |
| Paginator.Offsets | main.py:59-63 | the k-th of the first n requests is at `offset + k*limit` |
| Paginator.InputData | main.py:34-68 | the loop returns the concatenation of exactly the pages it requested, in request order; the k-th request uses offset `offset + k*limit` (same loop at food-inspections.py:48-82) |
| Paginator.PagesCoverRest | main.py:57-64 | the pages concatenate to every row from the start offset on: nothing lost, nothing repeated |
| Paginator.RequestCount | main.py:57-63 | the number of requests is `rows left / limit + 1` |
| Paginator.PageShape | main.py:57-63 | the k-th page starts at `offset + k*limit`; every page but the last is full and the last is not |
| Paginator.ExactMultipleEndsEmpty | main.py:57-63 | when the rows left are an exact multiple `m` of the limit, there are `m + 1` requests and the last is empty |
| Paginator.ZeroLimitNeverStops | main.py:46-57 | with limit 0 every page has 0 rows, equal to the limit, so the loop condition stays true |
| Paginator.ThreePages | main.py:57-64 | 130 rows at limit 50 give 3 requests of 50, 50 and 30 rows that concatenate to the data |
| Risks.Tier | food-inspections.py:174-182 | the tier is 1..4: digit `t` occurs in the text for `t < 4`, and no smaller digit occurs |
| Risks.EarlierDigitWins | food-inspections.py:174-177 | a text holding both "1" and "3" is tier 1 |
| Risks.TierExamples | food-inspections.py:174-182 | the four dataset texts, "Risk 1 (High)" to "All", get tiers 1 to 4 |
| Risks.HighTier | food-inspections.py:174-175 | "Risk 1 (High)" is tier 1 |
| Risks.MediumTier | food-inspections.py:176-177 | "Risk 2 (Medium)" is tier 2 |
| Risks.LowTier | food-inspections.py:178-179 | "Risk 3 (Low)" is tier 3 |
| Risks.AllTier | food-inspections.py:180-181 | "All", with no digit, is tier 4 |
| Risks.DropNaN | food-inspections.py:170 | keeps exactly the cells whose string form is not `"nan"`, and keeps them distinct |
| Risks.RiskValues | food-inspections.py:169-170 | distinct risk texts, and a text is present iff it occurs in the column and is not `"nan"` |
| Risks.RiskRecords | food-inspections.py:169-185 | one row per distinct risk text, each paired with its own tier, no text twice, and exactly the non-`"nan"` texts of the column |
| Results.NormalizeResult | food-inspections.py:205-215 | the flag is set iff the raw text contains the marker; text containing "Pass" becomes exactly "Pass", other text is kept verbatim |
| Results.NormalizeIdempotent | food-inspections.py:212-215 | normalising a normalised result text changes nothing |
| Results.ResultRecords | food-inspections.py:201-218 | the rows are duplicate-free; every raw result's normalisation is a row, and every row is the normalisation of some raw result |
| Results.NormalizeExamples | food-inspections.py:212-215 | "Fail" stays ("Fail", false); "Pass" becomes ("Pass", false) |
| Results.ConditionalPassLosesFlag | food-inspections.py:207-208 | with the literal as written, "Pass w/ Conditions" gives ("Pass", false), whose key is "Pass"; with the intended marker it gives ("Pass", true) |
| Results.ResultKeyAsWritten | food-inspections.py:412 | a flagged row raises (no key); an unflagged row's key is its result text |
| Results.ConditionalPassBreaksKeyRebuild | food-inspections.py:412 | once the flag can be set, the key rebuild as written fails on "Pass w/ Conditions" |
| Results.ResultKey | food-inspections.py:412 | the key is the result text, followed by " w/ Conditions" exactly when the flag is set |
| Results.KeyRoundTrip | food-inspections.py:412 | for every raw result the normalisation keeps apart, rebuilding the key from its row gives the raw text back |
| Violations.SplitPiece | food-inspections.py:243-249 | no ". " gives no violation and no comment; otherwise the text after the first ". " is the violation followed by (marker + comment) when the marker occurs, and the violation stops at the marker's first occurrence |
| Violations.EntriesOf | food-inspections.py:235-254 | a missing blob gives no entries; otherwise one entry per `|`-piece, in order, each carrying the record's inspection id and its piece's split |
| Violations.RowsAppend | food-inspections.py:239-241 | the entries of two record lists are the entries of each, concatenated |
| Violations.RowsFromBlobs | food-inspections.py:235-241 | every entry's inspection id belongs to a record with a violation blob |
| Violations.ViolationTexts | food-inspections.py:256-258 | the distinct violation texts of the entries, no more and no fewer |
| Violations.SplitTwo | food-inspections.py:239 | a blob of two pieces free of `|` splits into exactly those pieces |
| Violations.PieceExample | food-inspections.py:243-249 | number + ". " + text + "- Comments:" + comment splits into that text and comment, untrimmed |
| Violations.TwoPieceBlob | food-inspections.py:235-254 | a two-piece blob gives exactly two entries, in order, with untrimmed texts and comments |
| Address.ReverseTwice | food-inspections.py:275-276 | swapping twice gives the pair back |
| Address.LabelMap | food-inspections.py:284 | the dictionary's keys are exactly the labels that occur |
| Address.LastTokenWins | food-inspections.py:284 | a label is a key iff it occurs, and its value is the token of its last occurrence |
| Address.StreetAssembly | food-inspections.py:299-306 | name, post type and occupancy joined by spaces when all three are present; else name and post type; else the name; else "" |
| Address.ComponentsFromTokens | food-inspections.py:287-324 | number, direction, city, state and zip are the last token with their label, or "" |
| Address.EmptyParseIsBlank | food-inspections.py:286-343 | a parse with no tokens gives six empty components |
| Address.RemoveNaN | food-inspections.py:336-341 | `replace('nan', '')` never lengthens a component and leaves one without "nan" unchanged |
| Address.RemoveUnchanged | food-inspections.py:336-341 | text without "nan" is unchanged by the removal |
| Address.ExtractAddress | food-inspections.py:279-343 | a failed parse gives six empty components; otherwise each component is its raw value with "nan" removed |
| Address.SinglePassRemoval | food-inspections.py:336-341 | "nnanan" becomes "nan", so a city token "nnanan" comes out as "nan" |
| Establishments.CleanCoordinate | food-inspections.py:375-376 | zero or missing becomes missing; any other value is kept |
| Establishments.CleanCoordinates | food-inspections.py:375-376 | same length and order, with the per-element rule above |
| Establishments.FullAddress | food-inspections.py:366 | address + city + " " + state + " " + zip, with no separator between address and city |
| Establishments.MissingZipIsNaN | food-inspections.py:350-366 | a record with no address, city, state or zip gives the full address "  nan" |
| Establishments.EstablishmentOf | food-inspections.py:349-383 | the tuple has the filled names and facility type, the parsed address of the full address, and the cleaned coordinates, never zero |
| Establishments.EstablishmentRecords | food-inspections.py:375-383 | the establishment tuples, duplicate-free, one for every record and none from elsewhere, with no zero coordinate |
| Linking.DateTrans | food-inspections.py:401-402 | the first ten characters, or the whole text when it is shorter |
| Linking.DateTransIdempotent | food-inspections.py:401-402 | truncating a truncated date changes nothing |
| Linking.LookupEstablishment | food-inspections.py:415 | no id iff no row has the names and coordinates; else the id of a row that has them |
| Linking.ZeroLatitudeNeverLinks | food-inspections.py:415 | as written, a record with latitude 0 gets no establishment id, because no stored row has latitude 0 |
| Linking.StoredEstablishmentLinks | food-inspections.py:375-383 | with the record's coordinates cleaned, a record whose tuple is stored under a unique key gets that row's id |
| Linking.LookupRisk | food-inspections.py:416 | a missing risk, or a text with no row, gives no id; else the tier of a row with that text |
| Linking.StoredRiskLinks | food-inspections.py:416 | a stored risk text with a unique row gets its tier |
| Linking.LookupResult | food-inspections.py:417 | no id iff no row's rebuilt key is the raw result; else the id of such a row |
| Linking.StoredResultLinks | food-inspections.py:417 | a raw result equal to the unique key of a stored row gets that row's id |
| Linking.InspectionRow | food-inspections.py:414-422 | the corrected merge: the row keeps the id and type, truncates the date, and takes its establishment id from the merge on cleaned coordinates, its risk id from the risk merge (none for a missing risk) and its result id from the merge on the corrected key |
| Linking.LookupResultAsWritten | food-inspections.py:412-417 | the result merge as written: it raises iff some stored row is flagged; otherwise it finds a row whose bare result text is the raw text, and none iff no row has it |
| Linking.InspectionRowAsWritten | food-inspections.py:411-422 | the row as the code builds it: it raises iff a stored result row is flagged; otherwise the establishment id comes from the raw-coordinate merge and the result id from the bare-text merge |
| Linking.InspectionAsWrittenMisses | food-inspections.py:411-422 | as written, with results normalised by the misspelt marker and no stored zero latitude, a "Pass w/ Conditions" record gets no result id and a latitude-0 record no establishment id |
| Linking.AsWrittenAgreesWhenUnflagged | food-inspections.py:411-422 | with no zero coordinate on the record and no flagged result row, the written and the corrected inspection rows are equal |
| Linking.InspectionLinks | food-inspections.py:411-422 | for the corrected merge (cleaned coordinates, intended marker): when the record's establishment, risk and result rows are stored under unique keys, the inspection row carries all three ids |
| Linking.MatchesOfUnique | food-inspections.py:445 | with unique texts, one entry joins to exactly its text's row, or to none |
| Linking.JoinKeepsLinked | food-inspections.py:445 | with unique texts, the inner merge keeps exactly the entries whose text is stored, in order, each with its text's id |
| Linking.JoinSound | food-inspections.py:445 | every merged row is an entry paired with the id of a violation row holding that entry's text |
| Linking.MatchesOfSound | food-inspections.py:445 | every row one entry joins to carries the id of a violation row holding its text |
| Facts.Flag | food-inspections.py:515-521 | the flag is 0 or 1, and 1 iff the joined text is present and contains the pattern |
| Facts.JoinedEstablishmentId | food-inspections.py:523 | `e.establishment_id` is the inspection's id when a row with it exists, else NULL |
| Facts.JoinedRisk | food-inspections.py:524 | the joined risk row carries the inspection's risk id; none iff no row has it |
| Facts.JoinedResult | food-inspections.py:525 | the joined result row carries the inspection's result id; none iff no row has it |
| Facts.RowsForLinkUnique | food-inspections.py:527 | with unique violation ids, one link yields exactly the row of its violation, or none |
| Facts.FactsOfLinks | food-inspections.py:511-527 | the reference result: one fact row per given link, in order |
| Facts.OneFactPerLinkedViolation | food-inspections.py:526-527 | with unique violation ids, an inspection's fact rows are exactly one per link whose violation exists, in order, with that link's comment and that violation's text |
| Facts.NoLinksNoFacts | food-inspections.py:526-527 | an inspection without links has no fact rows: the inner join drops the row the left join padded with NULLs |
| Facts.RowsForLinkSound | food-inspections.py:527 | every row of one link's join comes from a violation row with the link's violation id |
| Facts.RowsForInspectionSound | food-inspections.py:526-527 | every fact row of an inspection comes from one of its links and the violation it names |
| Facts.FactTableSound | food-inspections.py:511-528 | every fact row is the select list over an inspection, one of its links and the violation row that link names |
| Facts.RiskFlagExamples | food-inspections.py:515-518 | "Risk 1 (High)", "Risk 2 (Medium)", "Risk 3 (Low)" and "All" each raise exactly their own flag; a missing risk raises none |
| Facts.HighRiskFlags | food-inspections.py:515-518 | "Risk 1 (High)" gives flags (1, 0, 0, 0) |
| Facts.MediumRiskFlags | food-inspections.py:515-518 | "Risk 2 (Medium)" gives flags (0, 1, 0, 0) |
| Facts.LowRiskFlags | food-inspections.py:515-518 | "Risk 3 (Low)" gives flags (0, 0, 1, 0) |
| Facts.AllRiskFlags | food-inspections.py:515-518 | "All" gives flags (0, 0, 0, 1) |
| Facts.ResultFlagExamples | food-inspections.py:520-521 | "Pass" sets only `pass`, "Fail" only `fail`, and "No Entry" or a missing result neither |
| Facts.PassFlags | food-inspections.py:520-521 | "Pass" gives flags (1, 0) |
| Facts.FailFlags | food-inspections.py:520-521 | "Fail" gives flags (0, 1) |
| Facts.NoEntryFlags | food-inspections.py:520-521 | "No Entry" gives flags (0, 0) |

## Left out

- Database I/O (`read_query`, `write_query`, the MySQL connection, configuration files) is left out. Tables read back are inputs, sequences of rows with their ids. The `INSERT IGNORE` de-duplication by keys declared in DDL that is not part of this model is also left out.
- HTTP fetching by `pd.read_json`, URL assembly (including `str(limit)` and `str(offset)`), timing, printing and memory metrics are left out. The endpoint is a function from the filter clause to an ordered sequence of rows.
- Paginator.InputData: requires `limit > 0`. With limit 0 the source loops forever (see `Paginator.ZeroLimitNeverStops`), and a non-terminating loop cannot be stated here.
- The internals of `usaddress.parse` are left out. Its tagged tokens, or its failure (any exception inside the `try`), are an input.
- Floating point is left out. A coordinate is an optional real: `NaN` is the missing value, and `abs(x) > 0` is the test against zero. The same holds for precision lost through the database's decimal columns.
- Facts.Flag: SQL `LIKE` is modelled as a case-sensitive substring test. The collation that decides case and accent sensitivity lives in DDL that is not part of this model.
- The order of `list(set(...))` is left out. The model fixes one order and the contracts state only membership and absence of duplicates.
- Row multiplication when a left merge matches several rows is left out. The lookups return the first match, and the linking lemmas assume unique keys.
- The whole-value `Series.replace` of `" - "` and similar on addresses (food-inspections.py:350) is left out. It only touches cells that equal the pattern exactly.
- pandas may read the two-character pattern `'. '` as a regular expression. The model splits on the literal text at its first occurrence.
- Violations.SplitPiece: with `expand=True`, a batch in which no piece holds `". "` splits into a single column, and the `columns` assignment at food-inspections.py:245 then raises. Likewise a batch in which no violation text holds `"- Comments:"` splits into a single column, and the assignment at food-inspections.py:248 raises. The model works piece by piece and gives such a piece a missing violation or a missing comment instead of failing the whole batch.
- Strings.ReplaceAll: requires a non-empty pattern. Python's behaviour for an empty pattern (insertion between characters) is not needed by the code.
- A missing value in the `results` column is left out. Python would raise on `in`, and the model types the column as text.
- A numeric zip code is left out. `str()` of a float zip would end in ".0", while the model takes zips as text (or missing, giving "nan").
- The `license_` and `location` columns are left out, because no modelled step reads them.
- The CSV exports (food-inspections.py:533-567), the `dim_*` INSERT…SELECT copies, and the `hello_http` wrapper in `main.py` are left out.

## Findings

| source | as written | input that shows it | evidently intended | confidence | as-written member | corrected member |
|---|---|---|---|---|---|---|
| food-inspections.py:207 (scripts/food-inspections.py:201) | the condition flag tests the misspelt literal "w/ Condititions" | raw result "Pass w/ Conditions" gives ("Pass", false) | the flag tests "w/ Conditions", so that row is ("Pass", true) | not executed | Results.NormalizeResult with Results.WrittenMarker; Results.ConditionalPassLosesFlag; Linking.InspectionRowAsWritten; Linking.InspectionAsWrittenMisses | Results.NormalizeResult with Results.IntendedMarker; Results.KeyRoundTrip; Linking.InspectionRow; Linking.InspectionLinks |
| food-inspections.py:412 (scripts/food-inspections.py:406) | the key rebuild reads `result[i]`, a name defined nowhere, when the flag is set | any stored result row with the condition flag set, e.g. the corrected normalisation of "Pass w/ Conditions" | `results.result[i] + " w/ Conditions"` | not executed | Results.ResultKeyAsWritten; Results.ConditionalPassBreaksKeyRebuild; Linking.LookupResultAsWritten | Results.ResultKey; Results.KeyRoundTrip; Linking.LookupResult |
| food-inspections.py:415 (scripts/food-inspections.py:409) | the establishment merge matches the record's raw coordinates against stored coordinates that were cleaned of zeros | a record with latitude 0.0: its stored establishment has a missing latitude, so the merge finds nothing and the inspection gets no establishment id | the record's coordinates cleaned the same way before the merge | not executed | Linking.EstablishmentIdAsWritten; Linking.ZeroLatitudeNeverLinks; Linking.InspectionRowAsWritten; Linking.InspectionAsWrittenMisses | Linking.EstablishmentId; Linking.StoredEstablishmentLinks; Linking.InspectionRow; Linking.InspectionLinks |
