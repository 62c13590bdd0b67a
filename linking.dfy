/**
 * The `inspection` and `inspection_violation` cells: raw records are linked
 * to the ids the database assigned to their establishment, risk and result
 * (left merges: a miss gives a missing id), and violation rows are linked to
 * violation ids (an inner merge: a miss drops the row).
 *
 * The tables read back from the database are inputs: sequences of rows, each
 * with the id the database gave it.
 */
module Linking {
  import opened Wrappers
  import opened Strings
  import opened Records
  import opened Risks
  import opened Results
  import opened Violations
  import opened Address
  import opened Establishments

  /** A table row read back with its surrogate id. */
  datatype Keyed<T> = Keyed(id: int, row: T)

  /** A row of the `inspection` table. */
  datatype Inspection = Inspection(
    inspectionId: int, establishmentId: Option<int>, riskId: Option<int>,
    inspectionDate: string, inspectionType: string, resultId: Option<int>)

  /** A row of the `inspection_violation` table. */
  datatype InspectionViolation = InspectionViolation(inspectionId: int, violationId: int, comment: Option<string>)

  /** `datetrans`: the first ten characters, the calendar date of an ISO timestamp. */
  function DateTrans(x: string): (r: string)
    ensures |r| == if |x| < 10 then |x| else 10
    ensures r == x[..|r|]
  {
    Prefix(x, 10)
  }

  /** Truncating twice is truncating once. */
  lemma DateTransIdempotent(x: string)
    ensures DateTrans(DateTrans(x)) == DateTrans(x)
  {
  }

  /** The establishment merge key: names and coordinates, not the address. */
  predicate SameEstablishmentKey(e: Establishment, dba: string, aka: string, lat: Option<real>, lon: Option<real>) {
    e.dbaName == dba && e.akaName == aka && e.latitude == lat && e.longitude == lon
  }

  /** The id of the first establishment row with the given key. */
  function LookupEstablishment(table: seq<Keyed<Establishment>>, dba: string, aka: string, lat: Option<real>, lon: Option<real>)
    : (r: Option<int>)
    ensures r.None? <==> forall k :: 0 <= k < |table| ==> !SameEstablishmentKey(table[k].row, dba, aka, lat, lon)
    ensures r.Some? ==> exists k :: 0 <= k < |table| && table[k].id == r.value && SameEstablishmentKey(table[k].row, dba, aka, lat, lon)
  {
    if table == [] then None
    else if SameEstablishmentKey(table[0].row, dba, aka, lat, lon) then Some(table[0].id)
    else
      var r := LookupEstablishment(table[1..], dba, aka, lat, lon);
      assert forall k :: 1 <= k < |table| ==> table[k] == table[1..][k - 1];
      r
  }

  /** The establishment merge as written: the record's raw coordinates against the stored, cleaned ones. */
  function EstablishmentIdAsWritten(rec: InspectionRecord, table: seq<Keyed<Establishment>>): Option<int> {
    LookupEstablishment(table, rec.dbaName.GetOr(""), rec.akaName.GetOr(""), rec.latitude, rec.longitude)
  }

  /** The establishment merge as intended: the record's coordinates cleaned the way the stored ones were. */
  function EstablishmentId(rec: InspectionRecord, table: seq<Keyed<Establishment>>): Option<int> {
    LookupEstablishment(table, rec.dbaName.GetOr(""), rec.akaName.GetOr(""),
                        CleanCoordinate(rec.latitude), CleanCoordinate(rec.longitude))
  }

  /** No two establishment rows share a merge key. */
  predicate UniqueEstablishmentKeys(table: seq<Keyed<Establishment>>) {
    forall i, j :: 0 <= i < |table| && 0 <= j < |table| &&
      SameEstablishmentKey(table[j].row, table[i].row.dbaName, table[i].row.akaName, table[i].row.latitude, table[i].row.longitude)
      ==> i == j
  }

  /**
   * As written, a record with latitude 0 never finds its establishment: the
   * stored rows have no zero coordinate (zero was stored as missing).
   */
  lemma ZeroLatitudeNeverLinks(rec: InspectionRecord, table: seq<Keyed<Establishment>>)
    requires rec.latitude == Some(0.0)
    requires forall k :: 0 <= k < |table| ==> table[k].row.latitude != Some(0.0)
    ensures EstablishmentIdAsWritten(rec, table) == None
  {
  }

  /** As intended, a record whose establishment row is stored finds that row's id. */
  lemma {:induction false} StoredEstablishmentLinks(rec: InspectionRecord, parse: string -> ParseOutcome,
                                                   table: seq<Keyed<Establishment>>, id: int)
    requires Keyed(id, EstablishmentOf(rec, parse)) in table
    requires UniqueEstablishmentKeys(table)
    ensures EstablishmentId(rec, table) == Some(id)
  {
    var e := EstablishmentOf(rec, parse);
    var j :| 0 <= j < |table| && table[j] == Keyed(id, e);
    var r := EstablishmentId(rec, table);
    assert SameEstablishmentKey(table[j].row, e.dbaName, e.akaName, e.latitude, e.longitude);
    var k :| 0 <= k < |table| && table[k].id == r.value
      && SameEstablishmentKey(table[k].row, e.dbaName, e.akaName, e.latitude, e.longitude);
    assert SameEstablishmentKey(table[k].row, table[j].row.dbaName, table[j].row.akaName, table[j].row.latitude, table[j].row.longitude);
  }

  /** The risk merge: the tier id of the first risk row with the record's risk text; a NaN risk matches nothing. */
  function LookupRisk(table: seq<RiskRow>, risk: Option<string>): (r: Option<int>)
    ensures r.None? <==> risk.None? || forall k :: 0 <= k < |table| ==> table[k].risk != risk.value
    ensures r.Some? ==> exists k :: 0 <= k < |table| && table[k] == RiskRow(r.value, risk.value)
  {
    if table == [] || risk.None? then None
    else if table[0].risk == risk.value then Some(table[0].riskId)
    else
      var r := LookupRisk(table[1..], risk);
      assert forall k :: 1 <= k < |table| ==> table[k] == table[1..][k - 1];
      r
  }

  /** The result merge: the id of the first result row whose rebuilt key is the raw result text. */
  function LookupResult(table: seq<Keyed<ResultRow>>, raw: string): (r: Option<int>)
    ensures r.None? <==> forall k :: 0 <= k < |table| ==> ResultKey(table[k].row) != raw
    ensures r.Some? ==> exists k :: 0 <= k < |table| && table[k].id == r.value && ResultKey(table[k].row) == raw
  {
    if table == [] then None
    else if ResultKey(table[0].row) == raw then Some(table[0].id)
    else
      var r := LookupResult(table[1..], raw);
      assert forall k :: 1 <= k < |table| ==> table[k] == table[1..][k - 1];
      r
  }

  /** One row of the `inspection` table: the merged ids and the truncated date. */
  function InspectionRow(rec: InspectionRecord, establishments: seq<Keyed<Establishment>>,
                         risks: seq<RiskRow>, results: seq<Keyed<ResultRow>>): (i: Inspection)
    ensures i.inspectionId == rec.inspectionId && i.inspectionType == rec.inspectionType
    ensures i.inspectionDate == DateTrans(rec.inspectionDate)
    ensures rec.risk.None? ==> i.riskId.None?
    ensures i.establishmentId == EstablishmentId(rec, establishments)
    ensures i.riskId == LookupRisk(risks, rec.risk)
    ensures i.resultId == LookupResult(results, rec.results)
  {
    Inspection(rec.inspectionId, EstablishmentId(rec, establishments), LookupRisk(risks, rec.risk),
               DateTrans(rec.inspectionDate), rec.inspectionType, LookupResult(results, rec.results))
  }

  /**
   * The result merge as written: every row's key is rebuilt first, and a
   * flagged row raises (`None`); otherwise the id of the first row whose
   * result text is the raw text, or a missing id.
   */
  function LookupResultAsWritten(table: seq<Keyed<ResultRow>>, raw: string): (r: Option<Option<int>>)
    ensures r.None? <==> exists k :: 0 <= k < |table| && table[k].row.conditionFlag
    ensures r.Some? ==> (r.value.None? <==> forall k :: 0 <= k < |table| ==> table[k].row.result != raw)
    ensures r.Some? && r.value.Some? ==>
      exists k :: 0 <= k < |table| && table[k].id == r.value.value && table[k].row.result == raw
  {
    if table == [] then Some(None)
    else
      var rest := LookupResultAsWritten(table[1..], raw);
      assert forall k :: 1 <= k < |table| ==> table[k] == table[1..][k - 1];
      match ResultKeyAsWritten(table[0].row)
      case None => None
      case Some(key) =>
        if rest.None? then None
        else if key == raw then Some(Some(table[0].id))
        else rest
  }

  /**
   * The inspection row as the code builds it: the establishment merge on the
   * record's raw coordinates, and the result merge on the keys rebuilt at
   * line 412, which raises (`None`) once any stored row is flagged.
   */
  function InspectionRowAsWritten(rec: InspectionRecord, establishments: seq<Keyed<Establishment>>,
                                  risks: seq<RiskRow>, results: seq<Keyed<ResultRow>>): (r: Option<Inspection>)
    ensures r.None? <==> exists k :: 0 <= k < |results| && results[k].row.conditionFlag
    ensures r.Some? ==> r.value.inspectionId == rec.inspectionId && r.value.inspectionType == rec.inspectionType
    ensures r.Some? ==> r.value.inspectionDate == DateTrans(rec.inspectionDate)
    ensures r.Some? ==> r.value.establishmentId == EstablishmentIdAsWritten(rec, establishments)
    ensures r.Some? ==> r.value.riskId == LookupRisk(risks, rec.risk)
    ensures r.Some? ==> r.value.resultId == LookupResultAsWritten(results, rec.results).value
  {
    match LookupResultAsWritten(results, rec.results)
    case None => None
    case Some(resultId) =>
      Some(Inspection(rec.inspectionId, EstablishmentIdAsWritten(rec, establishments), LookupRisk(risks, rec.risk),
                      DateTrans(rec.inspectionDate), rec.inspectionType, resultId))
  }

  /** No row the written normalisation produces is named "Pass w/ Conditions". */
  lemma NoConditionalPassRow(raw: string)
    ensures NormalizeResult(WrittenMarker, raw).result != "Pass " + IntendedMarker
  {
    PassFacts();
  }

  /**
   * As written, a conditional pass never gets a result id and a record at
   * latitude 0 never gets an establishment id, whenever the stored results
   * come from the written normalisation and no stored establishment has a
   * zero latitude.
   */
  lemma InspectionAsWrittenMisses(rec: InspectionRecord, establishments: seq<Keyed<Establishment>>,
                                  risks: seq<RiskRow>, results: seq<Keyed<ResultRow>>)
    requires forall k :: 0 <= k < |establishments| ==> establishments[k].row.latitude != Some(0.0)
    requires forall k :: 0 <= k < |results| ==> exists raw :: results[k].row == NormalizeResult(WrittenMarker, raw)
    ensures var r := InspectionRowAsWritten(rec, establishments, risks, results);
      r.Some? && rec.latitude == Some(0.0) ==> r.value.establishmentId.None?
    ensures var r := InspectionRowAsWritten(rec, establishments, risks, results);
      r.Some? && rec.results == "Pass " + IntendedMarker ==> r.value.resultId.None?
  {
    forall k | 0 <= k < |results|
      ensures results[k].row.result != "Pass " + IntendedMarker
    {
      var raw :| results[k].row == NormalizeResult(WrittenMarker, raw);
      NoConditionalPassRow(raw);
    }
  }

  /**
   * Off the two faulty cases the written and the corrected merges agree: a
   * record with no zero coordinate, against a result table with no flagged
   * row, gets the same inspection row.
   */
  lemma AsWrittenAgreesWhenUnflagged(rec: InspectionRecord, establishments: seq<Keyed<Establishment>>,
                                     risks: seq<RiskRow>, results: seq<Keyed<ResultRow>>)
    requires rec.latitude != Some(0.0) && rec.longitude != Some(0.0)
    requires forall k :: 0 <= k < |results| ==> !results[k].row.conditionFlag
    ensures InspectionRowAsWritten(rec, establishments, risks, results) == Some(InspectionRow(rec, establishments, risks, results))
  {
    UnflaggedLookupsAgree(results, rec.results);
  }

  /** With no flagged row, the written result merge finds what the corrected one finds. */
  lemma {:induction false} UnflaggedLookupsAgree(table: seq<Keyed<ResultRow>>, raw: string)
    requires forall k :: 0 <= k < |table| ==> !table[k].row.conditionFlag
    ensures LookupResultAsWritten(table, raw) == Some(LookupResult(table, raw))
  {
    if table != [] {
      assert forall k :: 1 <= k < |table| ==> table[k] == table[1..][k - 1];
      UnflaggedLookupsAgree(table[1..], raw);
    }
  }

  /** No two risk rows share a text. */
  predicate UniqueRiskTexts(table: seq<RiskRow>) {
    forall i, j :: 0 <= i < |table| && 0 <= j < |table| && table[i].risk == table[j].risk ==> i == j
  }

  /** No two result rows share a rebuilt key. */
  predicate UniqueResultKeys(table: seq<Keyed<ResultRow>>) {
    forall i, j :: 0 <= i < |table| && 0 <= j < |table| && ResultKey(table[i].row) == ResultKey(table[j].row) ==> i == j
  }

  /**
   * When the reference tables hold the record's establishment, risk and
   * result rows, each keyed uniquely, the inspection row carries their ids.
   */
  lemma InspectionLinks(rec: InspectionRecord, parse: string -> ParseOutcome,
                        establishments: seq<Keyed<Establishment>>, risks: seq<RiskRow>, results: seq<Keyed<ResultRow>>,
                        establishmentId: int, resultId: int)
    requires Keyed(establishmentId, EstablishmentOf(rec, parse)) in establishments && UniqueEstablishmentKeys(establishments)
    requires rec.risk.Some? && RiskRow(Tier(rec.risk.value), rec.risk.value) in risks && UniqueRiskTexts(risks)
    requires RebuildableResult(rec.results) && UniqueResultKeys(results)
    requires Keyed(resultId, NormalizeResult(IntendedMarker, rec.results)) in results
    ensures InspectionRow(rec, establishments, risks, results)
         == Inspection(rec.inspectionId, Some(establishmentId), Some(Tier(rec.risk.value)),
                       DateTrans(rec.inspectionDate), rec.inspectionType, Some(resultId))
  {
    StoredEstablishmentLinks(rec, parse, establishments, establishmentId);
    StoredRiskLinks(risks, rec.risk.value, Tier(rec.risk.value));
    KeyRoundTrip(rec.results);
    StoredResultLinks(results, rec.results, resultId, NormalizeResult(IntendedMarker, rec.results));
  }

  /** A stored risk row with a unique text is found by its text. */
  lemma StoredRiskLinks(risks: seq<RiskRow>, text: string, tier: int)
    requires RiskRow(tier, text) in risks && UniqueRiskTexts(risks)
    ensures LookupRisk(risks, Some(text)) == Some(tier)
  {
    var r := LookupRisk(risks, Some(text));
    var j :| 0 <= j < |risks| && risks[j] == RiskRow(tier, text);
    var k :| 0 <= k < |risks| && risks[k] == RiskRow(r.value, text);
    assert j == k;
  }

  /** A stored result row with a unique key is found by its key. */
  lemma StoredResultLinks(results: seq<Keyed<ResultRow>>, raw: string, id: int, row: ResultRow)
    requires Keyed(id, row) in results && ResultKey(row) == raw && UniqueResultKeys(results)
    ensures LookupResult(results, raw) == Some(id)
  {
    var q := LookupResult(results, raw);
    var a :| 0 <= a < |results| && results[a] == Keyed(id, row);
    var b :| 0 <= b < |results| && results[b].id == q.value && ResultKey(results[b].row) == raw;
    assert a == b;
  }

  /** The rows of the violation table whose text is `text`, as joined rows for `e`. */
  function MatchesOf(e: ViolationEntry, table: seq<Keyed<Option<string>>>): (ms: seq<InspectionViolation>)
    ensures |ms| <= |table|
  {
    if table == [] then []
    else
      (if table[0].row == e.violation then [InspectionViolation(e.inspectionId, table[0].id, e.comment)] else [])
      + MatchesOf(e, table[1..])
  }

  /** `ins_vio_df.merge(violation_df, on='violation')`: an inner join on the violation text. */
  function JoinViolationIds(entries: seq<ViolationEntry>, table: seq<Keyed<Option<string>>>): seq<InspectionViolation> {
    if entries == [] then [] else MatchesOf(entries[0], table) + JoinViolationIds(entries[1..], table)
  }

  /** The violation table's texts. */
  function TextsOf(table: seq<Keyed<Option<string>>>): set<Option<string>> {
    set k | 0 <= k < |table| :: table[k].row
  }

  /** No two violation rows share a text. */
  predicate UniqueTexts(table: seq<Keyed<Option<string>>>) {
    forall i, j :: 0 <= i < j < |table| ==> table[i].row != table[j].row
  }

  /** The id of the violation row with the given text. */
  function IdOf(table: seq<Keyed<Option<string>>>, text: Option<string>): int
    requires text in TextsOf(table)
  {
    if table[0].row == text then table[0].id
    else
      assert text in TextsOf(table[1..]) by {
        var k :| 0 <= k < |table| && table[k].row == text;
        assert table[1..][k - 1] == table[k];
      }
      IdOf(table[1..], text)
  }

  /** The reference join: keep the entries whose text is in the table, each with its text's id. */
  function KeepLinked(entries: seq<ViolationEntry>, table: seq<Keyed<Option<string>>>): seq<InspectionViolation> {
    if entries == [] then []
    else
      var e := entries[0];
      (if e.violation in TextsOf(table) then [InspectionViolation(e.inspectionId, IdOf(table, e.violation), e.comment)] else [])
      + KeepLinked(entries[1..], table)
  }

  /** With unique texts, one entry joins to exactly its text's row, or to nothing. */
  lemma {:induction false} MatchesOfUnique(e: ViolationEntry, table: seq<Keyed<Option<string>>>)
    requires UniqueTexts(table)
    ensures MatchesOf(e, table) ==
      if e.violation in TextsOf(table) then [InspectionViolation(e.inspectionId, IdOf(table, e.violation), e.comment)] else []
  {
    if table != [] {
      var rest := table[1..];
      assert UniqueTexts(rest) by {
        forall i, j | 0 <= i < j < |rest| ensures rest[i].row != rest[j].row {
          assert rest[i] == table[i + 1] && rest[j] == table[j + 1];
        }
      }
      MatchesOfUnique(e, rest);
      assert TextsOf(table) == {table[0].row} + TextsOf(rest) by {
        forall t | t in TextsOf(table) ensures t in {table[0].row} + TextsOf(rest) {
          var k :| 0 <= k < |table| && table[k].row == t;
          if k > 0 { assert rest[k - 1] == table[k]; }
        }
        forall t | t in TextsOf(rest) ensures t in TextsOf(table) {
          var k :| 0 <= k < |rest| && rest[k].row == t;
          assert table[k + 1] == rest[k];
        }
      }
      if table[0].row == e.violation {
        assert e.violation !in TextsOf(rest) by {
          forall k | 0 <= k < |rest| ensures rest[k].row != e.violation {
            assert rest[k] == table[k + 1];
          }
        }
      }
    }
  }

  /**
   * The inner join keeps exactly the entries whose text is in the violation
   * table, in order, each carrying the id of its text.
   */
  lemma {:induction false} JoinKeepsLinked(entries: seq<ViolationEntry>, table: seq<Keyed<Option<string>>>)
    requires UniqueTexts(table)
    ensures JoinViolationIds(entries, table) == KeepLinked(entries, table)
  {
    if entries != [] {
      MatchesOfUnique(entries[0], table);
      JoinKeepsLinked(entries[1..], table);
    }
  }

  /** Every joined row comes from an entry and a violation row with that entry's text. */
  lemma {:induction false} JoinSound(entries: seq<ViolationEntry>, table: seq<Keyed<Option<string>>>, n: nat)
    requires n < |JoinViolationIds(entries, table)|
    ensures exists k, j :: (0 <= k < |entries| && 0 <= j < |table| && table[j].row == entries[k].violation
      && JoinViolationIds(entries, table)[n] == InspectionViolation(entries[k].inspectionId, table[j].id, entries[k].comment))
  {
    var head := MatchesOf(entries[0], table);
    if n < |head| {
      var j := MatchesOfSound(entries[0], table, n);
      assert JoinViolationIds(entries, table)[n] == head[n];
    } else {
      JoinSound(entries[1..], table, n - |head|);
      var k, j :| 0 <= k < |entries[1..]| && 0 <= j < |table| && table[j].row == entries[1..][k].violation
        && JoinViolationIds(entries[1..], table)[n - |head|]
           == InspectionViolation(entries[1..][k].inspectionId, table[j].id, entries[1..][k].comment);
      assert entries[1..][k] == entries[k + 1];
    }
  }

  lemma {:induction false} MatchesOfSound(e: ViolationEntry, table: seq<Keyed<Option<string>>>, n: nat) returns (j: nat)
    requires n < |MatchesOf(e, table)|
    ensures j < |table| && table[j].row == e.violation
    ensures MatchesOf(e, table)[n] == InspectionViolation(e.inspectionId, table[j].id, e.comment)
  {
    var first := if table[0].row == e.violation then [InspectionViolation(e.inspectionId, table[0].id, e.comment)] else [];
    if n < |first| {
      j := 0;
    } else {
      var j' := MatchesOfSound(e, table[1..], n - |first|);
      j := j' + 1;
    }
  }
}
