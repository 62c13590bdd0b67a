/**
 * The `fact_inspection` load of the warehouse: one row per inspection and
 * linked violation, with the establishment, risk and result joined by id and
 * the risk and result texts turned into 0/1 flags by `LIKE` patterns.
 *
 * The operational tables are a value, `Operational`; the SQL statement is the
 * function `FactTable` over it.
 */
module Facts {
  import opened Wrappers
  import opened Strings
  import opened Risks
  import opened Results
  import opened Establishments
  import opened Linking

  /** The operational schema's tables, as read by the fact query. */
  datatype Operational = Operational(
    establishments: seq<Keyed<Establishment>>,
    risks: seq<RiskRow>,
    results: seq<Keyed<ResultRow>>,
    inspections: seq<Inspection>,
    inspectionViolations: seq<InspectionViolation>,
    violations: seq<Keyed<Option<string>>>)

  /** A row of `fact_inspection`. */
  datatype FactRow = FactRow(
    inspectionId: int, establishmentId: Option<int>, inspectionDate: string, inspectionType: string,
    violation: Option<string>, comment: Option<string>,
    riskId: Option<int>, highRisk: int, mediumRisk: int, lowRisk: int, allRisk: int,
    resultId: Option<int>, pass: int, fail: int)

  /**
   * `CASE WHEN text LIKE '%pat%' THEN 1 ELSE 0 END`: 1 exactly when the text
   * is present and contains the pattern; a NULL text gives 0.
   */
  function Flag(text: Option<string>, pat: string): (f: int)
    ensures f == 0 || f == 1
    ensures f == 1 <==> text.Some? && Contains(text.value, pat)
    ensures text.None? ==> f == 0
  {
    if text.Some? && Contains(text.value, pat) then 1 else 0
  }

  /** `LEFT JOIN establishment e ON i.establishment_id = e.establishment_id`, giving `e.establishment_id`. */
  function JoinedEstablishmentId(table: seq<Keyed<Establishment>>, id: Option<int>): (r: Option<int>)
    ensures r.Some? ==> r == id
    ensures r.Some? <==> id.Some? && exists k :: 0 <= k < |table| && table[k].id == id.value
  {
    if id.None? || table == [] then None
    else if table[0].id == id.value then id
    else
      var r := JoinedEstablishmentId(table[1..], id);
      assert forall k :: 1 <= k < |table| ==> table[k] == table[1..][k - 1];
      r
  }

  /** `LEFT JOIN risk ri ON i.risk_id = ri.risk_id`: the joined risk row, if any. */
  function JoinedRisk(table: seq<RiskRow>, id: Option<int>): (r: Option<RiskRow>)
    ensures r.Some? ==> id == Some(r.value.riskId) && r.value in table
    ensures r.None? <==> id.None? || forall k :: 0 <= k < |table| ==> table[k].riskId != id.value
  {
    if id.None? || table == [] then None
    else if table[0].riskId == id.value then Some(table[0])
    else
      var r := JoinedRisk(table[1..], id);
      assert forall k :: 1 <= k < |table| ==> table[k] == table[1..][k - 1];
      r
  }

  /** `LEFT JOIN result re ON i.result_id = re.result_id`: the joined result row, if any. */
  function JoinedResult(table: seq<Keyed<ResultRow>>, id: Option<int>): (r: Option<Keyed<ResultRow>>)
    ensures r.Some? ==> id == Some(r.value.id) && r.value in table
    ensures r.None? <==> id.None? || forall k :: 0 <= k < |table| ==> table[k].id != id.value
  {
    if id.None? || table == [] then None
    else if table[0].id == id.value then Some(table[0])
    else
      var r := JoinedResult(table[1..], id);
      assert forall k :: 1 <= k < |table| ==> table[k] == table[1..][k - 1];
      r
  }

  /** The joined risk text, NULL when no risk row joined. */
  function RiskText(db: Operational, i: Inspection): Option<string> {
    var ri := JoinedRisk(db.risks, i.riskId);
    if ri.Some? then Some(ri.value.risk) else None
  }

  /** The joined result text, NULL when no result row joined. */
  function ResultText(db: Operational, i: Inspection): Option<string> {
    var re := JoinedResult(db.results, i.resultId);
    if re.Some? then Some(re.value.row.result) else None
  }

  /** The select list for one inspection, one of its violation links and the linked violation row. */
  function FactRowOf(db: Operational, i: Inspection, iv: InspectionViolation, v: Keyed<Option<string>>): FactRow {
    var ri := JoinedRisk(db.risks, i.riskId);
    var re := JoinedResult(db.results, i.resultId);
    var risk := RiskText(db, i);
    var result := ResultText(db, i);
    FactRow(i.inspectionId, JoinedEstablishmentId(db.establishments, i.establishmentId),
            i.inspectionDate, i.inspectionType, v.row, iv.comment,
            if ri.Some? then Some(ri.value.riskId) else None,
            Flag(risk, "High"), Flag(risk, "Medium"), Flag(risk, "Low"), Flag(risk, "All"),
            if re.Some? then Some(re.value.id) else None,
            Flag(result, "Pass"), Flag(result, "Fail"))
  }

  /** `INNER JOIN violation v ON iv.violation_id = v.violation_id` for one link. */
  function RowsForLink(db: Operational, i: Inspection, iv: InspectionViolation, vs: seq<Keyed<Option<string>>>)
    : (rows: seq<FactRow>)
    ensures |rows| <= |vs|
  {
    if vs == [] then []
    else
      (if vs[0].id == iv.violationId then [FactRowOf(db, i, iv, vs[0])] else [])
      + RowsForLink(db, i, iv, vs[1..])
  }

  /** `LEFT JOIN inspection_violation iv ON i.inspection_id = iv.inspection_id`, then the inner join. */
  function RowsForInspection(db: Operational, i: Inspection, ivs: seq<InspectionViolation>): seq<FactRow> {
    if ivs == [] then []
    else
      (if ivs[0].inspectionId == i.inspectionId then RowsForLink(db, i, ivs[0], db.violations) else [])
      + RowsForInspection(db, i, ivs[1..])
  }

  function FactRows(db: Operational, ins: seq<Inspection>): seq<FactRow> {
    if ins == [] then [] else RowsForInspection(db, ins[0], db.inspectionViolations) + FactRows(db, ins[1..])
  }

  /** The `fact_inspection` rows the statement selects. */
  function FactTable(db: Operational): seq<FactRow> {
    FactRows(db, db.inspections)
  }

  /** The violation ids are a key of the violation table. */
  predicate UniqueViolationIds(vs: seq<Keyed<Option<string>>>) {
    forall i, j :: 0 <= i < |vs| && 0 <= j < |vs| && vs[i].id == vs[j].id ==> i == j
  }

  function IdsOf(vs: seq<Keyed<Option<string>>>): set<int> {
    set k | 0 <= k < |vs| :: vs[k].id
  }

  /** The violation row with the given id. */
  function RowWithId(vs: seq<Keyed<Option<string>>>, id: int): (v: Keyed<Option<string>>)
    requires id in IdsOf(vs)
    ensures v in vs && v.id == id
  {
    if vs[0].id == id then vs[0]
    else
      assert id in IdsOf(vs[1..]) by {
        var k :| 0 <= k < |vs| && vs[k].id == id;
        assert vs[1..][k - 1] == vs[k];
      }
      RowWithId(vs[1..], id)
  }

  /** The links of inspection `i` whose violation id is in the violation table. */
  function LinkedViolations(i: Inspection, ivs: seq<InspectionViolation>, vs: seq<Keyed<Option<string>>>)
    : (linked: seq<InspectionViolation>)
    ensures forall k :: 0 <= k < |linked| ==> linked[k].inspectionId == i.inspectionId && linked[k].violationId in IdsOf(vs)
  {
    if ivs == [] then []
    else
      (if ivs[0].inspectionId == i.inspectionId && ivs[0].violationId in IdsOf(vs) then [ivs[0]] else [])
      + LinkedViolations(i, ivs[1..], vs)
  }

  /** With unique violation ids, one link yields exactly the row of its violation, or nothing. */
  lemma {:induction false} RowsForLinkUnique(db: Operational, i: Inspection, iv: InspectionViolation, vs: seq<Keyed<Option<string>>>)
    requires UniqueViolationIds(vs)
    ensures RowsForLink(db, i, iv, vs) ==
      if iv.violationId in IdsOf(vs) then [FactRowOf(db, i, iv, RowWithId(vs, iv.violationId))] else []
  {
    if vs != [] {
      var rest := vs[1..];
      assert UniqueViolationIds(rest) by {
        forall a, b | 0 <= a < |rest| && 0 <= b < |rest| && rest[a].id == rest[b].id ensures a == b {
          assert rest[a] == vs[a + 1] && rest[b] == vs[b + 1];
        }
      }
      RowsForLinkUnique(db, i, iv, rest);
      IdsSplit(vs);
      if vs[0].id == iv.violationId {
        assert iv.violationId !in IdsOf(rest) by {
          forall k | 0 <= k < |rest| ensures rest[k].id != iv.violationId {
            assert rest[k] == vs[k + 1];
          }
        }
      }
    }
  }

  lemma IdsSplit(vs: seq<Keyed<Option<string>>>)
    requires vs != []
    ensures IdsOf(vs) == {vs[0].id} + IdsOf(vs[1..])
  {
    forall t | t in IdsOf(vs) ensures t in {vs[0].id} + IdsOf(vs[1..]) {
      var k :| 0 <= k < |vs| && vs[k].id == t;
      if k > 0 { assert vs[1..][k - 1] == vs[k]; }
    }
    forall t | t in IdsOf(vs[1..]) ensures t in IdsOf(vs) {
      var k :| 0 <= k < |vs[1..]| && vs[1..][k].id == t;
      assert vs[k + 1] == vs[1..][k];
    }
  }

  /** The reference result: one fact row per linked violation, in link order. */
  function FactsOfLinks(db: Operational, i: Inspection, links: seq<InspectionViolation>): (rows: seq<FactRow>)
    requires forall k :: 0 <= k < |links| ==> links[k].violationId in IdsOf(db.violations)
    ensures |rows| == |links|
  {
    if links == [] then []
    else [FactRowOf(db, i, links[0], RowWithId(db.violations, links[0].violationId))] + FactsOfLinks(db, i, links[1..])
  }

  /**
   * With unique violation ids, an inspection has exactly one fact row per
   * link whose violation exists, in link order, carrying that link's comment
   * and that violation's text.
   */
  lemma {:induction false} OneFactPerLinkedViolation(db: Operational, i: Inspection, ivs: seq<InspectionViolation>)
    requires UniqueViolationIds(db.violations)
    ensures RowsForInspection(db, i, ivs) == FactsOfLinks(db, i, LinkedViolations(i, ivs, db.violations))
  {
    if ivs != [] {
      RowsForLinkUnique(db, i, ivs[0], db.violations);
      OneFactPerLinkedViolation(db, i, ivs[1..]);
      var rest := LinkedViolations(i, ivs[1..], db.violations);
      if ivs[0].inspectionId == i.inspectionId && ivs[0].violationId in IdsOf(db.violations) {
        assert LinkedViolations(i, ivs, db.violations) == [ivs[0]] + rest;
        assert ([ivs[0]] + rest)[1..] == rest;
      } else {
        var tail := RowsForInspection(db, i, ivs[1..]);
        assert LinkedViolations(i, ivs, db.violations) == [] + rest;
        assert [] + rest == rest;
        assert RowsForInspection(db, i, ivs) == [] + tail;
        assert [] + tail == tail;
      }
    }
  }

  /** An inspection without violation links has no fact rows: the inner join drops its NULL row. */
  lemma {:induction false} NoLinksNoFacts(db: Operational, i: Inspection, ivs: seq<InspectionViolation>)
    requires forall k :: 0 <= k < |ivs| ==> ivs[k].inspectionId != i.inspectionId
    ensures RowsForInspection(db, i, ivs) == []
  {
    if ivs != [] {
      NoLinksNoFacts(db, i, ivs[1..]);
    }
  }

  /** Every row of one link's join is the select list over that link and a violation row carrying its id. */
  lemma {:induction false} RowsForLinkSound(db: Operational, i: Inspection, iv: InspectionViolation,
                                            vs: seq<Keyed<Option<string>>>, n: nat) returns (j: nat)
    requires n < |RowsForLink(db, i, iv, vs)|
    ensures j < |vs| && vs[j].id == iv.violationId
    ensures RowsForLink(db, i, iv, vs)[n] == FactRowOf(db, i, iv, vs[j])
  {
    var first := if vs[0].id == iv.violationId then [FactRowOf(db, i, iv, vs[0])] else [];
    if n < |first| {
      j := 0;
    } else {
      var j' := RowsForLinkSound(db, i, iv, vs[1..], n - |first|);
      j := j' + 1;
    }
  }

  /** Every row of an inspection's facts comes from one of its links and the violation that link names. */
  lemma {:induction false} RowsForInspectionSound(db: Operational, i: Inspection, ivs: seq<InspectionViolation>, n: nat)
    returns (m: nat, j: nat)
    requires n < |RowsForInspection(db, i, ivs)|
    ensures m < |ivs| && j < |db.violations|
    ensures ivs[m].inspectionId == i.inspectionId && db.violations[j].id == ivs[m].violationId
    ensures RowsForInspection(db, i, ivs)[n] == FactRowOf(db, i, ivs[m], db.violations[j])
  {
    var head := if ivs[0].inspectionId == i.inspectionId then RowsForLink(db, i, ivs[0], db.violations) else [];
    if n < |head| {
      m := 0;
      j := RowsForLinkSound(db, i, ivs[0], db.violations, n);
    } else {
      var m' := 0;
      m', j := RowsForInspectionSound(db, i, ivs[1..], n - |head|);
      m := m' + 1;
    }
  }

  /**
   * Every fact row is the select list over an inspection, one of its
   * violation links and the violation row that link names.
   */
  lemma {:induction false} FactTableSound(db: Operational, ins: seq<Inspection>, n: nat)
    returns (k: nat, m: nat, j: nat)
    requires n < |FactRows(db, ins)|
    ensures k < |ins| && m < |db.inspectionViolations| && j < |db.violations|
    ensures db.inspectionViolations[m].inspectionId == ins[k].inspectionId
    ensures db.violations[j].id == db.inspectionViolations[m].violationId
    ensures FactRows(db, ins)[n] == FactRowOf(db, ins[k], db.inspectionViolations[m], db.violations[j])
  {
    var head := RowsForInspection(db, ins[0], db.inspectionViolations);
    if n < |head| {
      k := 0;
      m, j := RowsForInspectionSound(db, ins[0], db.inspectionViolations, n);
    } else {
      k, m, j := FactTableSound(db, ins[1..], n - |head|);
      k := k + 1;
    }
  }

  /** A character of the pattern absent from the text rules the pattern out. */
  lemma MissingCharNotContained(s: string, pat: string, c: char)
    requires c in pat && c !in s
    ensures !Contains(s, pat)
  {
  }

  /** The risk flags of a text: high, medium, low, all. */
  function RiskFlags(risk: Option<string>): (int, int, int, int) {
    (Flag(risk, "High"), Flag(risk, "Medium"), Flag(risk, "Low"), Flag(risk, "All"))
  }

  /** A flag is raised when the text holds the pattern. */
  lemma FlagRaised(pre: string, pat: string, post: string)
    ensures Flag(Some(pre + pat + post), pat) == 1
  {
    assert (pre + pat + post)[|pre|..|pre| + |pat|] == pat;
    assert OccursAt(pre + pat + post, pat, |pre|);
  }

  /** A flag stays down when some character of the pattern is absent from the text. */
  lemma FlagDown(text: string, pat: string, c: char)
    requires c in pat && c !in text
    ensures Flag(Some(text), pat) == 0
  {
    MissingCharNotContained(text, pat, c);
  }

  /** The dataset's four risk texts each raise exactly their own flag; a missing risk raises none. */
  lemma RiskFlagExamples()
    ensures RiskFlags(Some("Risk 1 (High)")) == (1, 0, 0, 0)
    ensures RiskFlags(Some("Risk 2 (Medium)")) == (0, 1, 0, 0)
    ensures RiskFlags(Some("Risk 3 (Low)")) == (0, 0, 1, 0)
    ensures RiskFlags(Some("All")) == (0, 0, 0, 1)
    ensures RiskFlags(None) == (0, 0, 0, 0)
  {
    HighRiskFlags();
    MediumRiskFlags();
    LowRiskFlags();
    AllRiskFlags();
  }

  lemma HighRiskFlags()
    ensures RiskFlags(Some("Risk 1 (High)")) == (1, 0, 0, 0)
  {
    var t := "Risk 1 (High)";
    assert Flag(Some(t), "High") == 1 by {
      FlagRaised("Risk 1 (", "High", ")");
      assert t == "Risk 1 (" + "High" + ")";
    }
    assert Flag(Some(t), "Medium") == 0 by { FlagDown(t, "Medium", 'M'); }
    assert Flag(Some(t), "Low") == 0 by { FlagDown(t, "Low", 'L'); }
    assert Flag(Some(t), "All") == 0 by { FlagDown(t, "All", 'A'); }
  }

  lemma MediumRiskFlags()
    ensures RiskFlags(Some("Risk 2 (Medium)")) == (0, 1, 0, 0)
  {
    var t := "Risk 2 (Medium)";
    assert Flag(Some(t), "High") == 0 by { FlagDown(t, "High", 'H'); }
    assert Flag(Some(t), "Medium") == 1 by {
      FlagRaised("Risk 2 (", "Medium", ")");
      assert t == "Risk 2 (" + "Medium" + ")";
    }
    assert Flag(Some(t), "Low") == 0 by { FlagDown(t, "Low", 'L'); }
    assert Flag(Some(t), "All") == 0 by { FlagDown(t, "All", 'A'); }
  }

  lemma LowRiskFlags()
    ensures RiskFlags(Some("Risk 3 (Low)")) == (0, 0, 1, 0)
  {
    var t := "Risk 3 (Low)";
    assert Flag(Some(t), "High") == 0 by { FlagDown(t, "High", 'H'); }
    assert Flag(Some(t), "Medium") == 0 by { FlagDown(t, "Medium", 'M'); }
    assert Flag(Some(t), "Low") == 1 by {
      FlagRaised("Risk 3 (", "Low", ")");
      assert t == "Risk 3 (" + "Low" + ")";
    }
    assert Flag(Some(t), "All") == 0 by { FlagDown(t, "All", 'A'); }
  }

  lemma AllRiskFlags()
    ensures RiskFlags(Some("All")) == (0, 0, 0, 1)
  {
    var t := "All";
    assert Flag(Some(t), "High") == 0 by { FlagDown(t, "High", 'H'); }
    assert Flag(Some(t), "Medium") == 0 by { FlagDown(t, "Medium", 'M'); }
    assert Flag(Some(t), "Low") == 0 by { FlagDown(t, "Low", 'L'); }
    assert Flag(Some(t), "All") == 1 by {
      FlagRaised("", "All", "");
      assert t == "" + "All" + "";
    }
  }

  /** A passing result sets `pass`, a failing one `fail`, and any other neither. */
  lemma ResultFlagExamples()
    ensures ResultFlags(Some("Pass")) == (1, 0)
    ensures ResultFlags(Some("Fail")) == (0, 1)
    ensures ResultFlags(Some("No Entry")) == (0, 0)
    ensures ResultFlags(None) == (0, 0)
  {
    PassFlags();
    FailFlags();
    NoEntryFlags();
  }

  /** The result flags of a text: pass, fail. */
  function ResultFlags(result: Option<string>): (int, int) {
    (Flag(result, "Pass"), Flag(result, "Fail"))
  }

  lemma PassFlags()
    ensures ResultFlags(Some("Pass")) == (1, 0)
  {
    assert Flag(Some("Pass"), "Pass") == 1 by {
      FlagRaised("", "Pass", "");
      assert "Pass" == "" + "Pass" + "";
    }
    assert Flag(Some("Pass"), "Fail") == 0 by { FlagDown("Pass", "Fail", 'F'); }
  }

  lemma FailFlags()
    ensures ResultFlags(Some("Fail")) == (0, 1)
  {
    assert Flag(Some("Fail"), "Pass") == 0 by { FlagDown("Fail", "Pass", 'P'); }
    assert Flag(Some("Fail"), "Fail") == 1 by {
      FlagRaised("", "Fail", "");
      assert "Fail" == "" + "Fail" + "";
    }
  }

  lemma NoEntryFlags()
    ensures ResultFlags(Some("No Entry")) == (0, 0)
  {
    assert Flag(Some("No Entry"), "Pass") == 0 by { FlagDown("No Entry", "Pass", 'P'); }
    assert Flag(Some("No Entry"), "Fail") == 0 by { FlagDown("No Entry", "Fail", 'F'); }
  }
}
