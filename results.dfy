/**
 * The `result` reference table. Each raw result text becomes a pair
 * `(result, condition_flag)`: any text containing "Pass" is normalised to
 * "Pass", and the flag records whether the text carries a condition marker.
 *
 * The script tests for the literal "w/ Condititions" (misspelt), which no
 * result text contains; the dataset writes "w/ Conditions". The marker is a
 * parameter here so that both the literal as written and the intended one can
 * be stated; the rest of the model uses the intended one.
 */
module Results {
  import opened Wrappers
  import opened Strings
  import opened Collections

  /** A row of the `result` table without its id: `(result, condition_flag)`. */
  datatype ResultRow = ResultRow(result: string, conditionFlag: bool)

  /** The literal the script tests, as written. */
  const WrittenMarker := "w/ Condititions"

  /** The marker the dataset uses and the key rebuild appends. */
  const IntendedMarker := "w/ Conditions"

  /** One iteration of the result loop, testing for `marker`. */
  function NormalizeResult(marker: string, raw: string): (r: ResultRow)
    ensures r.conditionFlag <==> Contains(raw, marker)
    ensures Contains(raw, "Pass") ==> r.result == "Pass"
    ensures !Contains(raw, "Pass") ==> r.result == raw
  {
    ResultRow(if Contains(raw, "Pass") then "Pass" else raw, Contains(raw, marker))
  }

  /** Normalising a normalised text changes nothing. */
  lemma NormalizeIdempotent(marker: string, raw: string)
    ensures NormalizeResult(marker, NormalizeResult(marker, raw).result).result == NormalizeResult(marker, raw).result
  {
    if Contains(raw, "Pass") {
      assert OccursAt("Pass", "Pass", 0);
    }
  }

  /**
   * The result cell: the distinct raw texts, the loop that builds the
   * `results` and `conditions` lists, then the distinct pairs.
   */
  method ResultRecords(column: seq<string>, marker: string) returns (records: seq<ResultRow>)
    ensures NoDuplicates(records)
    ensures forall k :: 0 <= k < |column| ==> NormalizeResult(marker, column[k]) in records
    ensures forall k :: 0 <= k < |records| ==> exists raw :: raw in column && records[k] == NormalizeResult(marker, raw)
  {
    var resultsOrig := Distinct(column);
    var results: seq<string> := [];
    var conditions: seq<bool> := [];
    for i := 0 to |resultsOrig|
      invariant |results| == i && |conditions| == i
      invariant forall j :: 0 <= j < i ==> ResultRow(results[j], conditions[j]) == NormalizeResult(marker, resultsOrig[j])
    {
      if Contains(resultsOrig[i], marker) {
        conditions := conditions + [true];
      } else {
        conditions := conditions + [false];
      }
      if Contains(resultsOrig[i], "Pass") {
        results := results + ["Pass"];
      } else {
        results := results + [resultsOrig[i]];
      }
    }
    var pairs := seq(|results|, i requires 0 <= i < |results| => ResultRow(results[i], conditions[i]));
    records := Distinct(pairs);
    PairsCoverColumn(column, resultsOrig, pairs, records, marker);
  }

  lemma PairsCoverColumn(column: seq<string>, distinct: seq<string>, pairs: seq<ResultRow>, records: seq<ResultRow>, marker: string)
    requires forall k :: 0 <= k < |distinct| ==> distinct[k] in column
    requires forall k :: 0 <= k < |column| ==> column[k] in distinct
    requires |pairs| == |distinct|
    requires forall j :: 0 <= j < |pairs| ==> pairs[j] == NormalizeResult(marker, distinct[j])
    requires forall k :: 0 <= k < |records| ==> records[k] in pairs
    requires forall k :: 0 <= k < |pairs| ==> pairs[k] in records
    ensures forall k :: 0 <= k < |column| ==> NormalizeResult(marker, column[k]) in records
    ensures forall k :: 0 <= k < |records| ==> exists raw :: raw in column && records[k] == NormalizeResult(marker, raw)
  {
    forall k | 0 <= k < |column| ensures NormalizeResult(marker, column[k]) in records {
      var j :| 0 <= j < |distinct| && distinct[j] == column[k];
      assert pairs[j] in records;
    }
    forall k | 0 <= k < |records| ensures exists raw :: raw in column && records[k] == NormalizeResult(marker, raw) {
      var j :| 0 <= j < |pairs| && pairs[j] == records[k];
      assert distinct[j] in column;
    }
  }

  /**
   * The key the inspection merge matches raw result texts against, as
   * written: a flagged row reads the undefined name `result` and raises, which
   * is `None` here; an unflagged row's key is its result text.
   */
  function ResultKeyAsWritten(row: ResultRow): (k: Option<string>)
    ensures k.None? <==> row.conditionFlag
    ensures k.Some? ==> k.value == row.result
  {
    if row.conditionFlag then None else Some(row.result)
  }

  /** The key as intended: the result text, followed by " w/ Conditions" when flagged. */
  function ResultKey(row: ResultRow): (k: string)
    ensures |k| >= |row.result| && k[..|row.result|] == row.result
    ensures row.conditionFlag <==> |k| > |row.result|
    ensures row.conditionFlag ==> k[|row.result|..] == " " + IntendedMarker
  {
    if row.conditionFlag then row.result + " " + IntendedMarker else row.result
  }

  /**
   * The raw result texts whose key can be rebuilt from their row: "Pass",
   * "Pass w/ Conditions", and any text with neither "Pass" nor the marker
   * ("Fail", "No Entry", "Out of Business", ...).
   */
  predicate RebuildableResult(raw: string) {
    raw == "Pass" || raw == "Pass " + IntendedMarker
    || (!Contains(raw, "Pass") && !Contains(raw, IntendedMarker))
  }

  lemma PassFacts()
    ensures Contains("Pass", "Pass") && !Contains("Pass", IntendedMarker)
    ensures Contains("Pass " + IntendedMarker, "Pass") && Contains("Pass " + IntendedMarker, IntendedMarker)
  {
    assert OccursAt("Pass", "Pass", 0);
    LongerNotContained("Pass", IntendedMarker);
    assert OccursAt("Pass " + IntendedMarker, "Pass", 0);
    assert OccursAt("Pass " + IntendedMarker, IntendedMarker, 5);
  }

  /** With the intended marker, every rebuildable raw text is its own row's key, so the merge finds its row. */
  lemma {:induction false} KeyRoundTrip(raw: string)
    requires RebuildableResult(raw)
    ensures ResultKey(NormalizeResult(IntendedMarker, raw)) == raw
  {
    PassFacts();
  }

  /**
   * As written, "Pass w/ Conditions" normalises to an unflagged "Pass", whose
   * key "Pass" differs from the raw text: the inspection merge does not find
   * a result row for a conditional pass.
   */
  lemma {:induction false} ConditionalPassLosesFlag()
    ensures NormalizeResult(WrittenMarker, "Pass " + IntendedMarker) == ResultRow("Pass", false)
    ensures ResultKeyAsWritten(NormalizeResult(WrittenMarker, "Pass " + IntendedMarker)) == Some("Pass")
    ensures NormalizeResult(IntendedMarker, "Pass " + IntendedMarker) == ResultRow("Pass", true)
  {
    PassFacts();
    var raw := "Pass " + IntendedMarker;
    forall i: nat | i <= |raw| - |WrittenMarker| ensures !OccursAt(raw, WrittenMarker, i) {
      assert raw[i] != WrittenMarker[0];
      assert raw[i..i + |WrittenMarker|][0] == raw[i];
    }
  }

  /** With the intended marker, the key rebuild as written raises on every conditional pass. */
  lemma ConditionalPassBreaksKeyRebuild()
    ensures ResultKeyAsWritten(NormalizeResult(IntendedMarker, "Pass " + IntendedMarker)).None?
  {
    PassFacts();
  }

  /** Two result texts from the dataset: "Fail" is kept unflagged, "Pass" stays "Pass". */
  lemma NormalizeExamples()
    ensures NormalizeResult(IntendedMarker, "Fail") == ResultRow("Fail", false)
    ensures NormalizeResult(IntendedMarker, "Pass") == ResultRow("Pass", false)
  {
    PassFacts();
    LongerNotContained("Fail", IntendedMarker);
  }
}
