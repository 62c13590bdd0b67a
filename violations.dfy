/**
 * The `violation` and `inspection_violation` cells: each non-null violation
 * blob is split on "|" into pieces; each piece loses everything up to and
 * including its first ". " (the violation number) and is then cut at its first
 * "- Comments:" into violation text and comment. Nothing is trimmed.
 */
module Violations {
  import opened Wrappers
  import opened Strings
  import opened Collections
  import opened Records

  /** A row of `ins_vio_df`: the inspection, the violation text and the comment. */
  datatype ViolationEntry = ViolationEntry(inspectionId: int, violation: Option<string>, comment: Option<string>)

  const PieceSeparator := "|"
  const OrdinalSeparator := ". "
  const CommentMarker := "- Comments:"

  /** What follows the violation text in a piece: nothing, or the marker and the comment. */
  function CommentTail(comment: Option<string>): string {
    match comment
    case None => ""
    case Some(c) => CommentMarker + c
  }

  /** A piece without its violation number: what follows the first ". ", if any (see `SplitOnce`). */
  function AfterNumber(piece: string): Option<string> {
    SplitOnce(piece, OrdinalSeparator).1
  }

  /**
   * One piece: `str.split('. ', n=1)` then `str.split('- Comments:', n=1)`
   * on the second column. A piece without ". " has no second column, and both
   * results are missing. Otherwise the text after the number is the violation
   * followed by the comment tail, cut at the first marker.
   */
  function SplitPiece(piece: string): (r: (Option<string>, Option<string>))
    ensures r.0.None? <==> !Contains(piece, OrdinalSeparator)
    ensures r.0.None? ==> r.1.None?
    ensures r.0.Some? ==> AfterNumber(piece) == Some(r.0.value + CommentTail(r.1))
    ensures r.0.Some? ==> (r.1.Some? <==> Contains(AfterNumber(piece).value, CommentMarker))
    ensures r.0.Some? ==> NoneBefore(AfterNumber(piece).value, CommentMarker, |r.0.value|)
  {
    match AfterNumber(piece)
    case None => (None, None)
    case Some(text) =>
      var (violation, comment) := SplitOnce(text, CommentMarker);
      assert text == violation + CommentTail(comment) by {
        if comment.Some? {
          assert text == violation + (CommentMarker + comment.value);
        } else {
          assert violation + "" == violation;
        }
      }
      (Some(violation), comment)
  }

  /** The rows one record contributes: one per piece of its blob, none when the blob is missing. */
  function EntriesOf(rec: InspectionRecord): (es: seq<ViolationEntry>)
    ensures rec.violations.None? ==> es == []
    ensures rec.violations.Some? ==> |es| == |Split(rec.violations.value, PieceSeparator)|
    ensures forall k :: 0 <= k < |es| ==> es[k].inspectionId == rec.inspectionId
    ensures rec.violations.Some? ==> forall k :: 0 <= k < |es| ==>
      (es[k].violation, es[k].comment) == SplitPiece(Split(rec.violations.value, PieceSeparator)[k])
  {
    match rec.violations
    case None => []
    case Some(blob) =>
      var pieces := Split(blob, PieceSeparator);
      seq(|pieces|, k requires 0 <= k < |pieces| =>
        ViolationEntry(rec.inspectionId, SplitPiece(pieces[k]).0, SplitPiece(pieces[k]).1))
  }

  /** `ins_vio_df`: the rows of all records, record by record. */
  function InspectionViolationRows(recs: seq<InspectionRecord>): seq<ViolationEntry> {
    if recs == [] then [] else EntriesOf(recs[0]) + InspectionViolationRows(recs[1..])
  }

  /** Rows keep the order of the records they come from. */
  lemma {:induction false} RowsAppend(a: seq<InspectionRecord>, b: seq<InspectionRecord>)
    ensures InspectionViolationRows(a + b) == InspectionViolationRows(a) + InspectionViolationRows(b)
  {
    if a == [] {
      assert a + b == b;
    } else {
      assert (a + b)[1..] == a[1..] + b;
      RowsAppend(a[1..], b);
    }
  }

  /** Every row belongs to a record whose violation blob is present, and carries its id. */
  lemma {:induction false} RowsFromBlobs(recs: seq<InspectionRecord>, k: nat)
    requires k < |InspectionViolationRows(recs)|
    ensures exists r :: r in recs && r.violations.Some? && r.inspectionId == InspectionViolationRows(recs)[k].inspectionId
  {
    var head := EntriesOf(recs[0]);
    if k < |head| {
      assert recs[0] in recs;
    } else {
      RowsFromBlobs(recs[1..], k - |head|);
      var r :| r in recs[1..] && r.violations.Some? && r.inspectionId == InspectionViolationRows(recs[1..])[k - |head|].inspectionId;
      assert r in recs;
    }
  }

  /** The `violation` table's rows: every violation text once. */
  function ViolationTexts(entries: seq<ViolationEntry>): (texts: seq<Option<string>>)
    ensures NoDuplicates(texts)
    ensures forall k :: 0 <= k < |entries| ==> entries[k].violation in texts
    ensures forall j :: 0 <= j < |texts| ==> exists k :: 0 <= k < |entries| && entries[k].violation == texts[j]
  {
    DistinctMap(entries, (e: ViolationEntry) => e.violation)
  }

  /** A blob of two pieces with no "|" inside them splits into exactly those two pieces. */
  lemma SplitTwo(p1: string, p2: string)
    requires '|' !in p1 && '|' !in p2
    ensures Split(p1 + PieceSeparator + p2, PieceSeparator) == [p1, p2]
  {
    var blob := p1 + PieceSeparator + p2;
    assert OccursAt(blob, PieceSeparator, |p1|);
    forall j: nat | j < |p1| ensures !OccursAt(blob, PieceSeparator, j) {
      assert blob[j] == p1[j];
    }
    FirstOccurrence(blob, PieceSeparator, |p1|);
    SplitStep(blob, PieceSeparator, |p1|);
    assert blob[..|p1|] == p1;
    assert blob[|p1| + 1..] == p2;
    ContainsChar(p2, '|');
    assert Split(p2, PieceSeparator) == [p2];
  }

  /** The occurrence at `i`, with none before it, is the one `Find` reports. */
  lemma FirstOccurrence(s: string, pat: string, i: nat)
    requires OccursAt(s, pat, i)
    requires forall j: nat :: j < i ==> !OccursAt(s, pat, j)
    ensures Find(s, pat) == Some(i)
  {
  }

  /** A piece built from a number, a text and a comment splits back into text and comment. */
  lemma PieceExample(number: string, text: string, comment: string)
    requires '.' !in number && '-' !in text
    ensures SplitPiece(number + OrdinalSeparator + text + CommentMarker + comment) == (Some(text), Some(comment))
  {
    var piece := number + OrdinalSeparator + text + CommentMarker + comment;
    assert OccursAt(piece, OrdinalSeparator, |number|);
    forall j: nat | j < |number| ensures !OccursAt(piece, OrdinalSeparator, j) {
      assert piece[j] == number[j];
    }
    FirstOccurrence(piece, OrdinalSeparator, |number|);
    var rest := piece[|number| + 2..];
    assert rest == text + CommentMarker + comment;
    assert OccursAt(rest, CommentMarker, |text|);
    forall j: nat | j < |text| ensures !OccursAt(rest, CommentMarker, j) {
      assert rest[j] == text[j];
    }
    FirstOccurrence(rest, CommentMarker, |text|);
    assert rest[..|text|] == text;
    assert rest[|text| + |CommentMarker|..] == comment;
  }

  /**
   * A blob of two pieces, each a number, ". ", a text, "- Comments:" and a
   * comment, gives two rows for its inspection whose texts and comments are
   * exactly those parts, spaces included. For example
   * "18. COMMENT HERE - Comments: fix the sink | 22. OTHER - Comments: fix the door"
   * gives ("COMMENT HERE ", " fix the sink ") and ("OTHER ", " fix the door").
   */
  lemma TwoPieceBlob(rec: InspectionRecord, n1: string, t1: string, c1: string, n2: string, t2: string, c2: string)
    requires '.' !in n1 && '-' !in t1 && '.' !in n2 && '-' !in t2
    requires '|' !in n1 && '|' !in t1 && '|' !in c1 && '|' !in n2 && '|' !in t2 && '|' !in c2
    requires rec.violations == Some(n1 + OrdinalSeparator + t1 + CommentMarker + c1 + PieceSeparator
                                    + n2 + OrdinalSeparator + t2 + CommentMarker + c2)
    ensures EntriesOf(rec) == [
      ViolationEntry(rec.inspectionId, Some(t1), Some(c1)),
      ViolationEntry(rec.inspectionId, Some(t2), Some(c2))]
  {
    var p1 := n1 + OrdinalSeparator + t1 + CommentMarker + c1;
    var p2 := n2 + OrdinalSeparator + t2 + CommentMarker + c2;
    assert Split(rec.violations.value, PieceSeparator) == [p1, p2] by {
      assert rec.violations.value == p1 + PieceSeparator + p2;
      assert '|' !in OrdinalSeparator && '|' !in CommentMarker;
      SplitTwo(p1, p2);
    }
    PieceExample(n1, t1, c1);
    PieceExample(n2, t2, c2);
    EntriesOfTwo(rec, p1, p2);
  }

  lemma EntriesOfTwo(rec: InspectionRecord, p1: string, p2: string)
    requires rec.violations.Some? && Split(rec.violations.value, PieceSeparator) == [p1, p2]
    ensures EntriesOf(rec) == [
      ViolationEntry(rec.inspectionId, SplitPiece(p1).0, SplitPiece(p1).1),
      ViolationEntry(rec.inspectionId, SplitPiece(p2).0, SplitPiece(p2).1)]
  {
  }
}
