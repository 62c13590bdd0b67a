/**
 * The `risk` reference table: each distinct risk text with its tier, the
 * risk id. The tier is decided by the first of the digits 1, 2, 3 the text
 * contains; a text with none of them is tier 4.
 */
module Risks {
  import opened Wrappers
  import opened Strings
  import opened Collections
  import opened Records

  /** A row of the `risk` table: `(risk_id, risk)`. */
  datatype RiskRow = RiskRow(riskId: int, risk: string)

  /** The one-character text of digit `d`. */
  function DigitText(d: int): string
    requires 1 <= d <= 3
  {
    if d == 1 then "1" else if d == 2 then "2" else "3"
  }

  /** The tier of a risk text: the smallest digit among 1, 2, 3 that it contains, or 4. */
  function Tier(risk: string): (t: int)
    ensures 1 <= t <= 4
    ensures t < 4 ==> Contains(risk, DigitText(t))
    ensures forall d :: 1 <= d < t ==> !Contains(risk, DigitText(d))
  {
    if Contains(risk, "1") then 1
    else if Contains(risk, "2") then 2
    else if Contains(risk, "3") then 3
    else 4
  }

  /** The distinct text cells, without those that print as "nan". */
  function DropNaN(cells: seq<Option<string>>): (r: seq<string>)
    ensures forall k :: 0 <= k < |r| ==> Some(r[k]) in cells && r[k] != "nan"
    ensures forall k :: 0 <= k < |cells| && PyStr(cells[k]) != "nan" ==> cells[k].value in r
    ensures NoDuplicates(cells) ==> NoDuplicates(r)
  {
    if cells == [] then []
    else
      var rest := DropNaN(cells[1..]);
      assert forall k :: 1 <= k < |cells| ==> cells[k] == cells[1..][k - 1];
      if PyStr(cells[0]) != "nan" then [cells[0].value] + rest else rest
  }

  /** `[x for x in list(set(df.risk)) if str(x) != 'nan']`. */
  function RiskValues(column: seq<Option<string>>): (r: seq<string>)
    ensures NoDuplicates(r)
    ensures forall s :: s in r <==> Some(s) in column && s != "nan"
  {
    var d := Distinct(column);
    var r := DropNaN(d);
    assert forall s :: Some(s) in column && s != "nan" ==> s in r by {
      forall s | Some(s) in column && s != "nan" ensures s in r {
        var k :| 0 <= k < |d| && d[k] == Some(s);
      }
    }
    r
  }

  /**
   * The risk cell: the distinct risk texts, minus "nan", each paired with its
   * tier by the if/elif chain over "1", "2" and "3".
   */
  method RiskRecords(column: seq<Option<string>>) returns (records: seq<RiskRow>)
    ensures |records| == |RiskValues(column)|
    ensures forall k :: 0 <= k < |records| ==> records[k] == RiskRow(Tier(RiskValues(column)[k]), RiskValues(column)[k])
    ensures forall j, k :: 0 <= j < k < |records| ==> records[j].risk != records[k].risk
    ensures forall s :: (exists k :: 0 <= k < |records| && records[k].risk == s) <==> Some(s) in column && s != "nan"
  {
    var risks := RiskValues(column);
    var nums: seq<int> := [];
    for i := 0 to |risks|
      invariant |nums| == i
      invariant forall j :: 0 <= j < i ==> nums[j] == Tier(risks[j])
    {
      if Contains(risks[i], "1") {
        nums := nums + [1];
      } else if Contains(risks[i], "2") {
        nums := nums + [2];
      } else if Contains(risks[i], "3") {
        nums := nums + [3];
      } else {
        nums := nums + [4];
      }
    }
    records := seq(|risks|, i requires 0 <= i < |risks| => RiskRow(nums[i], risks[i]));
    forall s | Some(s) in column && s != "nan" ensures exists k :: 0 <= k < |records| && records[k].risk == s {
      var k :| 0 <= k < |risks| && risks[k] == s;
      assert records[k].risk == s;
    }
  }

  /** The dataset's four risk texts get tiers 1, 2, 3 and 4. */
  lemma TierExamples()
    ensures Tier("Risk 1 (High)") == 1
    ensures Tier("Risk 2 (Medium)") == 2
    ensures Tier("Risk 3 (Low)") == 3
    ensures Tier("All") == 4
  {
    HighTier();
    MediumTier();
    LowTier();
    AllTier();
  }

  lemma HighTier()
    ensures Tier("Risk 1 (High)") == 1
  {
    assert OccursAt("Risk 1 (High)", "1", 5);
  }

  lemma MediumTier()
    ensures Tier("Risk 2 (Medium)") == 2
  {
    ContainsChar("Risk 2 (Medium)", '1');
    assert OccursAt("Risk 2 (Medium)", "2", 5);
  }

  lemma LowTier()
    ensures Tier("Risk 3 (Low)") == 3
  {
    ContainsChar("Risk 3 (Low)", '1');
    ContainsChar("Risk 3 (Low)", '2');
    assert OccursAt("Risk 3 (Low)", "3", 5);
  }

  lemma AllTier()
    ensures Tier("All") == 4
  {
    ContainsChar("All", '1');
    ContainsChar("All", '2');
    ContainsChar("All", '3');
  }

  /** An earlier digit wins: a text with both "1" and "3" is tier 1. */
  lemma EarlierDigitWins(risk: string)
    requires Contains(risk, "1") && Contains(risk, "3")
    ensures Tier(risk) == 1
  {
  }
}
