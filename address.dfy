/**
 * `reverseTuple` and `extractAddress`: turn the tagged tokens of the address
 * parser into the six address components, then remove "nan" from each.
 *
 * The parser itself (`usaddress.parse`) is a foreign library: its output, a
 * list of `(token, tag)` pairs, or its failure, is an input here.
 */
module Address {
  import opened Wrappers
  import opened Strings

  /** What the address parser gave back: tagged tokens, or an exception. */
  datatype ParseOutcome = Parsed(tagged: seq<(string, string)>) | Failed

  /** The six components `extractAddress` returns, in its order. */
  datatype AddressParts = AddressParts(
    number: string, direction: string, street: string, city: string, state: string, zip: string)

  const Blank := AddressParts("", "", "", "", "", "")

  /** `reverseTuple`: `(token, label)` becomes `(label, token)`. */
  function ReverseTuple(p: (string, string)): (r: (string, string))
    ensures r.0 == p.1 && r.1 == p.0
  {
    (p.1, p.0)
  }

  /** Reversing twice gives the pair back. */
  lemma ReverseTwice(p: (string, string))
    ensures ReverseTuple(ReverseTuple(p)) == p
  {
  }

  /** The token of the last pair carrying `tag`, scanning from the end. */
  function LastToken(tagged: seq<(string, string)>, tag: string): Option<string> {
    if tagged == [] then None
    else if tagged[|tagged| - 1].1 == tag then Some(tagged[|tagged| - 1].0)
    else LastToken(tagged[..|tagged| - 1], tag)
  }

  /** `dict(map(reverseTuple, tagged))`: later pairs overwrite earlier ones. */
  function LabelMap(tagged: seq<(string, string)>): (m: map<string, string>)
    ensures forall k :: 0 <= k < |tagged| ==> tagged[k].1 in m
    ensures forall l :: l in m ==> exists k :: 0 <= k < |tagged| && tagged[k].1 == l
  {
    if tagged == [] then map[]
    else
      var entry := ReverseTuple(tagged[|tagged| - 1]);
      var m := LabelMap(tagged[..|tagged| - 1]);
      assert forall k :: 0 <= k < |tagged| - 1 ==> tagged[k] == tagged[..|tagged| - 1][k];
      m[entry.0 := entry.1]
  }

  /** When a label repeats, the dictionary keeps the token of its last pair. */
  lemma {:induction false} LastTokenWins(tagged: seq<(string, string)>, tag: string)
    ensures tag in LabelMap(tagged) <==> LastToken(tagged, tag).Some?
    ensures tag in LabelMap(tagged) ==> LabelMap(tagged)[tag] == LastToken(tagged, tag).value
  {
    if tagged != [] {
      LastTokenWins(tagged[..|tagged| - 1], tag);
    }
  }

  /** The token for `tag`, or "" when the parser found none. */
  function Component(m: map<string, string>, tag: string): (c: string)
    ensures tag !in m ==> c == ""
    ensures tag in m ==> c == m[tag]
  {
    if tag in m then m[tag] else ""
  }

  /** The street: name, post type and occupancy when all three exist; else name and post type; else the name. */
  function Street(m: map<string, string>): string {
    if "StreetName" in m && "StreetNamePostType" in m && "OccupancyIdentifier" in m then
      m["StreetName"] + " " + m["StreetNamePostType"] + " " + m["OccupancyIdentifier"]
    else if "StreetName" in m && "StreetNamePostType" in m then
      m["StreetName"] + " " + m["StreetNamePostType"]
    else if "StreetName" in m then
      m["StreetName"]
    else ""
  }

  /** `s.replace('nan', '')`. */
  function RemoveNaN(s: string): (r: string)
    ensures |r| <= |s|
    ensures !Contains(s, "nan") ==> r == s
  {
    RemoveUnchanged(s);
    RemoveShrinks(s, "nan");
    ReplaceAll(s, "nan", "")
  }

  lemma RemoveUnchanged(s: string)
    ensures !Contains(s, "nan") ==> ReplaceAll(s, "nan", "") == s
  {
    if !Contains(s, "nan") {
      ReplaceAbsent(s, "nan", "");
    }
  }

  lemma {:induction false} RemoveShrinks(s: string, pat: string)
    requires |pat| > 0
    ensures |ReplaceAll(s, pat, "")| <= |s|
    decreases |s|
  {
    if |pat| <= |s| && s[..|pat|] == pat {
      RemoveShrinks(s[|pat|..], pat);
    } else if s != [] {
      RemoveShrinks(s[1..], pat);
    }
  }

  /** The components before "nan" removal. */
  function RawParts(outcome: ParseOutcome): AddressParts {
    match outcome
    case Failed => Blank
    case Parsed(tagged) =>
      var m := LabelMap(tagged);
      AddressParts(Component(m, "AddressNumber"), Component(m, "StreetNamePreDirectional"), Street(m),
                   Component(m, "PlaceName"), Component(m, "StateName"), Component(m, "ZipCode"))
  }

  /** `extractAddress`: the components of the parse, each with "nan" removed. */
  function ExtractAddress(outcome: ParseOutcome): (a: AddressParts)
    ensures outcome.Failed? ==> a == Blank
    ensures var raw := RawParts(outcome);
      a == AddressParts(RemoveNaN(raw.number), RemoveNaN(raw.direction), RemoveNaN(raw.street),
                        RemoveNaN(raw.city), RemoveNaN(raw.state), RemoveNaN(raw.zip))
  {
    var raw := RawParts(outcome);
    RemoveUnchanged("");
    AddressParts(RemoveNaN(raw.number), RemoveNaN(raw.direction), RemoveNaN(raw.street),
                 RemoveNaN(raw.city), RemoveNaN(raw.state), RemoveNaN(raw.zip))
  }

  /**
   * The street rule in terms of the parser's pairs: with name, post type and
   * occupancy all tagged they are joined by single spaces; otherwise name and
   * post type; otherwise the name alone; otherwise "". Each is the token of
   * the last pair carrying that label.
   */
  lemma StreetAssembly(tagged: seq<(string, string)>)
    ensures var name, post, occ := LastToken(tagged, "StreetName"), LastToken(tagged, "StreetNamePostType"),
                                   LastToken(tagged, "OccupancyIdentifier");
      RawParts(Parsed(tagged)).street ==
        if name.Some? && post.Some? && occ.Some? then name.value + " " + post.value + " " + occ.value
        else if name.Some? && post.Some? then name.value + " " + post.value
        else if name.Some? then name.value
        else ""
  {
    LastTokenWins(tagged, "StreetName");
    LastTokenWins(tagged, "StreetNamePostType");
    LastTokenWins(tagged, "OccupancyIdentifier");
  }

  /** Every other component is the last token with its label, or "" when none is tagged. */
  lemma ComponentsFromTokens(tagged: seq<(string, string)>)
    ensures RawParts(Parsed(tagged)).number == LastToken(tagged, "AddressNumber").GetOr("")
    ensures RawParts(Parsed(tagged)).direction == LastToken(tagged, "StreetNamePreDirectional").GetOr("")
    ensures RawParts(Parsed(tagged)).city == LastToken(tagged, "PlaceName").GetOr("")
    ensures RawParts(Parsed(tagged)).state == LastToken(tagged, "StateName").GetOr("")
    ensures RawParts(Parsed(tagged)).zip == LastToken(tagged, "ZipCode").GetOr("")
  {
    LastTokenWins(tagged, "AddressNumber");
    LastTokenWins(tagged, "StreetNamePreDirectional");
    LastTokenWins(tagged, "PlaceName");
    LastTokenWins(tagged, "StateName");
    LastTokenWins(tagged, "ZipCode");
  }

  /** An empty address parses to no tokens, and every component is "". */
  lemma EmptyParseIsBlank()
    ensures ExtractAddress(Parsed([])) == Blank
  {
    LongerNotContained("", "nan");
  }

  /**
   * The removal is a single left-to-right pass: "nnanan" loses the "nan" at
   * index 1 and keeps the one its removal brings together.
   */
  lemma SinglePassRemoval()
    ensures RemoveNaN("nnanan") == "nan"
    ensures ExtractAddress(Parsed([("nnanan", "PlaceName")])).city == "nan"
  {
    var s := "nnanan";
    assert s[..3] != "nan" by { assert s[1] != "nan"[1]; }
    assert s[1..][..3] == "nan";
    assert s[1..][3..] == "an";
    assert "an"[1..] == "n";
    assert ReplaceAll("", "nan", "") == "";
    assert ReplaceAll("n", "nan", "") == "n";
    assert ReplaceAll("an", "nan", "") == "an";
    assert ReplaceAll(s[1..], "nan", "") == "an";
    assert ReplaceAll(s, "nan", "") == "nan";
    var tagged := [("nnanan", "PlaceName")];
    assert LabelMap(tagged) == map["PlaceName" := "nnanan"] by {
      assert tagged[..0] == [];
    }
  }
}
