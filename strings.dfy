/**
 * The Python string operations the pipeline relies on: substring tests
 * (`pat in s`), `str.split(sep)`, pandas' `str.split(sep, n=1)`,
 * `str.replace(old, new)` and slicing.
 */
module Strings {
  import opened Wrappers

  /** `pat` occurs in `s` starting at index `i`. */
  predicate OccursAt(s: string, pat: string, i: nat) {
    i + |pat| <= |s| && s[i..i + |pat|] == pat
  }

  /** `pat` does not start anywhere before index `n` of `s`. */
  predicate NoneBefore(s: string, pat: string, n: nat) {
    forall j: nat :: j < n ==> !OccursAt(s, pat, j)
  }

  /** Python's `pat in s`. */
  predicate Contains(s: string, pat: string) {
    exists i: nat :: i <= |s| - |pat| && OccursAt(s, pat, i)
  }

  /** The first occurrence of `pat` in `s` at or after `from`. */
  function FindFrom(s: string, pat: string, from: nat): (r: Option<nat>)
    ensures r.Some? ==> from <= r.value && OccursAt(s, pat, r.value)
    ensures forall j: nat :: from <= j && (r.None? || j < r.value) ==> !OccursAt(s, pat, j)
    decreases |s| - from
  {
    if from + |pat| > |s| then None
    else if s[from..from + |pat|] == pat then Some(from)
    else FindFrom(s, pat, from + 1)
  }

  /** Python's `s.find(pat)`, with `None` for -1. */
  function Find(s: string, pat: string): (r: Option<nat>)
    ensures r.None? <==> !Contains(s, pat)
    ensures r.Some? ==> OccursAt(s, pat, r.value)
    ensures r.Some? ==> forall j: nat :: j < r.value ==> !OccursAt(s, pat, j)
  {
    FindFrom(s, pat, 0)
  }

  /** A single character is contained exactly when it is a member. */
  lemma ContainsChar(s: string, c: char)
    ensures Contains(s, [c]) <==> c in s
  {
    if c in s {
      var i :| 0 <= i < |s| && s[i] == c;
      assert OccursAt(s, [c], i);
    }
    if Contains(s, [c]) {
      var i: nat :| i <= |s| - 1 && OccursAt(s, [c], i);
      assert s[i] == s[i..i + 1][0];
    }
  }

  /** A pattern longer than the text never occurs in it. */
  lemma LongerNotContained(s: string, pat: string)
    requires |s| < |pat|
    ensures !Contains(s, pat)
  {
  }

  /**
   * pandas' `s.str.split(sep, n=1, expand=True)` on one cell: the text before
   * the first `sep`, and the text after it (`None` when `sep` does not occur).
   */
  function SplitOnce(s: string, sep: string): (r: (string, Option<string>))
    ensures r.1.None? <==> !Contains(s, sep)
    ensures r.1.None? ==> r.0 == s
    ensures r.1.Some? ==> r.0 + sep + r.1.value == s
    ensures r.1.Some? ==> NoneBefore(s, sep, |r.0|) && Find(s, sep) == Some(|r.0|)
  {
    match Find(s, sep)
    case None => (s, None)
    case Some(i) =>
      assert s == s[..i] + sep + s[i + |sep|..];
      (s[..i], Some(s[i + |sep|..]))
  }

  /** Python's `s.split(sep)`: the pieces between the non-overlapping occurrences of `sep`, left to right. */
  function Split(s: string, sep: string): (r: seq<string>)
    requires |sep| > 0
    ensures |r| >= 1
    decreases |s|
  {
    match Find(s, sep)
    case None => [s]
    case Some(i) => [s[..i]] + Split(s[i + |sep|..], sep)
  }

  /** No piece contains the separator. */
  lemma {:induction false} SplitPiecesFree(s: string, sep: string)
    requires |sep| > 0
    ensures forall k :: 0 <= k < |Split(s, sep)| ==> !Contains(Split(s, sep)[k], sep)
    decreases |s|
  {
    var f := Find(s, sep);
    if f.Some? {
      var i := f.value;
      var rest := Split(s[i + |sep|..], sep);
      assert NoneBefore(s, sep, i);
      HeadFree(s, sep, i);
      SplitPiecesFree(s[i + |sep|..], sep);
      assert Split(s, sep) == [s[..i]] + rest;
      forall k | 0 <= k < |Split(s, sep)| ensures !Contains(Split(s, sep)[k], sep) {
        if k > 0 {
          assert Split(s, sep)[k] == rest[k - 1];
        }
      }
    }
  }

  /** The text before the first occurrence does not contain the pattern. */
  lemma HeadFree(s: string, sep: string, i: nat)
    requires |sep| > 0 && i <= |s| && NoneBefore(s, sep, i)
    ensures !Contains(s[..i], sep)
  {
    var head := s[..i];
    forall j: nat | j <= |head| - |sep| && OccursAt(head, sep, j) ensures false {
      assert s[j..j + |sep|] == head[j..j + |sep|];
      assert OccursAt(s, sep, j);
    }
  }

  /** Python's `sep.join(pieces)`. */
  function Join(pieces: seq<string>, sep: string): string {
    if pieces == [] then ""
    else if |pieces| == 1 then pieces[0]
    else pieces[0] + sep + Join(pieces[1..], sep)
  }

  /** Joining a piece in front of at least one more piece puts one separator between them. */
  lemma JoinCons(head: string, tail: seq<string>, sep: string)
    requires |tail| >= 1
    ensures Join([head] + tail, sep) == head + sep + Join(tail, sep)
  {
    assert ([head] + tail)[1..] == tail;
  }

  /** One step of `Split`: the text before the first separator, then the split of the rest. */
  lemma SplitStep(s: string, sep: string, i: nat)
    requires |sep| > 0 && Find(s, sep) == Some(i)
    ensures Split(s, sep) == [s[..i]] + Split(s[i + |sep|..], sep)
    ensures s == s[..i] + sep + s[i + |sep|..]
  {
    assert OccursAt(s, sep, i);
    SliceAround(s, i, |sep|);
  }

  lemma SliceAround(s: string, i: nat, n: nat)
    requires i + n <= |s|
    ensures s == s[..i] + s[i..i + n] + s[i + n..]
  {
  }

  /** Splitting and joining again gives back the text: no character is lost or reordered. */
  lemma {:induction false} SplitJoin(s: string, sep: string)
    requires |sep| > 0
    ensures Join(Split(s, sep), sep) == s
    decreases |s|
  {
    match Find(s, sep)
    case None =>
    case Some(i) =>
      var rest := s[i + |sep|..];
      SplitJoin(rest, sep);
      SplitStep(s, sep, i);
      JoinCons(s[..i], Split(rest, sep), sep);
  }

  /**
   * Python's `s.replace(pat, rep)`: scans left to right, and each occurrence
   * found is replaced and skipped, so occurrences never overlap.
   */
  function ReplaceAll(s: string, pat: string, rep: string): (r: string)
    requires |pat| > 0
    decreases |s|
  {
    if |pat| <= |s| && s[..|pat|] == pat then rep + ReplaceAll(s[|pat|..], pat, rep)
    else if s == [] then []
    else [s[0]] + ReplaceAll(s[1..], pat, rep)
  }

  /** Text before the first occurrence passes through `ReplaceAll` unchanged. */
  lemma {:induction false} ReplaceCleanPrefix(s: string, pat: string, rep: string, i: nat)
    requires |pat| > 0 && i <= |s|
    requires NoneBefore(s, pat, i)
    ensures ReplaceAll(s, pat, rep) == s[..i] + ReplaceAll(s[i..], pat, rep)
    decreases i
  {
    if i > 0 {
      var t := s[1..];
      ReplaceSkip(s, pat, rep);
      NoneBeforeShift(s, pat, i);
      ReplaceCleanPrefix(t, pat, rep, i - 1);
      assert t[i - 1..] == s[i..];
      assert s[..i] == [s[0]] + t[..i - 1];
    }
  }

  /** A character that does not start an occurrence is copied. */
  lemma ReplaceSkip(s: string, pat: string, rep: string)
    requires |pat| > 0 && s != [] && !OccursAt(s, pat, 0)
    ensures ReplaceAll(s, pat, rep) == [s[0]] + ReplaceAll(s[1..], pat, rep)
  {
  }

  /** Dropping the first character shifts the occurrence-free prefix by one. */
  lemma NoneBeforeShift(s: string, pat: string, i: nat)
    requires 0 < i <= |s| && NoneBefore(s, pat, i)
    ensures !OccursAt(s, pat, 0) && NoneBefore(s[1..], pat, i - 1)
  {
    assert !OccursAt(s, pat, 0);
    var t := s[1..];
    forall j: nat | j < i - 1 ensures !OccursAt(t, pat, j) {
      assert !OccursAt(s, pat, j + 1);
      if j + |pat| <= |t| {
        assert t[j..j + |pat|] == s[j + 1..j + 1 + |pat|];
      }
    }
  }

  /** An occurrence at the front is replaced. */
  lemma ReplaceAtMatch(s: string, pat: string, rep: string)
    requires |pat| > 0 && OccursAt(s, pat, 0)
    ensures ReplaceAll(s, pat, rep) == rep + ReplaceAll(s[|pat|..], pat, rep)
  {
  }

  /** A text without `pat` is left unchanged. */
  lemma ReplaceAbsent(s: string, pat: string, rep: string)
    requires |pat| > 0 && !Contains(s, pat)
    ensures ReplaceAll(s, pat, rep) == s
  {
    assert NoneBefore(s, pat, |s|);
    ReplaceCleanPrefix(s, pat, rep, |s|);
    assert s[..|s|] == s;
  }

  /** `s.replace(pat, rep)` is `rep.join(s.split(pat))`: both treat the same occurrences. */
  lemma {:induction false} ReplaceIsJoinOfSplit(s: string, pat: string, rep: string)
    requires |pat| > 0
    ensures ReplaceAll(s, pat, rep) == Join(Split(s, pat), rep)
    decreases |s|
  {
    match Find(s, pat)
    case None =>
      ReplaceAbsent(s, pat, rep);
    case Some(i) =>
      var rest := s[i + |pat|..];
      ReplaceStep(s, pat, rep, i);
      ReplaceIsJoinOfSplit(rest, pat, rep);
      SplitStep(s, pat, i);
      JoinCons(s[..i], Split(rest, pat), rep);
  }

  /** One step of `ReplaceAll`: the text before the first occurrence, `rep`, then the rest replaced. */
  lemma ReplaceStep(s: string, pat: string, rep: string, i: nat)
    requires |pat| > 0 && Find(s, pat) == Some(i)
    ensures ReplaceAll(s, pat, rep) == s[..i] + rep + ReplaceAll(s[i + |pat|..], pat, rep)
  {
    assert NoneBefore(s, pat, i);
    ReplaceCleanPrefix(s, pat, rep, i);
    ReplaceFrom(s, pat, rep, i);
    AppendAssoc(s[..i], rep, ReplaceAll(s[i + |pat|..], pat, rep));
  }

  lemma AppendAssoc<T>(a: seq<T>, b: seq<T>, c: seq<T>)
    ensures a + b + c == a + (b + c)
  {
  }

  /** Replacing from an occurrence puts `rep` in its place. */
  lemma ReplaceFrom(s: string, pat: string, rep: string, i: nat)
    requires |pat| > 0 && OccursAt(s, pat, i)
    ensures ReplaceAll(s[i..], pat, rep) == rep + ReplaceAll(s[i + |pat|..], pat, rep)
  {
    var t := s[i..];
    assert t[..|pat|] == s[i..i + |pat|];
    ReplaceAtMatch(t, pat, rep);
    assert t[|pat|..] == s[i + |pat|..];
  }

  /** Python's `s[:n]`: the first `n` characters, or all of `s` when it is shorter. */
  function Prefix(s: string, n: nat): (r: string)
    ensures |r| == if |s| < n then |s| else n
    ensures r == s[..|r|]
  {
    if |s| < n then s else s[..n]
  }
}
