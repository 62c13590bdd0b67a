/** Sequence helpers: Python's `list(set(xs))` and list concatenation. */
module Collections {

  /** No value occurs twice in `s`. */
  predicate NoDuplicates<T(==)>(s: seq<T>) {
    forall i, j :: 0 <= i < j < |s| ==> s[i] != s[j]
  }

  /**
   * `list(set(s))`: every value of `s` exactly once. Python gives no order
   * guarantee, so the contract speaks only of membership and distinctness.
   */
  function Distinct<T(==)>(s: seq<T>): (r: seq<T>)
    ensures forall i :: 0 <= i < |r| ==> r[i] in s
    ensures forall i :: 0 <= i < |s| ==> s[i] in r
    ensures NoDuplicates(r)
    ensures |r| <= |s|
  {
    if s == [] then []
    else
      var rest := Distinct(s[1..]);
      if s[0] in rest then rest else [s[0]] + rest
  }

  /** `list(set(f(x) for x in xs))`: every image once, and nothing else. */
  function DistinctMap<A, B(==)>(xs: seq<A>, f: A -> B): (r: seq<B>)
    ensures NoDuplicates(r)
    ensures forall k :: 0 <= k < |xs| ==> f(xs[k]) in r
    ensures forall j :: 0 <= j < |r| ==> exists k :: 0 <= k < |xs| && r[j] == f(xs[k])
  {
    var all := seq(|xs|, k requires 0 <= k < |xs| => f(xs[k]));
    var r := Distinct(all);
    assert forall k :: 0 <= k < |xs| ==> all[k] == f(xs[k]);
    r
  }

  /** Concatenation of a list of lists, in order (`pd.concat`, a stacked frame). */
  function Flatten<T>(ss: seq<seq<T>>): seq<T> {
    if ss == [] then [] else ss[0] + Flatten(ss[1..])
  }

  lemma {:induction false} FlattenAppend<T>(a: seq<seq<T>>, b: seq<seq<T>>)
    ensures Flatten(a + b) == Flatten(a) + Flatten(b)
  {
    if a != [] {
      assert (a + b)[1..] == a[1..] + b;
      FlattenAppend(a[1..], b);
    } else {
      assert a + b == b;
    }
  }
}
