// Mine placement by retry-on-duplicate: each random draw is kept unless it
// repeats a coordinate already chosen. The draws are given as a sequence.

module Placement {

  import opened Cells

  /** No element of s occurs twice. */
  predicate Distinct(s: seq<Coord>)
  {
    forall i, j :: 0 <= i < j < |s| ==> s[i] != s[j]
  }

  /**
   * The draws that a retry-on-duplicate loop keeps, in the order it keeps
   * them: s with every repeated occurrence of an element removed.
   */
  function Dedup(s: seq<Coord>): (d: seq<Coord>)
    ensures Distinct(d)
    ensures forall x :: x in d <==> x in s
    ensures |d| <= |s|
  {
    if |s| == 0 then []
    else
      var kept := Dedup(s[..|s| - 1]);
      if s[|s| - 1] in kept then kept else kept + [s[|s| - 1]]
  }

  /** Keeping draws from a longer run of draws only adds to the end. */
  lemma {:induction false} DedupPrefix(s: seq<Coord>, i: int)
    requires 0 <= i <= |s|
    ensures |Dedup(s[..i])| <= |Dedup(s)|
    ensures Dedup(s[..i]) == Dedup(s)[..|Dedup(s[..i])|]
  {
    if i < |s| {
      assert s[..|s| - 1][..i] == s[..i];
      DedupPrefix(s[..|s| - 1], i);
    } else {
      assert s[..i] == s;
    }
  }

  /** The number of distinct elements of s. */
  lemma {:induction false} DedupCountsElements(s: seq<Coord>)
    ensures |Dedup(s)| == |set x | x in s|
  {
    var d := Dedup(s);
    DistinctCard(d);
    assert (set x | x in s) == (set x | x in d);
  }

  lemma {:induction false} DistinctCard(s: seq<Coord>)
    requires Distinct(s)
    ensures |set x | x in s| == |s|
  {
    if |s| > 0 {
      var init := s[..|s| - 1];
      DistinctCard(init);
      assert (set x | x in s) == (set x | x in init) + {s[|s| - 1]};
      assert s[|s| - 1] !in init;
    }
  }
}
