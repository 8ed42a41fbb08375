/**
  The ordered content list of the deck. The navigator only looks at the
  section ids: their order is both the visual order and the order in which
  the keyboard steps through the slides.
*/
module Sections {

  /** The ids of the deck's sections, in declaration order. */
  const Ids: seq<string> :=
    ["intro", "problem", "framework", "equity", "transparency", "guardrails", "measurement", "qa"]

  /** No id occurs twice: each id is a distinct anchor and navigation stop. */
  predicate Distinct(ids: seq<string>) {
    forall i, j :: 0 <= i < j < |ids| ==> ids[i] != ids[j]
  }

  lemma IdsDistinct()
    ensures |Ids| == 8 && Distinct(Ids)
  {
  }

  /** Array.prototype.indexOf: the position of the first occurrence of x, or -1. */
  function IndexOf(ids: seq<string>, x: string): (r: int)
    ensures r == -1 <==> x !in ids
    ensures -1 <= r < |ids|
    ensures 0 <= r ==> ids[r] == x && forall j :: 0 <= j < r ==> ids[j] != x
  {
    if |ids| == 0 then -1
    else if ids[0] == x then 0
    else
      var k := IndexOf(ids[1..], x);
      if k == -1 then -1 else k + 1
  }

  /** In a list without duplicates, indexOf finds every element at its own position. */
  lemma IndexOfDistinct(ids: seq<string>, k: int)
    requires Distinct(ids) && 0 <= k < |ids|
    ensures IndexOf(ids, ids[k]) == k
  {
  }
}
