/**
  Nearest-section lookup: which section's top edge is closest to the current
  vertical scroll offset. Offsets are whole pixels.
*/
module Nearest {
  import opened Sections

  /** A section element found in the page: its id and its top offset. */
  datatype Element = Element(id: string, offsetTop: int)

  /**
    The page as the navigator sees it: for each id that getElementById
    resolves, the offsetTop of that element.
  */
  type Document = map<string, int>

  /**
    The section elements that exist, in the order of ids: the list of ids
    mapped through getElementById with the missing ones filtered out.
  */
  function Present(ids: seq<string>, doc: Document): (r: seq<Element>)
    ensures |r| <= |ids|
    ensures forall k :: 0 <= k < |r| ==> r[k].id in ids && r[k].id in doc && r[k].offsetTop == doc[r[k].id]
  {
    if |ids| == 0 then []
    else
      var rest := Present(ids[1..], doc);
      if ids[0] in doc then [Element(ids[0], doc[ids[0]])] + rest else rest
  }

  /** Filtering drops only the missing elements: every id that resolves is kept. */
  lemma {:induction false} PresentComplete(ids: seq<string>, doc: Document, id: string)
    requires id in ids && id in doc
    ensures Element(id, doc[id]) in Present(ids, doc)
  {
    if ids[0] != id {
      assert id in ids[1..];
      PresentComplete(ids[1..], doc, id);
    }
  }

  /** When every section element exists, the filter keeps all of them, position for position. */
  lemma {:induction false} PresentAll(ids: seq<string>, doc: Document)
    requires forall id :: id in ids ==> id in doc
    ensures |Present(ids, doc)| == |ids|
    ensures forall k :: 0 <= k < |ids| ==> Present(ids, doc)[k] == Element(ids[k], doc[ids[k]])
  {
    if |ids| > 0 {
      assert ids[0] in doc;
      assert forall id :: id in ids[1..] ==> id in ids;
      PresentAll(ids[1..], doc);
      assert forall k :: 1 <= k < |ids| ==> ids[1..][k - 1] == ids[k];
    }
  }

  /**
    Filtering keeps the deck order: two kept elements come from positions
    p < q of ids, in the same order as they are kept.
  */
  lemma {:induction false} PresentInDeckOrder(ids: seq<string>, doc: Document, i: int, j: int)
    returns (p: int, q: int)
    requires 0 <= i < j < |Present(ids, doc)|
    ensures 0 <= p < q < |ids|
    ensures ids[p] == Present(ids, doc)[i].id && ids[q] == Present(ids, doc)[j].id
  {
    var r, rest := Present(ids, doc), Present(ids[1..], doc);
    if ids[0] in doc {
      assert r == [Element(ids[0], doc[ids[0]])] + rest;
      if i == 0 {
        assert r[j] == rest[j - 1] && r[j] in rest;
        var q' :| 0 <= q' < |ids[1..]| && ids[1..][q'] == r[j].id;
        p, q := 0, q' + 1;
      } else {
        var p', q' := PresentInDeckOrder(ids[1..], doc, i - 1, j - 1);
        assert r[i] == rest[i - 1] && r[j] == rest[j - 1];
        p, q := p' + 1, q' + 1;
      }
    } else {
      assert r == rest;
      var p', q' := PresentInDeckOrder(ids[1..], doc, i, j);
      p, q := p' + 1, q' + 1;
    }
  }

  /** Math.abs(offsetTop - top) */
  function Dist(offsetTop: int, top: int): (d: nat)
    ensures d == offsetTop - top || d == top - offsetTop
    ensures d == 0 <==> offsetTop == top
  {
    if offsetTop >= top then offsetTop - top else top - offsetTop
  }

  /**
    Position k holds the nearest element, and the first one among equals:
    no element is closer, and every earlier element is strictly farther.
  */
  ghost predicate IsNearest(s: seq<Element>, top: int, k: int) {
    && 0 <= k < |s|
    && (forall j :: 0 <= j < |s| ==> Dist(s[k].offsetTop, top) <= Dist(s[j].offsetTop, top))
    && (forall j :: 0 <= j < k ==> Dist(s[k].offsetTop, top) < Dist(s[j].offsetTop, top))
  }

  /** The characterisation leaves no choice. */
  lemma NearestUnique(s: seq<Element>, top: int, k1: int, k2: int)
    requires IsNearest(s, top, k1) && IsNearest(s, top, k2)
    ensures k1 == k2
  {
    assert Dist(s[k1].offsetTop, top) == Dist(s[k2].offsetTop, top);
    assert !(k1 < k2) && !(k2 < k1);
  }

  /** Reference definition, scanning from the right: the first element closest to top. */
  function FirstNearest(s: seq<Element>, top: int): (k: nat)
    requires |s| > 0
    ensures k < |s|
  {
    if |s| == 1 then 0
    else
      var k := 1 + FirstNearest(s[1..], top);
      if Dist(s[0].offsetTop, top) <= Dist(s[k].offsetTop, top) then 0 else k
  }

  lemma {:induction false} FirstNearestIsNearest(s: seq<Element>, top: int)
    requires |s| > 0
    ensures IsNearest(s, top, FirstNearest(s, top))
  {
    if |s| > 1 {
      FirstNearestIsNearest(s[1..], top);
      var k' := FirstNearest(s[1..], top);
      assert s[1..][k'] == s[k' + 1];
      forall j | 1 <= j < |s|
        ensures Dist(s[k' + 1].offsetTop, top) <= Dist(s[j].offsetTop, top)
        ensures j < k' + 1 ==> Dist(s[k' + 1].offsetTop, top) < Dist(s[j].offsetTop, top)
      {
        assert s[1..][j - 1] == s[j];
      }
    }
  }

  /** The id nearestSection returns; the first declared id when no element is present. */
  function NearestId(ids: seq<string>, doc: Document, top: int): (r: string)
    requires |ids| > 0
    ensures r in ids
    ensures r in doc || r == ids[0]
    ensures (forall id :: id in ids ==> id !in doc) ==> r == ids[0]
  {
    var s := Present(ids, doc);
    if |s| == 0 then ids[0]
    else
      assert s[FirstNearest(s, top)] in s;
      s[FirstNearest(s, top)].id
  }

  /** The best distance seen so far: starts at Infinity. */
  datatype Bound = Finite(d: nat) | Infinity

  /** d < bestDist */
  predicate Below(d: nat, b: Bound) {
    b.Infinity? || d < b.d
  }

  /** nearestSection: one pass over the present elements keeping the closest; a tie keeps the earlier. */
  method NearestSection(ids: seq<string>, doc: Document, top: int) returns (best: string)
    requires |ids| > 0
    ensures best == NearestId(ids, doc, top)
  {
    var sections := Present(ids, doc);
    best := if |sections| > 0 && sections[0].id != "" then sections[0].id else ids[0];
    var bestDist := Infinity;
    ghost var k := 0;
    var i := 0;
    while i < |sections|
      invariant 0 <= i <= |sections|
      invariant |sections| == 0 ==> best == ids[0]
      invariant i == 0 ==> bestDist == Infinity
      invariant 0 < i ==> && 0 <= k < i
                          && best == sections[k].id
                          && bestDist == Finite(Dist(sections[k].offsetTop, top))
                          && IsNearest(sections[..i], top, k)
    {
      var d := Dist(sections[i].offsetTop, top);
      ghost var prefix := sections[..i + 1];
      assert forall j :: 0 <= j < i ==> prefix[j] == sections[..i][j];
      if Below(d, bestDist) {
        best, bestDist, k := sections[i].id, Finite(d), i;
      }
      assert IsNearest(prefix, top, k);
      i := i + 1;
    }
    if |sections| > 0 {
      assert sections[..i] == sections;
      FirstNearestIsNearest(sections, top);
      NearestUnique(sections, top, k, FirstNearest(sections, top));
    }
  }

  /**
    Every present section is at least as far from top as the one returned,
    and one equally far is never earlier in the deck order.
  */
  lemma NearestIsClosest(ids: seq<string>, doc: Document, top: int, id: string)
    requires |ids| > 0 && Distinct(ids)
    requires id in ids && id in doc
    ensures NearestId(ids, doc, top) in doc
    ensures var best := NearestId(ids, doc, top);
            && Dist(doc[best], top) <= Dist(doc[id], top)
            && (Dist(doc[best], top) == Dist(doc[id], top) ==> IndexOf(ids, best) <= IndexOf(ids, id))
  {
    var s := Present(ids, doc);
    PresentComplete(ids, doc, id);
    var j :| 0 <= j < |s| && s[j] == Element(id, doc[id]);
    var k := FirstNearest(s, top);
    FirstNearestIsNearest(s, top);
    assert s[k] in s;
    assert NearestId(ids, doc, top) == s[k].id && doc[s[k].id] == s[k].offsetTop;
    assert Dist(s[k].offsetTop, top) <= Dist(s[j].offsetTop, top);
    if k < j {
      var p, q := PresentInDeckOrder(ids, doc, k, j);
      IndexOfDistinct(ids, p);
      IndexOfDistinct(ids, q);
    } else {
      assert Dist(s[k].offsetTop, top) == Dist(s[j].offsetTop, top) ==> k == j;
    }
  }

  /**
    When the scroll offset is exactly a section's top edge and no earlier
    section shares that edge, that section is the nearest.
  */
  lemma NearestAtSectionTop(ids: seq<string>, doc: Document, k: int)
    requires Distinct(ids) && 0 <= k < |ids|
    requires forall id :: id in ids ==> id in doc
    requires forall j :: 0 <= j < k ==> doc[ids[j]] != doc[ids[k]]
    ensures NearestId(ids, doc, doc[ids[k]]) == ids[k]
    ensures IndexOf(ids, NearestId(ids, doc, doc[ids[k]])) == k
  {
    IndexOfDistinct(ids, k);
    var s, top := Present(ids, doc), doc[ids[k]];
    PresentAll(ids, doc);
    assert Dist(s[k].offsetTop, top) == 0;
    assert IsNearest(s, top, k);
    FirstNearestIsNearest(s, top);
    NearestUnique(s, top, k, FirstNearest(s, top));
  }
}
