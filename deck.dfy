/**
  The presentation view's state and its two event handlers: keydown
  (section jumps and the print toggle) and scroll (the quote overlay).
*/
module Deck {
  import opened Options
  import opened Sections
  import opened Nearest
  import opened Navigation
  import opened ScrollTracker

  /**
    The keydown handler as a value: the current section is the nearest one
    to scrollY, its index comes from indexOf over the deck's ids, and the key
    decides the rest.
  */
  function KeyDown(printMode: bool, doc: Document, scrollY: int, key: string): (r: KeyOutcome)
    ensures r.printMode != printMode <==> IsPrintKey(key)
    ensures r.target.Some? <==> IsNextKey(key) || IsPrevKey(key)
    ensures r.target.Some? ==> 0 <= r.target.value < |Ids|
    ensures var idx := IndexOf(Ids, NearestId(Ids, doc, scrollY));
            && 0 <= idx < |Ids| && Ids[idx] == NearestId(Ids, doc, scrollY)
            && (IsNextKey(key) ==> r.target == Some(if idx < |Ids| - 1 then idx + 1 else idx))
            && (IsPrevKey(key) ==> r.target == Some(if 0 < idx then idx - 1 else 0))
  {
    var idx := IndexOf(Ids, NearestId(Ids, doc, scrollY));
    Transition(printMode, idx, |Ids|, key)
  }

  /** With no section element in the page, navigation starts from the first section. */
  lemma KeyDownWithoutSections(printMode: bool, doc: Document, scrollY: int, key: string)
    requires forall id :: id in Ids ==> id !in doc
    ensures IsNextKey(key) ==> KeyDown(printMode, doc, scrollY, key).target == Some(1)
    ensures IsPrevKey(key) ==> KeyDown(printMode, doc, scrollY, key).target == Some(0)
  {
    IdsDistinct();
    IndexOfDistinct(Ids, 0);
  }

  /**
    Scrolled exactly to section k's top edge, with every section in the page
    and no earlier section at that same offset, ArrowDown targets the following section (the last one
    stays put) and ArrowUp the preceding one (the first one stays put).
  */
  lemma KeyDownAtSectionTop(printMode: bool, doc: Document, k: int, key: string)
    requires 0 <= k < |Ids|
    requires forall id :: id in Ids ==> id in doc
    requires forall j :: 0 <= j < k ==> doc[Ids[j]] != doc[Ids[k]]
    ensures IsNextKey(key) ==>
              KeyDown(printMode, doc, doc[Ids[k]], key) == KeyOutcome(printMode, Some(if k < |Ids| - 1 then k + 1 else k))
    ensures IsPrevKey(key) ==>
              KeyDown(printMode, doc, doc[Ids[k]], key) == KeyOutcome(printMode, Some(if 0 < k then k - 1 else k))
  {
    IdsDistinct();
    NearestAtSectionTop(Ids, doc, k);
  }

  /** The print key, pressed twice, restores the print mode and never scrolls. */
  lemma KeyDownPrintTwice(printMode: bool, doc1: Document, y1: int, doc2: Document, y2: int, key: string)
    requires IsPrintKey(key)
    ensures var first := KeyDown(printMode, doc1, y1, key);
            && first.target == None
            && KeyDown(first.printMode, doc2, y2, key).printMode == printMode
  {
  }

  /** The component's state: the print-mode flag and the quote-overlay flag. */
  class Deck {
    var printMode: bool
    var showQuote: bool

    /** Both flags start false when the view mounts. */
    constructor ()
      ensures !printMode && !showQuote
    {
      printMode, showQuote := false, false;
    }

    /**
      onKey: looks up the current section, computes the jump target for the
      navigation keys (the caller scrolls to it), and flips printMode on "p".
    */
    method OnKey(key: string, doc: Document, scrollY: int) returns (target: Option<int>)
      modifies this
      ensures printMode == KeyDown(old(printMode), doc, scrollY, key).printMode
      ensures target == KeyDown(old(printMode), doc, scrollY, key).target
      ensures showQuote == old(showQuote)
    {
      var ids := Ids;
      var curr := NearestSection(ids, doc, scrollY);
      var idx := IndexOf(ids, curr);
      target := None;
      if key == "ArrowDown" || key == "PageDown" {
        target := Some(Min(idx + 1, |ids| - 1));
      }
      if key == "ArrowUp" || key == "PageUp" {
        target := Some(Max(idx - 1, 0));
      }
      if Lower(key) == "p" {
        printMode := !printMode;
      }
    }

    /** handleScroll: the quote shows exactly when the current offset is past the threshold. */
    method HandleScroll(scrollY: int, scrollTop: int)
      modifies this
      ensures showQuote == QuoteVisible(ScrollOffset(scrollY, scrollTop))
      ensures printMode == old(printMode)
    {
      var scrolled := if scrollY != 0 then scrollY else scrollTop;
      showQuote := scrolled > 200;
    }
  }
}
