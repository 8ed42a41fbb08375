/**
  Keyboard navigation: which section index a key press targets, and the
  print-mode toggle. Indices come from indexOf, so -1 is a possible input
  in principle; the deck never produces it (see Deck.KeyDown).
*/
module Navigation {
  import opened Options

  /** Math.min */
  function Min(a: int, b: int): int { if a < b then a else b }

  /** Math.max */
  function Max(a: int, b: int): int { if a > b then a else b }

  /** ArrowDown / PageDown: Math.min(idx + 1, len - 1) — one section on, never past the last. */
  function NextIndex(idx: int, len: int): (r: int)
    ensures 0 < len && -1 <= idx < len ==> 0 <= r < len
    ensures 0 <= idx < len - 1 ==> r == idx + 1
    ensures idx == len - 1 ==> r == idx
  {
    Min(idx + 1, len - 1)
  }

  /** ArrowUp / PageUp: Math.max(idx - 1, 0) — one section back, never before the first. */
  function PrevIndex(idx: int): (r: int)
    ensures 0 <= r
    ensures 0 < idx ==> r == idx - 1
    ensures idx <= 0 ==> r == 0
  {
    Max(idx - 1, 0)
  }

  /** Within the deck, a step down followed by a step up returns, except at the ends. */
  lemma NextPrevInverse(idx: int, len: int)
    requires 0 <= idx < len
    ensures idx < len - 1 ==> PrevIndex(NextIndex(idx, len)) == idx
    ensures 0 < idx ==> NextIndex(PrevIndex(idx), len) == idx
  {
  }

  /** n presses of ArrowDown, each landing on the section it targets. */
  function PressNext(idx: int, len: int, n: nat): int
    decreases n
  {
    if n == 0 then idx else PressNext(NextIndex(idx, len), len, n - 1)
  }

  /** n presses of ArrowUp, each landing on the section it targets. */
  function PressPrev(idx: int, n: nat): int
    decreases n
  {
    if n == 0 then idx else PressPrev(PrevIndex(idx), n - 1)
  }

  /** Repeated ArrowDown moves n sections on and then stays at the last: no wrap to the top. */
  lemma {:induction false} PressNextClamps(idx: int, len: int, n: nat)
    requires 0 <= idx < len
    ensures PressNext(idx, len, n) == Min(idx + n, len - 1)
    decreases n
  {
    if n > 0 {
      PressNextClamps(NextIndex(idx, len), len, n - 1);
    }
  }

  /** Repeated ArrowUp moves n sections back and then stays at the first: no wrap to the bottom. */
  lemma {:induction false} PressPrevClamps(idx: int, n: nat)
    requires 0 <= idx
    ensures PressPrev(idx, n) == Max(idx - n, 0)
    decreases n
  {
    if n > 0 {
      PressPrevClamps(PrevIndex(idx), n - 1);
    }
  }

  /** ASCII part of String.prototype.toLowerCase. */
  function LowerChar(c: char): char {
    if 'A' <= c <= 'Z' then (c as int - 'A' as int + 'a' as int) as char else c
  }

  function Lower(s: string): (r: string)
    ensures |r| == |s|
    ensures forall i :: 0 <= i < |s| ==> r[i] == LowerChar(s[i])
  {
    if s == [] then [] else [LowerChar(s[0])] + Lower(s[1..])
  }

  /** e.key.toLowerCase() === "p": true for exactly the two keys "p" and "P". */
  function IsPrintKey(key: string): (r: bool)
    ensures r <==> key == "p" || key == "P"
  {
    Lower(key) == "p"
  }

  /** ArrowDown or PageDown; neither is also the print key. */
  function IsNextKey(key: string): (r: bool)
    ensures r ==> !IsPrintKey(key)
  {
    key == "ArrowDown" || key == "PageDown"
  }

  /** ArrowUp or PageUp; neither is also the print key. */
  function IsPrevKey(key: string): (r: bool)
    ensures r ==> !IsPrintKey(key)
  {
    key == "ArrowUp" || key == "PageUp"
  }

  /** What one key press does: the new print mode and the index to scroll to, if any. */
  datatype KeyOutcome = KeyOutcome(printMode: bool, target: Option<int>)

  /** The decision part of the keydown handler, given the current section index. */
  function Transition(printMode: bool, idx: int, len: int, key: string): (r: KeyOutcome)
    ensures r.printMode != printMode <==> IsPrintKey(key)
    ensures r.target.Some? <==> IsNextKey(key) || IsPrevKey(key)
    ensures r.target.Some? && 0 < len && -1 <= idx < len ==> 0 <= r.target.value < len
    ensures IsNextKey(key) && 0 <= idx < len - 1 ==> r.target == Some(idx + 1)
    ensures IsNextKey(key) && idx == len - 1 ==> r.target == Some(idx)
    ensures IsPrevKey(key) && 0 < idx ==> r.target == Some(idx - 1)
    ensures IsPrevKey(key) && idx == 0 ==> r.target == Some(0)
  {
    var target :=
      if IsNextKey(key) then Some(NextIndex(idx, len))
      else if IsPrevKey(key) then Some(PrevIndex(idx))
      else None;
    KeyOutcome(if IsPrintKey(key) then !printMode else printMode, target)
  }

  /** Two presses of the print key restore the print mode, wherever the deck is scrolled. */
  lemma PrintToggleTwice(printMode: bool, idx1: int, idx2: int, len: int, key: string)
    requires IsPrintKey(key)
    ensures Transition(Transition(printMode, idx1, len, key).printMode, idx2, len, key).printMode == printMode
  {
  }
}
