# Leeds scroll deck: section navigator and scroll state

A Dafny model of the only computed behaviour of the presentation page in
`src/app/LeedsScrollDeck.tsx`: the keyboard section navigator and the scroll
state of the `LeedsScrollDeck` component.

- **Sections** (`sections.dfy`): the ordered ids of the deck's eight sections
  (`intro` … `qa`). These ids are both anchors and keyboard stops. The module
  also holds `indexOf`, which returns -1 when the id is absent.
- **Nearest** (`nearest.dfy`): `nearestSection`. The page is a map from element
  id to `offsetTop`, in whole pixels. `Present` is the deck's ids run through
  `getElementById`, with the missing ones filtered out. `NearestSection` is the
  source's `forEach` loop: it keeps a best id and a best distance, which starts
  at `Infinity`, and updates them only on a strictly smaller distance. Its
  result is proved equal to `NearestId`. `NearestId` is built on `FirstNearest`,
  an independent reference definition that scans from the right. `IsNearest`
  says what "nearest, first among equals" means, and the lemmas prove that the
  reference meets it and that nothing else does.
- **Navigation** (`navigation.dfy`): the clamped targets `Math.min(idx+1,
  len-1)` and `Math.max(idx-1, 0)`, the key tests, and `Transition`, the
  handler's decision on `(printMode, target index)`.
- **ScrollTracker** (`scroll.dfy`): `window.scrollY || scrollTop` and the
  `> 200` quote threshold.
- **SectionNumber** (`label.dfy`): `String(idx + 1).padStart(2, '0')`, with
  decimal printing and a parser to state the round trip.
- **Deck** (`deck.dfy`): the component state (`printMode`, `showQuote`) as a
  class. `OnKey` and `HandleScroll` are its two handlers. `KeyDown` is the
  whole keydown handler as a pure function, and the lemmas are about it.

The quote test is strict (`scrolled > 200`): an offset of exactly 200 leaves
the quote hidden (`ScrollTracker.QuoteVisible`).

## Model

| member | source | states |
|---|---|---|
| Sections.IdsDistinct | src/app/LeedsScrollDeck.tsx:130-254 | the deck has eight section ids and no id occurs twice |
| Sections.IndexOf | src/app/LeedsScrollDeck.tsx:282 | -1 exactly when the id is absent; otherwise an in-range position holding the id with no earlier occurrence |
| Sections.IndexOfDistinct | src/app/LeedsScrollDeck.tsx:280-282 | in a duplicate-free id list, indexOf finds each id at its own position |
| Nearest.Present | src/app/LeedsScrollDeck.tsx:310 | every element kept is a deck id that resolves in the page, carrying that element's offset; no more elements than ids |
| Nearest.PresentComplete | src/app/LeedsScrollDeck.tsx:310 | every deck id that resolves in the page is kept |
| Nearest.PresentAll | src/app/LeedsScrollDeck.tsx:310 | when every section exists, the filtered list is all of them, position for position |
| Nearest.PresentInDeckOrder | src/app/LeedsScrollDeck.tsx:310 | filtering preserves deck order: two kept elements come from positions p < q of the id list, in the order they are kept |
| Nearest.Dist | src/app/LeedsScrollDeck.tsx:315 | the distance is the non-negative difference of the two offsets, and zero exactly when they are equal |
| Nearest.NearestUnique | src/app/LeedsScrollDeck.tsx:313-317 | at most one position is the nearest and also first among equals |
| Nearest.FirstNearestIsNearest | src/app/LeedsScrollDeck.tsx:313-317 | the reference argmin has minimal distance, and every earlier element is strictly farther (ties go to the first) |
| Nearest.NearestId | src/app/LeedsScrollDeck.tsx:309-319 | the result is always a deck id; it is a present element's id or the first declared id; with no element present it is the first declared id |
| Nearest.NearestSection | src/app/LeedsScrollDeck.tsx:309-319 | the strict-less-than loop returns exactly the first nearest present section, or the first declared id when none is present |
| Nearest.NearestIsClosest | src/app/LeedsScrollDeck.tsx:313-317 | no present section is closer to the scroll offset than the returned one, and an equally close one is never earlier in deck order |
| Nearest.NearestAtSectionTop | src/app/LeedsScrollDeck.tsx:313-317 | scrolled exactly to section k's top, with no earlier section at that offset, the lookup returns section k, and indexOf gives k |
| Navigation.NextIndex | src/app/LeedsScrollDeck.tsx:284 | the next target stays in [0, len-1]; it is idx+1 before the last section and idx at the last (no wrap) |
| Navigation.PrevIndex | src/app/LeedsScrollDeck.tsx:288 | the previous target is never negative; it is idx-1 after the first section and 0 at the first (no wrap) |
| Navigation.NextPrevInverse | src/app/LeedsScrollDeck.tsx:284-288 | away from the ends, a step down and a step up undo each other |
| Navigation.PressNextClamps | src/app/LeedsScrollDeck.tsx:283-285 | n ArrowDown presses from idx land on min(idx+n, len-1) |
| Navigation.PressPrevClamps | src/app/LeedsScrollDeck.tsx:287-289 | n ArrowUp presses from idx land on max(idx-n, 0) |
| Navigation.Lower | src/app/LeedsScrollDeck.tsx:291 | lower-casing keeps the length and maps each character through the ASCII case fold |
| Navigation.IsPrintKey | src/app/LeedsScrollDeck.tsx:291 | the print toggle fires for exactly the keys "p" and "P" |
| Navigation.IsNextKey | src/app/LeedsScrollDeck.tsx:283 | ArrowDown and PageDown are the next keys, and neither is also the print key |
| Navigation.IsPrevKey | src/app/LeedsScrollDeck.tsx:287 | ArrowUp and PageUp are the previous keys, and neither is also the print key |
| Navigation.Transition | src/app/LeedsScrollDeck.tsx:283-291 | print mode flips exactly on the print key; a target exists exactly for the navigation keys; it stays in range and clamps at both ends |
| Navigation.PrintToggleTwice | src/app/LeedsScrollDeck.tsx:291 | two print-key presses restore the original print mode |
| ScrollTracker.ScrollOffset | src/app/LeedsScrollDeck.tsx:300 | the offset is scrollY when scrollY is non-zero, and scrollTop when scrollY is 0 |
| ScrollTracker.QuoteVisible | src/app/LeedsScrollDeck.tsx:301 | the quote is hidden for offsets up to 200 inclusive and shown from 201 on |
| ScrollTracker.QuoteMonotone | src/app/LeedsScrollDeck.tsx:301 | one threshold, no hysteresis band: a larger offset never hides a quote a smaller one shows |
| SectionNumber.Decimal | src/app/LeedsScrollDeck.tsx:525 | String(n) is a non-empty digit string, one digit exactly when n < 10, and has no leading zero |
| SectionNumber.DecimalRoundTrip | src/app/LeedsScrollDeck.tsx:525 | parsing String(n) gives back n |
| SectionNumber.PadStart | src/app/LeedsScrollDeck.tsx:525 | padStart reaches the width (or keeps a longer string), keeps the string as a suffix and fills the front with the fill character |
| SectionNumber.SectionLabel | src/app/LeedsScrollDeck.tsx:525 | the label is a digit string of length at least two |
| SectionNumber.SectionLabelShape | src/app/LeedsScrollDeck.tsx:525 | for idx < 9 the label is '0' then the digit idx+1; otherwise it is String(idx+1) unpadded |
| SectionNumber.SectionLabelRoundTrip | src/app/LeedsScrollDeck.tsx:525 | the label reads back as the one-based section number idx+1 |
| SectionNumber.DeckLabelsTwoDigits | src/app/LeedsScrollDeck.tsx:498-525 | every one of the deck's sections is labelled with two digits starting with '0' |
| Deck.KeyDown | src/app/LeedsScrollDeck.tsx:279-292 | indexOf of the current section is never -1 and points at that section; ArrowDown/PageDown target idx+1 (idx at the last), ArrowUp/PageUp target idx-1 (0 at the first); every target is a valid index; print mode flips exactly on the print key; targets exist exactly for navigation keys |
| Deck.KeyDownWithoutSections | src/app/LeedsScrollDeck.tsx:280-289 | with no section element in the page, ArrowDown targets section 1 and ArrowUp section 0 |
| Deck.KeyDownAtSectionTop | src/app/LeedsScrollDeck.tsx:279-292 | with every section in the page and no earlier section at section k's offset, scrolled to k's top edge, ArrowDown targets k+1 (k at the last) and ArrowUp k-1 (k at the first), print mode unchanged |
| Deck.KeyDownPrintTwice | src/app/LeedsScrollDeck.tsx:291 | the print key never yields a jump, and pressing it twice restores print mode |
| Deck.Deck.constructor | src/app/LeedsScrollDeck.tsx:262-263 | print mode and quote overlay both start off |
| Deck.Deck.OnKey | src/app/LeedsScrollDeck.tsx:279-292 | the new print mode and the returned jump target are those of KeyDown on the old state; the quote flag is untouched |
| Deck.Deck.HandleScroll | src/app/LeedsScrollDeck.tsx:299-302 | the quote flag becomes QuoteVisible of the current offset, whatever it was before (no dependence on scroll direction); print mode is untouched |

## Left out

- The scroll itself: `getElementById` on the target id and `scrollIntoView` are not modelled. `OnKey` returns the chosen index. A target whose element is missing silently does not scroll.
- Registering and removing the keydown and scroll listeners, and the initial `handleScroll()` call at mount: these are event wiring with no computed behaviour.
- Offsets are whole pixels (`int`). Fractional `scrollY` values on high-density displays are not modelled.
- Navigation.Lower: models only the ASCII part of `toLowerCase`. No non-ASCII character lower-cases to "p", so the print-key test is unaffected.
- Navigation.PressNextClamps and Navigation.PressPrevClamps: assume each jump lands on its target section. In the page, the next press recomputes the current section from the scroll offset.
- The framer-motion progress bar and hero transforms (`useScroll`/`useTransform`): float interpolation inside a library that is not part of this model.
- All JSX rendering, animation props and the template-to-layout branches: presentation markup with no computed behaviour.
- `TypewriterOnView`: depends on `useInView`, timers and a third-party typing component.
- `src/app/demo/page.tsx`, `generate-qr.js` and `src/types/react-leaflet.d.ts`: static UI, a wrapper around a third-party QR library, and type declarations. They are not part of this model.
