# Fibonacci clock: a verified model of the time encoding

The Fibonacci clock shows the time on a rectangle made of five square tiles,
the sites `a` to `e`, with sizes 1, 1, 2, 3 and 5. The hour (on a 12-hour
dial) and the minutes (in steps of five) are each written as a sum of tile
sizes. A tile is red if it is used for the hour, green if it is used for the
minutes, blue if it is used for both, and left empty otherwise. The minutes
past the last step of five (0 to 4) are a third sum, shown as circles on the
tiles.

This project models that core of `js/main.js` in Dafny and proves what it
promises:

- `sites.dfy` (module `Sites`) holds the site table: keys, positions, sizes
  and sequence indices. It proves the table's own facts. The sizes add up to
  12, and the five tiles cover the 8 by 5 rectangle with no gaps and no
  overlaps.
- `encoding.dfy` (module `Encoding`) holds `encodeAsFib`. The table's entries
  are sorted and then reversed, and a stable insertion sort with an explicit
  comparator models the sort. For any comparator that is a total preorder,
  the sort is proved to return a permutation of its input, in order and
  stable. `GreedyPass` is the `reduce` loop. It is proved
  against the recursive specification `Greedy` and its companion `Residual`.
  The lemmas prove the following:
  - The encoding is exact for 0 to 12.
  - Values of 12 or more take every site.
  - The result is in traversal order with no repeated key.
  - A site is picked exactly when what is left of the value still covers its
    size.
  - The tie between the two size-1 sites goes to `b`.
- `clock.dfy` (module `Clock`) holds the arithmetic of `encodeTimeAsFib`:
  `hour12`, the five-minute bucket and the remainder. `EncodeTimeAsFib`
  proves that the three lists give back the 12-hour hour and the minute.
- `display.dfy` (module `Display`) holds `getSiteColour` and the per-site loop
  of `canvasUpdate`. Each `drawFibSite` call becomes a `DrawInstruction`
  record: the tile, its fill colour, the circle flag and the number flag.
  `CanvasUpdate` proves that reading the face through the legend gives back
  the time. The hour is the sum of the sizes of the red and blue tiles. Five
  times the sum of the sizes of the green and blue tiles is the minute rounded
  down to a multiple of five. When the circles are shown, adding the sizes of
  the circled tiles gives the exact minute. When they are hidden, no tile is
  circled.

The sort in `encodeAsFib` (js/main.js:115-117) passes a comparator that reads
`sequenceIndex` on the `[key, site]` pair. That property does not exist, so
every comparison is NaN. ECMAScript's sort treats NaN as "equal", and its sort
is stable, so the table keeps its declaration order. Reversing it gives the
traversal `e, d, c, b, a`. `AsWrittenCompare` models that comparator and
`SequenceIndexCompare` models the evidently intended one.
`SortKeepsDeclarationOrder` proves that both leave the table as it is. The
slip therefore changes nothing, and the model follows the code's order. Of the
two size-1 sites, `b` (sequence index 2) is tried before `a` (sequence index
1). So 4 encodes as `d, b` and 6 as `e, b`. Note that the tie does not go to
the lower sequence index: `b` is tried first.

The hour and the minute come from `Date.getHours` and `Date.getMinutes`. They
are modelled as the subset types `Clock.Hour` (0 to 23) and `Clock.Minute`
(0 to 59). The display flags `showMins` and `showNumbers` are parameters.

## Model

| member | source | states |
|---|---|---|
| `Sites.CatalogueFacts` | js/main.js:3-9 | The table has five distinct keys `a` to `e`. Their sizes sum to 12, and the sequence indices rise in declaration order. |
| `Sites.CatalogueTilesRectangle` | js/main.js:1-9 | Every tile lies inside the 8 by 5 rectangle, and each unit cell of the rectangle is covered by exactly one tile. |
| `Sites.Lookup` | js/main.js:3-9 | The table entry for a key is in the table and carries that key. |
| `Encoding.AsWrittenCompare` | js/main.js:116 | Every comparison is 0 ("equal"). That is how the sort reads the NaN the comparator returns. |
| `Encoding.SequenceIndexCompare` | js/main.js:116 | The comparator the code evidently intends. Its sign is the order of the two sequence indices: negative, zero or positive exactly when the first index is smaller, equal or larger. |
| `Encoding.Insert` | js/main.js:116 | Inserting a site into a list gives the same elements plus that site. |
| `Encoding.StableSort` | js/main.js:115-116 | The sort returns a permutation of its input. |
| `Encoding.InsertSorted` | js/main.js:116 | Inserting a site into a list sorted by a total preorder keeps it sorted. |
| `Encoding.StableSortSorted` | js/main.js:115-116 | For a comparator that is a total preorder, the sort's result is in order: no site comes after a later one. |
| `Encoding.InsertTies` | js/main.js:116 | Insertion puts a site ahead of every element it ties with, and leaves the order of the ties otherwise unchanged. |
| `Encoding.StableSortStable` | js/main.js:115-116 | The sort is stable: for every site `e`, the elements that tie with `e` come out in their input order. |
| `Encoding.ComparatorsArePreorders` | js/main.js:116 | The comparator as written and the sequence-index comparator are both total preorders, so the ordering and stability lemmas apply to them. |
| `Encoding.SortOfOrdered` | js/main.js:116 | A list the comparator already finds in order comes back unchanged from the stable sort. |
| `Encoding.SortKeepsDeclarationOrder` | js/main.js:115-116 | The comparator as written (NaN, read as "equal") and the sequence-index comparator both leave the table in declaration order. |
| `Encoding.Reverse` | js/main.js:117 | `.reverse()` puts element `i` at position `n - 1 - i`. |
| `Encoding.SortedThenReversed` | js/main.js:115-117 | Sorting the entries and then reversing them gives the traversal `e, d, c, b, a`. |
| `Encoding.TraversalFacts` | js/main.js:3-9 | In the traversal, the keys are `e, d, c, b, a`, the sizes sum to 12 and the sequence indices fall. No size is more than one above the sum of the sizes after it. |
| `Encoding.Greedy` | js/main.js:118-124 | The pass records at most one key per site visited, and only keys of visited sites. |
| `Encoding.Residual` | js/main.js:119-120 | What is left of the value never goes below zero and never exceeds the value. |
| `Encoding.GreedyPass` | js/main.js:118-124 | The `reduce` loop, which subtracts each size that fits and pushes its key, returns exactly the keys of the specification `Greedy`. What is left of the value at the end is exactly `Residual`. |
| `Encoding.EncodeAsFib` | js/main.js:114-125 | `encodeAsFib` returns the greedy pass over the traversal. For values up to 12 the picked sizes sum to the value, and no key appears twice. |
| `Encoding.ResidualExtend` | js/main.js:119-121 | Visiting one more site subtracts its size from the leftover value exactly when the leftover is at least that size. |
| `Encoding.GreedyConserves` | js/main.js:118-124 | The sizes of the picked sites plus what is left always add up to the input value. |
| `Encoding.ExactUpToTotal` | js/main.js:118-124 | If each size is at most one more than the sizes after it, every value up to the total leaves nothing over. |
| `Encoding.SaturatesAboveTotal` | js/main.js:118-124 | A value at least the total takes every site and leaves the excess, with no error. |
| `Encoding.EncodeExact` | js/main.js:114-125 | For every value from 0 to 12, the picked sizes sum exactly to the value and the leftover is 0. |
| `Encoding.EncodeSaturates` | js/main.js:114-125 | Every value of 12 or more gives all five keys `e, d, c, b, a` and leaves `value - 12` unreported. |
| `Encoding.GreedyIsSubsequence` | js/main.js:118-124 | The result is the visited keys with some left out, in the order they were visited. |
| `Encoding.SubsequenceOfDistinct` | js/main.js:118-124 | Leaving keys out of a list with no repeats leaves a list with no repeats, drawn from the same keys. |
| `Encoding.EncodeOrdered` | js/main.js:115-124 | The encoding is a subsequence of `e, d, c, b, a` and has no repeated key. |
| `Encoding.PickedIffFits` | js/main.js:119-121 | A site is in the result exactly when the value left on reaching it is at least its size. |
| `Encoding.TieGoesToEarlier` | js/main.js:116-121 | Of two neighbouring sites of equal size, the later one is picked only if the earlier one was. |
| `Encoding.BBeforeA` | js/main.js:4-5 | Site `a` is in the encoding only when site `b` is: the size-1 tie goes to `b`. |
| `Encoding.EncodeExamples` | js/main.js:114-125 | 0 gives the empty list, 1 gives `b`, 4 gives `d, b`, 6 gives `e, b` and 12 gives `e, d, c, b, a`. |
| `Clock.Hour12` | js/main.js:109-110 | `hour12` is in 1..12 and congruent to the hour mod 12, so hours 0 and 12 both give 12. |
| `Clock.MinuteBucket` | js/main.js:111 | The bucket is at most 11, and the minute lies in `[bucket * 5, bucket * 5 + 5)`. |
| `Clock.MinuteRemainder` | js/main.js:112 | The remainder is at most 4, and `bucket * 5 + remainder` equals the minute. |
| `Clock.EncodeTimeAsFib` | js/main.js:108-131 | The three lists are the encodings of `hour12`, the bucket and the remainder, and none repeats a key. The sizes of each list sum to the value it encodes: `hour12`, the bucket and the remainder. Five times the minute sizes plus the remainder sizes equals the minute. |
| `Display.SiteColour` | js/main.js:133-141 | The fill counts for the hour exactly when the key is in the hour list, and for the minutes exactly when it is in the minute list. So the four colours stand for empty, hour only, minute only, and both. |
| `Display.LegendDeterminesColour` | js/main.js:26-28 | The legend tells all four colours apart, so the two facts above fix the colour. |
| `Display.DrawSites` | js/main.js:157-161 | There is one instruction per site, in declaration order. The colour follows the hour and minute lists. The circle is on exactly when `showMins` holds and the site is in the remainder list. The number flag equals `showNumbers`. |
| `Display.CanvasUpdate` | js/main.js:154-161 | The per-site decisions for a clock reading follow from the three encodings. The hour read from the face equals `hour12`. Five times the minute tiles' sizes is the minute rounded down to a multiple of five. With circles shown, the minute read from the face equals the minute; with circles hidden, it is the rounded-down minute. |
| `Display.NothingMarked` | js/main.js:159 | When no instruction is marked, as with the circles when `showMins` is off, the marked size is 0. |

## Left out

- Drawing in `drawFibSite` (js/main.js:75-106): the 2D-context calls and their floating-point geometry. Each call is kept only as a `DrawInstruction` record.
- `computeFibDimensions`, `computeFibOffset` and `computeFibUnitSize` (js/main.js:49-73): floating-point pixel geometry. The `constrain` flag only selects between these, so it is not modelled either.
- DOM lookup, button listeners, `alert`, and the footer show/hide timer (js/main.js:164-199). These are browser plumbing driven by events and `setTimeout`.
- The `setInterval` update loop and the `DOMContentLoaded` start-up (js/main.js:201-209). These are timers and I/O.
- Reading the clock with `new Date()` (js/main.js:154). The hour and the minute are inputs instead, limited to the ranges `getHours` and `getMinutes` return.
- The colour strings, font and stroke constants (js/main.js:14-24). The enum `Display.Colour` replaces the four fill colours.
- `Encoding.StableSort`: it is an insertion sort and not the engine's sort algorithm. Any stable sort by the same comparator returns the same list, so the result is the same.
- `Encoding.AsWrittenCompare`: it models the NaN result of the comparator as 0. That is how the ECMAScript sort reads NaN.
