/** The per-site decisions of `getSiteColour` and `canvasUpdate`. */
module Display {
  import opened Sites
  import opened Encoding
  import opened Clock

  /** The four fill colours of a tile. */
  datatype Colour = EmptyColour | HourColour | MinuteColour | HourAndMinuteColour

  /** The legend: red and blue tiles count towards the hour ... */
  predicate CountsForHour(c: Colour)
  {
    c == HourColour || c == HourAndMinuteColour
  }

  /** ... green and blue tiles towards the minutes. */
  predicate CountsForMinutes(c: Colour)
  {
    c == MinuteColour || c == HourAndMinuteColour
  }

  /** `getSiteColour`: the fill of the site with key `key`. Read through the
      legend, it says exactly whether the site is an hour site and whether it
      is a minute site. */
  function SiteColour(key: SiteKey, hourSites: seq<SiteKey>, minuteSites: seq<SiteKey>): (c: Colour)
    ensures CountsForHour(c) <==> key in hourSites
    ensures CountsForMinutes(c) <==> key in minuteSites
  {
    var inHour := key in hourSites;
    var inMinute := key in minuteSites;
    if inHour && inMinute then HourAndMinuteColour
    else if inHour then HourColour
    else if inMinute then MinuteColour
    else EmptyColour
  }

  /** The legend tells all four colours apart, so the two facts above fix the colour. */
  lemma LegendDeterminesColour(c1: Colour, c2: Colour)
    requires CountsForHour(c1) == CountsForHour(c2)
    requires CountsForMinutes(c1) == CountsForMinutes(c2)
    ensures c1 == c2
  {
  }

  /** One call of `drawFibSite`: the tile, its fill, whether the remainder
      circle is drawn on it, and whether its size is written on it. */
  datatype DrawInstruction = DrawInstruction(site: Site, colour: Colour, circle: bool, number: bool)

  /** The `forEach` of `canvasUpdate`: one instruction per site, in declaration order. */
  method DrawSites(enc: TimeEncoding, showMins: bool, showNumbers: bool) returns (draws: seq<DrawInstruction>)
    ensures |draws| == |Catalogue|
    ensures forall i :: 0 <= i < |draws| ==> draws[i].site == Catalogue[i]
    ensures forall i :: 0 <= i < |draws| ==>
      (CountsForHour(draws[i].colour) <==> Catalogue[i].key in enc.hourSites) &&
      (CountsForMinutes(draws[i].colour) <==> Catalogue[i].key in enc.minuteSites)
    ensures forall i :: 0 <= i < |draws| ==>
      (draws[i].circle <==> showMins && Catalogue[i].key in enc.minuteRemainderSites)
    ensures forall i :: 0 <= i < |draws| ==> draws[i].number == showNumbers
  {
    draws := [];
    for i := 0 to |Catalogue|
      invariant |draws| == i
      invariant forall j :: 0 <= j < i ==> draws[j].site == Catalogue[j]
      invariant forall j :: 0 <= j < i ==>
        (CountsForHour(draws[j].colour) <==> Catalogue[j].key in enc.hourSites) &&
        (CountsForMinutes(draws[j].colour) <==> Catalogue[j].key in enc.minuteSites)
      invariant forall j :: 0 <= j < i ==>
        (draws[j].circle <==> showMins && Catalogue[j].key in enc.minuteRemainderSites)
      invariant forall j :: 0 <= j < i ==> draws[j].number == showNumbers
    {
      var site := Catalogue[i];
      var colour := SiteColour(site.key, enc.hourSites, enc.minuteSites);
      var circle := showMins && site.key in enc.minuteRemainderSites;
      draws := draws + [DrawInstruction(site, colour, circle, showNumbers)];
    }
  }

  /** Sum of the sizes of the tiles whose instruction satisfies `mark`. */
  function MarkedSize(draws: seq<DrawInstruction>, mark: DrawInstruction -> bool): nat
  {
    if draws == [] then 0
    else (if mark(draws[0]) then draws[0].site.size else 0) + MarkedSize(draws[1..], mark)
  }

  /** The instruction's tile counts for the hour. */
  predicate HourTile(d: DrawInstruction)
  {
    CountsForHour(d.colour)
  }

  /** The instruction's tile counts for the minutes. */
  predicate MinuteTile(d: DrawInstruction)
  {
    CountsForMinutes(d.colour)
  }

  /** The instruction's tile carries the remainder circle. */
  predicate Circled(d: DrawInstruction)
  {
    d.circle
  }

  /** The hour a reader of the face sees: the sizes of the tiles that count for the hour. */
  function HourShown(draws: seq<DrawInstruction>): nat
  {
    MarkedSize(draws, HourTile)
  }

  /** The minutes a reader of the face sees: five per unit of size of the tiles
      that count for the minutes, plus one per unit of size of the circled tiles. */
  function MinutesShown(draws: seq<DrawInstruction>): nat
  {
    5 * MarkedSize(draws, MinuteTile) + MarkedSize(draws, Circled)
  }

  /** When the instructions mark exactly the sites whose keys are in `keys`,
      the marked sizes are the weight of `keys` over those sites. */
  lemma {:induction false} MarkedSizeIsWeight(
    draws: seq<DrawInstruction>, mark: DrawInstruction -> bool, keys: seq<SiteKey>, sites: seq<Site>)
    requires |draws| == |sites|
    requires forall i :: 0 <= i < |draws| ==> draws[i].site == sites[i] && (mark(draws[i]) <==> sites[i].key in keys)
    ensures MarkedSize(draws, mark) == Weight(keys, sites)
  {
    if draws != [] {
      MarkedSizeIsWeight(draws[1..], mark, keys, sites[1..]);
    }
  }

  /** Instructions none of which satisfies `mark` have no marked size. */
  lemma {:induction false} NothingMarked(draws: seq<DrawInstruction>, mark: DrawInstruction -> bool)
    requires forall i :: 0 <= i < |draws| ==> !mark(draws[i])
    ensures MarkedSize(draws, mark) == 0
  {
    if draws != [] {
      NothingMarked(draws[1..], mark);
    }
  }

  /** `canvasUpdate` without the drawing: encode the time, then decide every
      tile. Reading the face back through the legend gives the 12-hour hour
      and the minute rounded down to a multiple of five; the circles, when
      shown, add back the remainder and give the exact minute. */
  method CanvasUpdate(hour: Hour, minute: Minute, showMins: bool, showNumbers: bool)
    returns (draws: seq<DrawInstruction>)
    ensures |draws| == |Catalogue|
    ensures forall i :: 0 <= i < |draws| ==> draws[i].site == Catalogue[i]
    ensures forall i :: 0 <= i < |draws| ==>
      (CountsForHour(draws[i].colour) <==> Catalogue[i].key in Greedy(Hour12(hour), Traversal)) &&
      (CountsForMinutes(draws[i].colour) <==> Catalogue[i].key in Greedy(MinuteBucket(minute), Traversal))
    ensures forall i :: 0 <= i < |draws| ==>
      (draws[i].circle <==> showMins && Catalogue[i].key in Greedy(MinuteRemainder(minute), Traversal))
    ensures forall i :: 0 <= i < |draws| ==> draws[i].number == showNumbers
    ensures HourShown(draws) == Hour12(hour)
    ensures 5 * MarkedSize(draws, MinuteTile) == minute - MinuteRemainder(minute)
    ensures showMins ==> MinutesShown(draws) == minute
    ensures !showMins ==> MinutesShown(draws) == minute - MinuteRemainder(minute)
  {
    var enc := EncodeTimeAsFib(hour, minute);
    draws := DrawSites(enc, showMins, showNumbers);
    MarkedSizeIsWeight(draws, HourTile, enc.hourSites, Catalogue);
    WeightIsSum(enc.hourSites);
    MarkedSizeIsWeight(draws, MinuteTile, enc.minuteSites, Catalogue);
    WeightIsSum(enc.minuteSites);
    if showMins {
      MarkedSizeIsWeight(draws, Circled, enc.minuteRemainderSites, Catalogue);
      WeightIsSum(enc.minuteRemainderSites);
    } else {
      NothingMarked(draws, Circled);
    }
  }
}
