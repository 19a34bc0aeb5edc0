/** `encodeTimeAsFib`: from a clock reading to the three lists of sites. */
module Clock {
  import opened Sites
  import opened Encoding

  /** What `Date.getHours` returns. */
  type Hour = h: nat | h < 24

  /** What `Date.getMinutes` returns. */
  type Minute = m: nat | m < 60

  /** The hour on a 12-hour dial: 1 to 12, with midnight and noon both shown as 12. */
  function Hour12(hour: Hour): (h: nat)
    ensures 1 <= h <= 12
    ensures h % 12 == hour % 12
  {
    var onDial := hour % 12;
    if onDial == 0 then 12 else onDial
  }

  /** The number of whole five-minute steps past the hour. */
  function MinuteBucket(minute: Minute): (bucket: nat)
    ensures bucket <= 11
    ensures bucket * 5 <= minute < bucket * 5 + 5
  {
    minute / 5
  }

  /** The minutes past the last five-minute step. */
  function MinuteRemainder(minute: Minute): (rest: nat)
    ensures rest <= 4
    ensures MinuteBucket(minute) * 5 + rest == minute
  {
    minute % 5
  }

  /** The three site lists the face is drawn from. */
  datatype TimeEncoding = TimeEncoding(
    hourSites: seq<SiteKey>,
    minuteSites: seq<SiteKey>,
    minuteRemainderSites: seq<SiteKey>)

  /** `encodeTimeAsFib`: the hour, the five-minute bucket and the remainder, each
      encoded by `encodeAsFib`. The hour sites' sizes add up to the 12-hour
      hour, and five times the minute sites' sizes plus the remainder sites'
      sizes give back the minute. */
  method EncodeTimeAsFib(hour: Hour, minute: Minute) returns (enc: TimeEncoding)
    ensures enc.hourSites == Greedy(Hour12(hour), Traversal)
    ensures enc.minuteSites == Greedy(MinuteBucket(minute), Traversal)
    ensures enc.minuteRemainderSites == Greedy(MinuteRemainder(minute), Traversal)
    ensures SumSizes(enc.hourSites) == Hour12(hour)
    ensures SumSizes(enc.minuteSites) == MinuteBucket(minute)
    ensures SumSizes(enc.minuteRemainderSites) == MinuteRemainder(minute)
    ensures SumSizes(enc.minuteSites) * 5 + SumSizes(enc.minuteRemainderSites) == minute
    ensures Distinct(enc.hourSites) && Distinct(enc.minuteSites) && Distinct(enc.minuteRemainderSites)
  {
    var hourSites := EncodeAsFib(Hour12(hour));
    var minuteSites := EncodeAsFib(MinuteBucket(minute));
    var minuteRemainderSites := EncodeAsFib(MinuteRemainder(minute));
    enc := TimeEncoding(hourSites, minuteSites, minuteRemainderSites);
  }
}
