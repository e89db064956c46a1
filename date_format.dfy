/** `formatDate`: the relative label shown beside each note. */
module DateFormat {

  /** Milliseconds in one day, `1000 * 60 * 60 * 24`. */
  const DayMs: int := 1000 * 60 * 60 * 24

  /** The label kinds. Each carries the instant whose locale time and/or date
      the browser would print; that printing is not modelled. */
  datatype DateLabel =
    | Today(at: int)      // "Today, <time>"
    | Yesterday(at: int)  // "Yesterday, <time>"
    | DateTime(at: int)   // "<date>, <time>"
    | DateOnly(at: int)   // "<date>"

  /** `Math.abs(x)` */
  function Abs(x: int): nat
  {
    if x < 0 then -x else x
  }

  /** `Math.ceil(diff / DayMs)` for a non-negative difference: the least whole
      number of days that covers `diff`. */
  function DayBucket(diff: nat): (d: nat)
    ensures (d - 1) * DayMs < diff <= d * DayMs
  {
    (diff + DayMs - 1) / DayMs
  }

  /** The bucket is the unique whole number of days satisfying the ceiling bounds. */
  lemma DayBucketUnique(diff: nat, d: nat)
    requires (d - 1) * DayMs < diff <= d * DayMs
    ensures DayBucket(diff) == d
  {
  }

  /** The label for a note last updated at `updated`, shown at time `now`. */
  function FormatDate(updated: int, now: int): (r: DateLabel)
    ensures r.at == updated
    ensures r.Today? <==> 0 < Abs(now - updated) <= DayMs
    ensures r.Yesterday? <==> DayMs < Abs(now - updated) <= 2 * DayMs
    ensures r.DateTime? <==> Abs(now - updated) == 0 || 2 * DayMs < Abs(now - updated) <= 7 * DayMs
    ensures r.DateOnly? <==> 7 * DayMs < Abs(now - updated)
  {
    var days := DayBucket(Abs(now - updated));
    if days == 1 then Today(updated)
    else if days == 2 then Yesterday(updated)
    else if days <= 7 then DateTime(updated)
    else DateOnly(updated)
  }

  /** The four labels by day bucket: 1 is "Today", 2 is "Yesterday", up to 7
      (including 0) is date and time, beyond 7 is the date alone. */
  lemma FormatDateByBucket(updated: int, now: int)
    ensures var d := DayBucket(Abs(now - updated));
      && (FormatDate(updated, now).Today? <==> d == 1)
      && (FormatDate(updated, now).Yesterday? <==> d == 2)
      && (FormatDate(updated, now).DateTime? <==> d <= 7 && d != 1 && d != 2)
      && (FormatDate(updated, now).DateOnly? <==> d > 7)
  {
  }

  /** A note updated at the very instant it is shown is not labelled "Today":
      a zero difference falls in bucket 0, which gets the date and time. */
  lemma SameInstantIsNotToday(t: int)
    ensures DayBucket(Abs(t - t)) == 0
    ensures FormatDate(t, t) == DateTime(t)
  {
  }
}
