/**
 * Calendar dates as the scripts build them with `new Date(year, month, day)`,
 * and the reference instant `new Date()`. A date is the tuple
 * (year, zero-based month, day) and dates compare lexicographically, which is
 * how the corresponding local-midnight instants compare when the day is a
 * real day of its month.
 */
module Calendar {
  import opened Wrappers

  datatype Date = Date(year: int, month: nat, day: nat)

  /** `a < b` on the local-midnight instants of two dates. */
  predicate Less(a: Date, b: Date)
  {
    a.year < b.year
    || (a.year == b.year && (a.month < b.month || (a.month == b.month && a.day < b.day)))
  }

  predicate LessEq(a: Date, b: Date)
  {
    Less(a, b) || a == b
  }

  /** `Less` is a strict total order. */
  lemma LessIsStrictTotal(a: Date, b: Date, c: Date)
    ensures !Less(a, a)
    ensures Less(a, b) ==> !Less(b, a)
    ensures Less(a, b) && Less(b, c) ==> Less(a, c)
    ensures a == b || Less(a, b) || Less(b, a)
  {
  }

  /** Milliseconds since local midnight. */
  type TimeOfDay = t: nat | t < 86_400_000

  /** A moment: its local calendar date and how far into that day it lies. */
  datatype Instant = Instant(date: Date, time: TimeOfDay)

  /**
   * `new Date(d.year, d.month, d.day) < now`: a card date is local midnight,
   * so it lies before `now` when its day is earlier, or is the same day and
   * `now` is past midnight.
   */
  predicate MidnightBefore(d: Date, now: Instant)
  {
    Less(d, now.date) || (d == now.date && now.time > 0)
  }

  /** `new Date(d.year, d.month, d.day) <= now`. */
  predicate MidnightNotAfter(d: Date, now: Instant)
  {
    MidnightBefore(d, now) || d == now.date
  }

  /**
   * `new Date(now.getFullYear(), now.getMonth(), now.getDate())`: the latest
   * date whose midnight is not after `now`; every earlier date's midnight
   * lies before `now`.
   */
  function Today(now: Instant): (d: Date)
    ensures MidnightNotAfter(d, now)
    ensures forall e: Date :: MidnightNotAfter(e, now) ==> LessEq(e, d)
    ensures forall e: Date :: Less(e, d) ==> MidnightBefore(e, now)
  {
    now.date
  }

  /** The `{ start, end }` pair a parser returns. */
  datatype Interval = Interval(start: Date, end: Date)

  /** The season both scripts hard-code. */
  const SeasonYear: int := 2025

  /** The `monthMap` object literal of both parsers. */
  const MonthNumbers: map<string, nat> :=
    map["Jan" := 0, "Feb" := 1, "Mar" := 2, "Apr" := 3, "May" := 4, "Jun" := 5,
        "Jul" := 6, "Aug" := 7, "Sep" := 8, "Oct" := 9, "Nov" := 10, "Dec" := 11]

  /** `monthMap[w]`, which is `undefined` for a key the literal does not have. */
  function MonthIndex(w: string): (r: Option<nat>)
    ensures r.Some? <==> w in MonthNumbers
    ensures r.Some? ==> r.value < 12
  {
    if w in MonthNumbers then Some(MonthNumbers[w]) else None
  }

  /** Every key of the month table is three ASCII letters. */
  lemma MonthNamesAreLetters(w: string)
    requires w in MonthNumbers
    ensures |w| == 3 && forall i :: 0 <= i < 3 ==> 'A' <= w[i] <= 'Z' || 'a' <= w[i] <= 'z'
  {
  }
}
