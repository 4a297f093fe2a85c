/**
  The three day-boundary rules of the game repository, on instants written as
  integer milliseconds since the Unix epoch.

  - A game's date is stored as the UTC midnight of the day the input falls on.
  - The "current game" key is the wall-clock midnight of the UTC+2 day, relabelled as UTC.
  - The "upcoming games" cut-off is the instant of the UTC+2 midnight.

  Dafny's `/` with a positive divisor rounds towards negative infinity, which is
  how day numbers are computed for instants before the epoch too.
 */
module Calendar {

  const HOUR: int := 3_600_000
  const DAY: int := 24 * HOUR
  /** The fixed offset used for "today": UTC+2. */
  const UTC_PLUS_2: int := 2 * HOUR

  /** An instant that is the first millisecond of a UTC day. */
  predicate IsUtcMidnight(t: int) {
    t % DAY == 0
  }

  /** The UTC midnight of the day `t` falls on (the date stored by addGame). */
  function StartOfUtcDay(t: int): (d: int)
    ensures IsUtcMidnight(d)
    ensures d <= t < d + DAY
  {
    (t / DAY) * DAY
  }

  /** The key getCurrentGame looks up: the UTC+2 day's midnight, read as a UTC time. */
  function CurrentGameDate(now: int): (d: int)
    ensures IsUtcMidnight(d)
    ensures d - UTC_PLUS_2 <= now < d - UTC_PLUS_2 + DAY
  {
    StartOfUtcDay(now + UTC_PLUS_2)
  }

  /** The cut-off getGames filters on: the instant the current UTC+2 day began. */
  function UpcomingCutoff(now: int): (c: int)
    ensures IsUtcMidnight(c + UTC_PLUS_2)
    ensures c <= now < c + DAY
  {
    CurrentGameDate(now) - UTC_PLUS_2
  }

  /** Two UTC midnights less than a day apart are the same instant. */
  lemma MidnightsCoincide(a: int, b: int)
    requires IsUtcMidnight(a) && IsUtcMidnight(b)
    requires a - DAY < b < a + DAY
    ensures a == b
  {
    var qa, qb := a / DAY, b / DAY;
    assert a - b == (qa - qb) * DAY;
  }

  /** The characterisation of StartOfUtcDay determines it: truncation is the only such midnight. */
  lemma StartOfUtcDayUnique(t: int, d: int)
    requires IsUtcMidnight(d) && d <= t < d + DAY
    ensures StartOfUtcDay(t) == d
  {
    MidnightsCoincide(d, StartOfUtcDay(t));
  }

  /** Truncating twice is truncating once; two instants share a stored date iff they share a UTC day. */
  lemma StartOfUtcDayIdempotent(t: int, u: int)
    ensures StartOfUtcDay(StartOfUtcDay(t)) == StartOfUtcDay(t)
    ensures StartOfUtcDay(t) == StartOfUtcDay(u) <==> StartOfUtcDay(t) <= u < StartOfUtcDay(t) + DAY
  {
    StartOfUtcDayUnique(StartOfUtcDay(t), StartOfUtcDay(t));
    if StartOfUtcDay(t) <= u < StartOfUtcDay(t) + DAY {
      StartOfUtcDayUnique(u, StartOfUtcDay(t));
    }
  }

  /**
    The game stored for UTC midnight `d` is the current game exactly while the
    UTC+2 calendar day of that date lasts: from 22:00 UTC of the day before
    until 22:00 UTC of the day itself.
   */
  lemma CurrentGameWindow(d: int, now: int)
    requires IsUtcMidnight(d)
    ensures CurrentGameDate(now) == d <==> d - UTC_PLUS_2 <= now < d - UTC_PLUS_2 + DAY
  {
    if d - UTC_PLUS_2 <= now < d - UTC_PLUS_2 + DAY {
      StartOfUtcDayUnique(now + UTC_PLUS_2, d);
    }
  }

  /**
    For dates normalised by addGame the two "today" rules agree: a UTC midnight
    passes the getGames cut-off iff it is not before the current game's date.
   */
  lemma CutoffAgreesOnMidnights(d: int, now: int)
    requires IsUtcMidnight(d)
    ensures d >= UpcomingCutoff(now) <==> d >= CurrentGameDate(now)
  {
    var key := CurrentGameDate(now);
    if key - UTC_PLUS_2 <= d < key {
      MidnightsCoincide(key, d);
    }
  }

  /**
    The two "today" rules disagree exactly on the dates in the two hours before
    the current game's date: those pass the getGames cut-off yet are earlier
    than the date getCurrentGame looks up. None of them is a midnight, so the
    rules can disagree only on a date an update stored as given.
   */
  lemma CutoffDiffersOffMidnight(d: int, now: int)
    ensures (d >= UpcomingCutoff(now)) != (d >= CurrentGameDate(now))
      <==> CurrentGameDate(now) - UTC_PLUS_2 <= d < CurrentGameDate(now)
    ensures CurrentGameDate(now) - UTC_PLUS_2 <= d < CurrentGameDate(now) ==> !IsUtcMidnight(d)
  {
    if IsUtcMidnight(d) {
      CutoffAgreesOnMidnights(d, now);
    }
  }

  /**
    The day addGame stores and the UTC+2 day the same instant belongs to differ
    exactly in the last two hours of a UTC day (22:00 to midnight UTC); then the
    stored date is the day before the UTC+2 one.
   */
  lemma StoredDayVersusLocalDay(t: int)
    ensures StartOfUtcDay(t) == CurrentGameDate(t) <==> t - StartOfUtcDay(t) < DAY - UTC_PLUS_2
    ensures StartOfUtcDay(t) != CurrentGameDate(t) ==> CurrentGameDate(t) == StartOfUtcDay(t) + DAY
  {
    var d := StartOfUtcDay(t);
    if t - d < DAY - UTC_PLUS_2 {
      StartOfUtcDayUnique(t + UTC_PLUS_2, d);
    } else {
      StartOfUtcDayUnique(t + UTC_PLUS_2, d + DAY);
    }
  }
}
