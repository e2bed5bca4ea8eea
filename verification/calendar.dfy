/** Calendar days, the configured test period and its tiling into 7-day weeks
    (`settimana_da_data` and `genera_settimane`). */
module Calendar {

  /** A calendar day as its proleptic Gregorian ordinal: 0001-01-01 is day 1,
      the numbering of Python's `date.toordinal()`. */
  type Day = int

  predicate IsLeapYear(y: int)
  {
    y % 4 == 0 && (y % 100 != 0 || y % 400 == 0)
  }

  function DaysInMonth(y: int, m: int): int
    requires 1 <= m <= 12
  {
    if m == 2 then (if IsLeapYear(y) then 29 else 28)
    else if m == 4 || m == 6 || m == 9 || m == 11 then 30
    else 31
  }

  function DaysBeforeMonth(y: int, m: int): int
    requires 1 <= m <= 12
  {
    if m == 1 then 0 else DaysBeforeMonth(y, m - 1) + DaysInMonth(y, m - 1)
  }

  /** The ordinal of the date `y-m-d`. */
  function Ordinal(y: int, m: int, d: int): Day
    requires y >= 1 && 1 <= m <= 12 && 1 <= d <= DaysInMonth(y, m)
  {
    var py := y - 1;
    py * 365 + py / 4 - py / 100 + py / 400 + DaysBeforeMonth(y, m) + d
  }

  /** `DATA_INIZIO` and `DATA_FINE`: the test period runs from 2025-05-01 to 2025-06-30. */
  const PeriodStart: Day := Ordinal(2025, 5, 1)
  const PeriodEnd: Day := Ordinal(2025, 6, 30)

  lemma {:induction false} PeriodDays()
    ensures PeriodStart == 739372 && PeriodEnd == 739432
    ensures PeriodEnd - PeriodStart == 60
  {
  }

  /** A week bucket: the closed day range `[first, last]`. */
  datatype Week = Week(first: Day, last: Day)

  /** The number of buckets the period `[start, end]` needs. */
  function WeekCount(start: Day, end: Day): nat
  {
    if end < start then 0 else (end - start) / 7 + 1
  }

  /** The buckets of `[start, end]` in closed form: bucket `i` is
      `[start + 7i, start + 7i + 6]`. */
  function Weeks(start: Day, end: Day): seq<Week>
  {
    seq(WeekCount(start, end), i => Week(start + 7 * i, start + 7 * i + 6))
  }

  /** `genera_settimane`: starting at `start`, emit `(d, d + 6)` and advance by
      7 days for as long as `d <= end`. */
  method GenerateWeeks(start: Day, end: Day) returns (ws: seq<Week>)
    ensures ws == Weeks(start, end)
  {
    ws := [];
    var d := start;
    while d <= end
      invariant d == start + 7 * |ws|
      invariant |ws| == 0 || d - 7 <= end
      invariant forall i :: 0 <= i < |ws| ==> ws[i] == Week(start + 7 * i, start + 7 * i + 6)
      decreases end - d
    {
      ws := ws + [Week(d, d + 6)];
      d := d + 7;
    }
    CountOfStarts(start, end, |ws|);
  }

  /** The loop stops after exactly `WeekCount` iterations. */
  lemma {:induction false} CountOfStarts(start: Day, end: Day, n: nat)
    requires start + 7 * n > end
    requires n == 0 || start + 7 * (n - 1) <= end
    ensures n == WeekCount(start, end)
  {
    if n > 0 {
      var k := end - start;
      assert 7 * (n - 1) <= k < 7 * n;
      assert k / 7 == n - 1;
    }
  }

  /** The buckets tile the period: the first starts at `start`, each spans 7 days
      and begins the day after its predecessor ends, every bucket starts within
      the period and the next start would fall after it. */
  lemma {:induction false} WeeksTile(start: Day, end: Day)
    requires start <= end
    ensures var ws := Weeks(start, end);
      && |ws| > 0 && ws[0].first == start
      && (forall i :: 0 <= i < |ws| ==> ws[i].last == ws[i].first + 6 && ws[i].first <= end)
      && (forall i :: 0 <= i < |ws| - 1 ==> ws[i + 1].first == ws[i].last + 1)
      && ws[|ws| - 1].first + 7 > end
  {
    var n := WeekCount(start, end);
    assert (end - start) / 7 * 7 <= end - start;
    assert start + 7 * (n - 1) <= end;
    assert end - start < 7 * n;
  }

  /** The number of buckets is the period length divided by 7, rounded up. */
  lemma {:induction false} WeekCountIsCeiling(start: Day, end: Day)
    requires start <= end + 1
    ensures var n := |Weeks(start, end)|; 7 * (n - 1) < end - start + 1 <= 7 * n
  {
    var n := WeekCount(start, end);
    if n > 0 {
      var k := end - start;
      assert k == 7 * (k / 7) + k % 7;
    }
  }

  /** `settimana_da_data`: the 1-based week of `d`, Python's floor division of the
      days elapsed since `start` by 7, plus one. */
  function WeekNumber(start: Day, d: Day): (w: int)
    ensures start + 7 * (w - 1) <= d < start + 7 * w
  {
    (d - start) / 7 + 1
  }

  lemma {:induction false} WeekNumberExamples(start: Day)
    ensures WeekNumber(start, start) == 1
    ensures WeekNumber(start, start + 6) == 1
    ensures WeekNumber(start, start + 7) == 2
    ensures WeekNumber(start, start - 1) == 0
  {
  }

  /** A day lies in bucket `i` exactly when its week number is `i + 1`. */
  lemma {:induction false} WeekNumberNamesBucket(start: Day, end: Day, i: int, d: Day)
    requires 0 <= i < |Weeks(start, end)|
    ensures var w := Weeks(start, end)[i]; w.first <= d <= w.last <==> WeekNumber(start, d) == i + 1
  {
    var n := WeekNumber(start, d);
    if start + 7 * i <= d <= start + 7 * i + 6 {
      assert 7 * (n - 1) <= d - start < 7 * n;
      assert n - 1 <= i && i <= n - 1;
    }
  }

  /** Every day from `start` to the end of the last bucket lies in exactly one
      bucket, and no other day lies in any. */
  lemma {:induction false} ExactlyOneWeek(start: Day, end: Day, d: Day)
    ensures var ws := Weeks(start, end);
      (exists i :: 0 <= i < |ws| && ws[i].first <= d <= ws[i].last)
        <==> start <= d <= start + 7 * |ws| - 1
    ensures var ws := Weeks(start, end);
      forall i, j ::
        (0 <= i < |ws| && 0 <= j < |ws| && ws[i].first <= d <= ws[i].last && ws[j].first <= d <= ws[j].last)
        ==> i == j
  {
    var ws := Weeks(start, end);
    if start <= d <= start + 7 * |ws| - 1 {
      var i := WeekNumber(start, d) - 1;
      assert 0 <= i < |ws|;
      WeekNumberNamesBucket(start, end, i, d);
    }
    forall i, j | 0 <= i < |ws| && 0 <= j < |ws| && ws[i].first <= d <= ws[i].last
      && ws[j].first <= d <= ws[j].last
      ensures i == j
    {
      WeekNumberNamesBucket(start, end, i, d);
      WeekNumberNamesBucket(start, end, j, d);
    }
  }

  /** The configured period has 9 buckets; the last one, 2025-06-26 to 2025-07-02,
      runs past the end of the period. */
  lemma {:induction false} ConfiguredWeeks()
    ensures |Weeks(PeriodStart, PeriodEnd)| == 9
    ensures Weeks(PeriodStart, PeriodEnd)[8] == Week(Ordinal(2025, 6, 26), Ordinal(2025, 7, 2))
    ensures Weeks(PeriodStart, PeriodEnd)[8].last > PeriodEnd
  {
    PeriodDays();
  }
}
