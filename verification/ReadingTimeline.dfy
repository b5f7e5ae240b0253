/** Reading totals and the gap-filled daily timeline. Times are microseconds since the epoch. */
module ReadingTimeline {
  import opened Sql
  import opened Schema
  import opened ReadingStreak

  const MINUTE := 60_000_000

  // ---------- Numbers ----------

  /** numeric::int in PostgreSQL: to the nearest integer, halves away from zero. Here of x / MINUTE. */
  function RoundMinutes(x: int): int {
    if x >= 0 then (2 * x + MINUTE) / (2 * MINUTE) else -((-2 * x + MINUTE) / (2 * MINUTE))
  }

  /** int() in Python: toward zero. Here of x / MINUTE. */
  function TruncateMinutes(x: int): int {
    if x >= 0 then x / MINUTE else -((-x) / MINUTE)
  }

  /** The nearest minute; a tie goes up for a positive time and down for a negative one. */
  lemma RoundingError(x: int)
    ensures var error := 2 * (60_000_000 * RoundMinutes(x) - x);
      && -60_000_000 <= error <= 60_000_000
      && (error == 60_000_000 ==> x > 0)
      && (error == -60_000_000 ==> x < 0)
  {
  }

  lemma TruncationError(x: int)
    ensures var error := 60_000_000 * TruncateMinutes(x) - x;
      if x >= 0 then -60_000_000 < error <= 0 else 0 <= error < 60_000_000
  {
  }

  /** Rounded minutes whose total is off by at most half a minute for each of n days. */
  predicate HalfMinutesOff(minutes: int, total: int, n: int) {
    -MINUTE * n <= 2 * (MINUTE * minutes - total) <= MINUTE * n
  }

  lemma OneMoreDay(minutes: int, total: int, n: int, x: int)
    requires HalfMinutesOff(minutes, total, n)
    ensures HalfMinutesOff(minutes + RoundMinutes(x), total + x, n + 1)
    ensures RoundMinutes(0) == 0
  {
    RoundingError(x);
  }

  // ---------- get_timeline ----------

  /** The join condition: a session of the user that ended on this day. */
  predicate EndedOn(s: ReadingSession, user: Id, day: int) {
    s.userId == user && s.endedAt.Some? && DayOf(s.endedAt.value) == day
  }

  /** A session of the user that ended on one of the days lo, ..., hi - 1. */
  predicate EndedWithin(s: ReadingSession, user: Id, lo: int, hi: int) {
    s.userId == user && s.endedAt.Some? && lo <= DayOf(s.endedAt.value) < hi
  }

  function Ended(sessions: Table<ReadingSession>, user: Id, lo: int, hi: int): Table<ReadingSession> {
    Where(sessions, s => EndedWithin(s, user, lo, hi))
  }

  function EndedOnDay(sessions: Table<ReadingSession>, user: Id, day: int): Table<ReadingSession> {
    Where(sessions, s => EndedOn(s, user, day))
  }

  function Duration(s: ReadingSession): int {
    if s.endedAt.Some? then s.endedAt.value - s.startedAt else 0
  }

  /** SUM skips NULLs, and COALESCE turns the sum of none into 0. */
  function Pages(s: ReadingSession): int {
    if s.pagesRead.Some? then s.pagesRead.value else 0
  }

  // ---------- The columns that are added up ----------

  function EndTimes(rows: Table<ReadingSession>): int {
    if rows == [] then 0
    else (if rows[0].data.endedAt.Some? then rows[0].data.endedAt.value else 0) + EndTimes(rows[1..])
  }

  function StartTimes(rows: Table<ReadingSession>): int {
    if rows == [] then 0 else rows[0].data.startedAt + StartTimes(rows[1..])
  }

  function PagesLogged(rows: Table<ReadingSession>): int {
    if rows == [] then 0
    else (if rows[0].data.pagesRead.Some? then rows[0].data.pagesRead.value else 0) + PagesLogged(rows[1..])
  }

  /** Sessions that have ended last from their start to their end. */
  lemma {:induction false} TimesAddUp(rows: Table<ReadingSession>)
    requires forall r :: r in rows ==> r.data.endedAt.Some?
    ensures SumOf(rows, Duration) == EndTimes(rows) - StartTimes(rows)
    ensures SumOf(rows, Pages) == PagesLogged(rows)
  {
    if rows != [] {
      assert rows[0] in rows;
      TimesAddUp(rows[1..]);
    }
  }

  datatype Entry = Entry(day: int, minutes: int, sessions: int, pages: int)

  /** One group of the LEFT JOIN: a day with no session still gives its row. */
  function EntryOf(sessions: Table<ReadingSession>, user: Id, day: int): Entry {
    var joined := EndedOnDay(sessions, user, day);
    Entry(day, RoundMinutes(SumOf(joined, Duration)), |joined|, SumOf(joined, Pages))
  }

  /** generate_series(first, last, 1 day): nothing when first is after last. */
  function GetTimeline(sessions: Table<ReadingSession>, user: Id, first: int, last: int): (r: seq<Entry>)
    decreases last - first + 1
  {
    if first > last then [] else GetTimeline(sessions, user, first, last - 1) + [EntryOf(sessions, user, last)]
  }

  function SumMinutes(t: seq<Entry>): int {
    if t == [] then 0 else SumMinutes(t[..|t| - 1]) + t[|t| - 1].minutes
  }

  function SumSessions(t: seq<Entry>): int {
    if t == [] then 0 else SumSessions(t[..|t| - 1]) + t[|t| - 1].sessions
  }

  function SumPages(t: seq<Entry>): int {
    if t == [] then 0 else SumPages(t[..|t| - 1]) + t[|t| - 1].pages
  }

  /** The days of a timeline that have at least one session. */
  function ActiveDays(t: seq<Entry>): int {
    if t == [] then 0 else ActiveDays(t[..|t| - 1]) + if t[|t| - 1].sessions > 0 then 1 else 0
  }

  /** Exactly one entry for each day of the range, in ascending order. */
  lemma {:induction false} OneEntryPerDay(sessions: Table<ReadingSession>, user: Id, first: int, last: int)
    requires first <= last + 1
    ensures var t := GetTimeline(sessions, user, first, last);
      && |t| == last - first + 1
      && (forall i :: 0 <= i < |t| ==> t[i] == EntryOf(sessions, user, first + i) && t[i].day == first + i)
    decreases last - first + 1
  {
    if first <= last {
      OneEntryPerDay(sessions, user, first, last - 1);
    }
  }

  /** Adjacent ranges concatenate. */
  lemma {:induction false} TimelineConcat(sessions: Table<ReadingSession>, user: Id, a: int, b: int, c: int)
    requires a <= b + 1 && b <= c
    ensures GetTimeline(sessions, user, a, c)
      == GetTimeline(sessions, user, a, b) + GetTimeline(sessions, user, b + 1, c)
    decreases c - b
  {
    if b < c {
      TimelineConcat(sessions, user, a, b, c - 1);
      var x, y := GetTimeline(sessions, user, a, b), GetTimeline(sessions, user, b + 1, c - 1);
      assert (x + y) + [EntryOf(sessions, user, c)] == x + (y + [EntryOf(sessions, user, c)]);
    }
  }

  lemma EndedNextDay(sessions: Table<ReadingSession>, user: Id, first: int, last: int, f: ReadingSession -> int)
    requires first <= last
    ensures SumOf(Ended(sessions, user, first, last + 1), f)
      == SumOf(Ended(sessions, user, first, last), f) + SumOf(EndedOnDay(sessions, user, last), f)
    ensures |Ended(sessions, user, first, last + 1)|
      == |Ended(sessions, user, first, last)| + |EndedOnDay(sessions, user, last)|
  {
    SumSplit(sessions, s => EndedWithin(s, user, first, last), s => EndedOn(s, user, last),
      s => EndedWithin(s, user, first, last + 1), f);
  }

  lemma SumsOfNext(t: seq<Entry>, e: Entry)
    ensures SumMinutes(t + [e]) == SumMinutes(t) + e.minutes
    ensures SumSessions(t + [e]) == SumSessions(t) + e.sessions
    ensures SumPages(t + [e]) == SumPages(t) + e.pages
    ensures ActiveDays(t + [e]) == ActiveDays(t) + if e.sessions > 0 then 1 else 0
  {
    assert (t + [e])[..|t + [e]| - 1] == t;
  }

  /** The entries' sessions and pages are those of the sessions that ended in the range. */
  lemma {:induction false} TimelineSums(sessions: Table<ReadingSession>, user: Id, first: int, last: int)
    requires first <= last + 1
    ensures var t := GetTimeline(sessions, user, first, last);
      && SumSessions(t) == |Ended(sessions, user, first, last + 1)|
      && SumPages(t) == SumOf(Ended(sessions, user, first, last + 1), Pages)
      && SumPages(t) == PagesLogged(Ended(sessions, user, first, last + 1))
    decreases last - first + 1
  {
    if first > last {
      WhereNone(sessions, s => EndedWithin(s, user, first, last + 1));
    } else {
      TimelineSums(sessions, user, first, last - 1);
      EndedNextDay(sessions, user, first, last, Pages);
      SumsOfNext(GetTimeline(sessions, user, first, last - 1), EntryOf(sessions, user, last));
    }
    TimesAddUp(Ended(sessions, user, first, last + 1));
  }

  lemma {:induction false} RoundedByDay(sessions: Table<ReadingSession>, user: Id, first: int, last: int)
    requires first <= last + 1
    ensures var t := GetTimeline(sessions, user, first, last);
      HalfMinutesOff(SumMinutes(t), SumOf(Ended(sessions, user, first, last + 1), Duration), ActiveDays(t))
    decreases last - first + 1
  {
    if first > last {
      WhereNone(sessions, s => EndedWithin(s, user, first, last + 1));
    } else {
      RoundedByDay(sessions, user, first, last - 1);
      EndedNextDay(sessions, user, first, last, Duration);
      var before := GetTimeline(sessions, user, first, last - 1);
      SumsOfNext(before, EntryOf(sessions, user, last));
      OneMoreDay(SumMinutes(before), SumOf(Ended(sessions, user, first, last), Duration), ActiveDays(before),
        SumOf(EndedOnDay(sessions, user, last), Duration));
    }
  }

  /** The minutes are what lies between the start times and the end times of the sessions that ended in the range,
      off by at most half a minute for each day with a session. */
  lemma TimelineMinutes(sessions: Table<ReadingSession>, user: Id, first: int, last: int)
    requires first <= last + 1
    ensures var t, rows := GetTimeline(sessions, user, first, last), Ended(sessions, user, first, last + 1);
      var error := 60_000_000 * SumMinutes(t) - (EndTimes(rows) - StartTimes(rows));
      -60_000_000 * ActiveDays(t) <= 2 * error <= 60_000_000 * ActiveDays(t)
  {
    RoundedByDay(sessions, user, first, last);
    TimesAddUp(Ended(sessions, user, first, last + 1));
  }

  /** The timeline of the day of a user's only session. */
  lemma OneSessionTimeline(r: Row<ReadingSession>, day: int)
    requires r.data.endedAt.Some? && day * 86_400_000_000 <= r.data.endedAt.value < (day + 1) * 86_400_000_000
    ensures var t := GetTimeline([r], r.data.userId, day, day);
      && |t| == 1 && t[0].day == day && t[0].sessions == 1
      && t[0].pages == (if r.data.pagesRead.Some? then r.data.pagesRead.value else 0)
      && -60_000_000 <= 2 * (60_000_000 * t[0].minutes - (r.data.endedAt.value - r.data.startedAt)) <= 60_000_000
  {
    var user, rows := r.data.userId, [r];
    assert DayOf(r.data.endedAt.value) == day;
    WhereAll(rows, s => EndedOn(s, user, day));
    SumHead(r, [], Duration);
    SumHead(r, [], Pages);
    assert rows == [r] + [];
    OneEntryPerDay(rows, user, day, day);
    RoundingError(Duration(r.data));
  }

  // ---------- get_stats ----------

  datatype Period = Week | Month | Year | All

  /** The interval of a period in microseconds; All has none. */
  function IntervalOf(period: Period): Option<int> {
    match period
    case Week => Some(7 * DAY)
    case Month => Some(30 * DAY)
    case Year => Some(365 * DAY)
    case All => None
  }

  predicate Counted(s: ReadingSession, user: Id, period: Period, now: int) {
    && s.userId == user && s.endedAt.Some?
    && (IntervalOf(period).Some? ==> s.endedAt.value >= now - IntervalOf(period).value)
  }

  datatype Stats = Stats(minutes: int, sessions: int, uniqueBooks: int, pages: int)

  /** The sessions that get_stats counts. */
  function CountedRows(
    sessions: Table<ReadingSession>, user: Id, period: Period, now: int): Table<ReadingSession>
  {
    Where(sessions, s => Counted(s, user, period, now))
  }

  function GetStats(sessions: Table<ReadingSession>, user: Id, period: Period, now: int): Stats {
    var rows := CountedRows(sessions, user, period, now);
    Stats(TruncateMinutes(SumOf(rows, Duration)), |rows|, |set r | r in rows :: r.data.releaseId|, SumOf(rows, Pages))
  }

  /** How far back a period goes. */
  ghost predicate Recent(t: int, period: Period, now: int) {
    match period
    case Week => t >= now - 7 * 86_400_000_000
    case Month => t >= now - 30 * 86_400_000_000
    case Year => t >= now - 365 * 86_400_000_000
    case All => true
  }

  lemma CountedIff(s: ReadingSession, user: Id, period: Period, now: int)
    ensures Counted(s, user, period, now)
      <==> s.userId == user && s.endedAt.Some? && Recent(s.endedAt.value, period, now)
  {
  }

  lemma CountedAre(sessions: Table<ReadingSession>, user: Id, period: Period, now: int)
    ensures forall r :: r in CountedRows(sessions, user, period, now) <==>
      r in sessions && r.data.userId == user && r.data.endedAt.Some? && Recent(r.data.endedAt.value, period, now)
  {
    forall r: Row<ReadingSession> ensures Counted(r.data, user, period, now)
      <==> r.data.userId == user && r.data.endedAt.Some? && Recent(r.data.endedAt.value, period, now)
    {
      CountedIff(r.data, user, period, now);
    }
  }

  /** The minutes are what lies between the start times and the end times of the counted sessions, short of it by
      less than a minute, toward zero; pages and sessions are theirs. */
  lemma StatsAddUp(sessions: Table<ReadingSession>, user: Id, period: Period, now: int)
    ensures var stats, rows := GetStats(sessions, user, period, now), CountedRows(sessions, user, period, now);
      var total := EndTimes(rows) - StartTimes(rows);
      var error := 60_000_000 * stats.minutes - total;
      && (if total >= 0 then -60_000_000 < error <= 0 else 0 <= error < 60_000_000)
      && stats.pages == PagesLogged(rows) && stats.sessions == |rows|
  {
    var rows := CountedRows(sessions, user, period, now);
    CountedAre(sessions, user, period, now);
    TimesAddUp(rows);
    TruncationError(SumOf(rows, Duration));
  }

  lemma CountedAppended(sessions: Table<ReadingSession>, r: Row<ReadingSession>, user: Id, period: Period, now: int)
    ensures var rows := CountedRows(sessions, user, period, now);
      CountedRows(sessions + [r], user, period, now)
      == if r.data.userId == user && r.data.endedAt.Some? && Recent(r.data.endedAt.value, period, now)
         then rows + [r] else rows
  {
    var rows, last := CountedRows(sessions, user, period, now), CountedRows([r], user, period, now);
    WhereConcat(sessions, [r], s => Counted(s, user, period, now));
    assert CountedRows(sessions + [r], user, period, now) == rows + last;
    WhereHead(r, [], s => Counted(s, user, period, now));
    assert [r] + [] == [r];
    CountedIff(r.data, user, period, now);
    assert last == if Counted(r.data, user, period, now) then [r] else [];
    assert rows + [] == rows;
  }

  lemma ReleasesAfter(rows: Table<ReadingSession>, r: Row<ReadingSession>)
    ensures |set q | q in rows + [r] :: q.data.releaseId| == |set q | q in rows :: q.data.releaseId|
      + if exists q :: q in rows && q.data.releaseId == r.data.releaseId then 0 else 1
  {
    var before, after := set q | q in rows :: q.data.releaseId, set q | q in rows + [r] :: q.data.releaseId;
    var more := rows + [r];
    assert more[|rows|] == r;
    forall id ensures id in after <==> id in before || id == r.data.releaseId {
      if id in before {
        var q :| q in rows && q.data.releaseId == id;
        assert q in more;
      }
    }
    assert after == before + {r.data.releaseId};
  }

  /** One more session counts, if at all, once, and its book if no counted session was of that book. */
  lemma StatsAfterLogging(
    sessions: Table<ReadingSession>, r: Row<ReadingSession>, user: Id, period: Period, now: int)
    ensures GetStats([], user, period, now) == Stats(0, 0, 0, 0)
    ensures var x, y := GetStats(sessions, user, period, now), GetStats(sessions + [r], user, period, now);
      if r.data.userId == user && r.data.endedAt.Some? && Recent(r.data.endedAt.value, period, now) then
        && y.sessions == x.sessions + 1
        && y.uniqueBooks == x.uniqueBooks
             + if exists q :: q in CountedRows(sessions, user, period, now) && q.data.releaseId == r.data.releaseId
               then 0 else 1
      else y == x
  {
    CountedAppended(sessions, r, user, period, now);
    ReleasesAfter(CountedRows(sessions, user, period, now), r);
    assert (set q | q in CountedRows([], user, period, now) :: q.data.releaseId) == {};
  }

  lemma RoundedAgainstTruncated(minutes: int, total: int, n: int)
    requires HalfMinutesOff(minutes, total, n)
    ensures -(n + 2) < 2 * (minutes - TruncateMinutes(total)) < n + 2
  {
    TruncationError(total);
  }

  lemma CoveredAreCounted(sessions: Table<ReadingSession>, user: Id, first: int, last: int, now: int)
    requires forall d :: d in ReadingDays(sessions, user) ==> first <= d <= last
    ensures Ended(sessions, user, first, last + 1) == Where(sessions, s => Counted(s, user, All, now))
  {
    forall r | r in sessions ensures EndedWithin(r.data, user, first, last + 1) == Counted(r.data, user, All, now) {
      assert Counted(r.data, user, All, now) ==> DayOf(r.data.endedAt.value) in ReadingDays(sessions, user);
    }
    WhereSame(sessions, s => EndedWithin(s, user, first, last + 1), s => Counted(s, user, All, now));
  }

  /** Over a range that covers every ended session of the user, the timeline's sessions and
      pages are the all-time totals, and its minutes, rounded day by day, differ from the
      truncated all-time total by less than D/2 + 1, D the number of days with a session. */
  lemma TimelineAgreesWithStats(sessions: Table<ReadingSession>, user: Id, first: int, last: int, now: int)
    requires first <= last + 1
    requires forall d :: d in ReadingDays(sessions, user) ==> first <= d <= last
    ensures var t := GetTimeline(sessions, user, first, last);
      var stats := GetStats(sessions, user, All, now);
      && SumSessions(t) == stats.sessions
      && SumPages(t) == stats.pages
      && -(ActiveDays(t) + 2) < 2 * (SumMinutes(t) - stats.minutes) < ActiveDays(t) + 2
  {
    var t, rows := GetTimeline(sessions, user, first, last), Ended(sessions, user, first, last + 1);
    TimelineSums(sessions, user, first, last);
    TimelineMinutes(sessions, user, first, last);
    CoveredAreCounted(sessions, user, first, last, now);
    RoundedByDay(sessions, user, first, last);
    RoundedAgainstTruncated(SumMinutes(t), SumOf(rows, Duration), ActiveDays(t));
  }

  predicate Shorter(p: Period, q: Period) {
    IntervalOf(q).None? || (IntervalOf(p).Some? && IntervalOf(p).value <= IntervalOf(q).value)
  }

  /** No session ends before it starts, or has fewer than no pages. */
  predicate Sensible(s: ReadingSession) {
    Duration(s) >= 0 && Pages(s) >= 0
  }

  /** A shorter period never counts more sessions or more books, nor, if the data are sensible, more minutes
      or pages. */
  lemma PeriodsNest(sessions: Table<ReadingSession>, user: Id, now: int, p: Period, q: Period)
    requires Shorter(p, q)
    ensures var x, y := GetStats(sessions, user, p, now), GetStats(sessions, user, q, now);
      && x.sessions <= y.sessions && x.uniqueBooks <= y.uniqueBooks
      && ((forall r :: r in sessions ==> Sensible(r.data)) ==> x.minutes <= y.minutes && x.pages <= y.pages)
  {
    var shorter := (s: ReadingSession) => Counted(s, user, p, now);
    var longer := (s: ReadingSession) => Counted(s, user, q, now);
    var rows, more := Where(sessions, shorter), Where(sessions, longer);
    WhereMonotone(sessions, shorter, longer);
    SubsetSize(set r | r in rows :: r.data.releaseId, set r | r in more :: r.data.releaseId);
    if forall r :: r in sessions ==> Sensible(r.data) {
      SumMonotone(sessions, shorter, longer, Duration);
      SumMonotone(sessions, shorter, longer, Pages);
      TruncateMonotone(SumOf(rows, Duration), SumOf(more, Duration));
    }
  }

  lemma TruncateMonotone(x: int, y: int)
    requires 0 <= x <= y
    ensures TruncateMinutes(x) <= TruncateMinutes(y)
  {
  }

  lemma {:induction false} WhereMonotone<D(!new)>(t: Table<D>, p: D -> bool, q: D -> bool)
    requires forall r :: r in t && p(r.data) ==> q(r.data)
    ensures |Where(t, p)| <= |Where(t, q)|
  {
    if t != [] {
      assert t[0] in t;
      WhereMonotone(t[1..], p, q);
    }
  }

  lemma {:induction false} SumMonotone<D(!new)>(t: Table<D>, p: D -> bool, q: D -> bool, f: D -> int)
    requires forall r :: r in t ==> (p(r.data) ==> q(r.data)) && f(r.data) >= 0
    ensures 0 <= SumOf(Where(t, p), f) <= SumOf(Where(t, q), f)
  {
    if t != [] {
      assert t[0] in t;
      SumMonotone(t[1..], p, q, f);
      WhereSum(t, p, f);
      WhereSum(t, q, f);
    }
  }

  lemma WhereSum<D(!new)>(t: Table<D>, p: D -> bool, f: D -> int)
    requires t != []
    ensures SumOf(Where(t, p), f) == (if p(t[0].data) then f(t[0].data) else 0) + SumOf(Where(t[1..], p), f)
  {
    SumHead(t[0], Where(t[1..], p), f);
  }
}
