/** Reading streaks: the windowed pipeline of get_streak, stage by stage, and what it computes. */
module ReadingStreak {
  import opened Sql
  import opened Schema

  const DAY := 86_400_000_000  // microseconds

  /** DATE(t AT TIME ZONE 'UTC'): Dafny's division by a positive number rounds down. */
  function DayOf(t: int): int {
    t / DAY
  }

  function Max(a: int, b: int): int {
    if a < b then b else a
  }

  // ---------- The pipeline ----------

  predicate Descending(days: seq<int>) {
    forall i, j :: 0 <= i < j < |days| ==> days[i] > days[j]
  }

  function InsertDay(d: int, days: seq<int>): (r: seq<int>)
    requires Descending(days)
    ensures Descending(r)
    ensures forall x :: x in r <==> x == d || x in days
  {
    if days == [] || d > days[0] then [d] + days
    else if d == days[0] then days
    else
      var rest := InsertDay(d, days[1..]);
      assert forall i :: 0 <= i < |rest| ==> rest[i] < days[0] by {
        forall i | 0 <= i < |rest| ensures rest[i] < days[0] {
          assert rest[i] in rest;
        }
      }
      [days[0]] + rest
  }

  /** daily_sessions: the distinct days on which one of the user's sessions ended, newest first. */
  function DailySessions(sessions: Table<ReadingSession>, user: Id): (days: seq<int>)
    ensures Descending(days)
    ensures forall d :: d in days <==> d in ReadingDays(sessions, user)
  {
    if sessions == [] then []
    else
      var rest := DailySessions(sessions[1..], user);
      var s := sessions[0].data;
      if s.userId == user && s.endedAt.Some? then InsertDay(DayOf(s.endedAt.value), rest) else rest
  }

  datatype GapRow = GapRow(date: int, gapDays: Option<int>)

  /** gaps: LAG(session_date) over the same order is NULL on the first row. */
  function Gaps(days: seq<int>): (r: seq<GapRow>)
    ensures |r| == |days|
  {
    seq(|days|, i requires 0 <= i < |days| =>
      GapRow(days[i], if i == 0 then None else Some(days[i - 1] - days[i])))
  }

  /** CASE WHEN gap_days != 1 THEN 1 ELSE 0 END: a NULL gap takes the ELSE branch. */
  function StartsGroup(g: GapRow): int {
    if Holds(Not(Equal(g.gapDays, Some(1)))) then 1 else 0
  }

  /** SUM(...) OVER (ORDER BY session_date DESC), up to and including row i. */
  function GroupAt(gaps: seq<GapRow>, i: nat): int
    requires i < |gaps|
  {
    StartsGroup(gaps[i]) + if i == 0 then 0 else GroupAt(gaps, i - 1)
  }

  datatype StreakRow = StreakRow(group: int, date: int)

  function Streaks(gaps: seq<GapRow>): (r: seq<StreakRow>)
    ensures |r| == |gaps|
  {
    seq(|gaps|, i requires 0 <= i < |gaps| => StreakRow(GroupAt(gaps, i), gaps[i].date))
  }

  datatype StreakLength = StreakLength(length: nat, maxDate: int)

  function CountGroup(rows: seq<StreakRow>, group: int): nat {
    if rows == [] then 0 else (if rows[0].group == group then 1 else 0) + CountGroup(rows[1..], group)
  }

  /** MAX(session_date) over a group, starting from the date of one of its rows. */
  function MaxDate(rows: seq<StreakRow>, group: int, date: int): int {
    if rows == [] then date
    else MaxDate(rows[1..], group, if rows[0].group == group then Max(date, rows[0].date) else date)
  }

  /** The aggregates of the group that row i is in. */
  function GroupRow(rows: seq<StreakRow>, i: nat): StreakLength
    requires i < |rows|
  {
    StreakLength(CountGroup(rows, rows[i].group), MaxDate(rows, rows[i].group, rows[i].date))
  }

  /** streak_lengths: GROUP BY streak_group, one result row for each group. */
  function StreakLengths(rows: seq<StreakRow>): set<StreakLength> {
    set i | 0 <= i < |rows| :: GroupRow(rows, i)
  }

  /** COALESCE(MAX(x), 0). */
  ghost function MaxOrZero(s: set<nat>): (m: nat)
    ensures forall x :: x in s ==> x <= m
    ensures if s == {} then m == 0 else m in s
  {
    if s == {} then 0
    else
      var x :| x in s;
      var rest := MaxOrZero(s - {x});
      assert forall y :: y in s ==> y == x || y in s - {x};
      if x < rest then rest else x
  }

  datatype Streak = Streak(current: nat, longest: nat)

  /** FILTER (WHERE max_date = today). */
  ghost function LengthsEnding(days: seq<int>, today: int): set<nat> {
    set l | l in StreakLengths(Streaks(Gaps(days))) && l.maxDate == today :: l.length
  }

  ghost function AllLengths(days: seq<int>): set<nat> {
    set l | l in StreakLengths(Streaks(Gaps(days))) :: l.length
  }

  ghost function GetStreak(sessions: Table<ReadingSession>, user: Id, today: int): Streak {
    var days := DailySessions(sessions, user);
    Streak(MaxOrZero(LengthsEnding(days, today)), MaxOrZero(AllLengths(days)))
  }

  // ---------- What a streak is, without the pipeline ----------

  function ReadingDays(sessions: Table<ReadingSession>, user: Id): set<int> {
    set r | r in sessions && r.data.userId == user && r.data.endedAt.Some? :: DayOf(r.data.endedAt.value)
  }

  ghost predicate EndedFromTo(s: ReadingSession, user: Id, start: int, end: int) {
    s.userId == user && s.endedAt.Some? && start <= s.endedAt.value < end
  }

  /** A reading day of a user is a day, from midnight to midnight UTC, within which one of their sessions ended. */
  lemma ReadingDaysAre(sessions: Table<ReadingSession>, user: Id, d: int)
    ensures d in ReadingDays(sessions, user) <==> exists r :: r in sessions && EndedFromTo(
      r.data, user, d * 86_400_000_000, (d + 1) * 86_400_000_000)
  {
    if r :| r in sessions && r.data.userId == user && r.data.endedAt.Some? && DayOf(r.data.endedAt.value) == d {
      assert EndedFromTo(r.data, user, d * 86_400_000_000, (d + 1) * 86_400_000_000);
    }
    if r :| r in sessions && EndedFromTo(r.data, user, d * 86_400_000_000, (d + 1) * 86_400_000_000) {
      assert DayOf(r.data.endedAt.value) == d;
    }
  }

  /** Days lo, lo+1, ..., lo+n-1 were all reading days. */
  ghost predicate Run(days: set<int>, lo: int, n: int) {
    forall d :: lo <= d < lo + n ==> d in days
  }

  /** A run that neither the day before nor the day after extends. */
  ghost predicate Block(days: set<int>, lo: int, hi: int) {
    lo <= hi && Run(days, lo, hi - lo + 1) && lo - 1 !in days && hi + 1 !in days
  }

  /** n is the largest number of consecutive days that were all reading days. */
  ghost predicate IsLongestRun(days: set<int>, n: nat) {
    (exists lo :: Run(days, lo, n)) && (forall lo, m: nat :: Run(days, lo, m) ==> m <= n)
  }

  function RunEnding(days: set<int>, d: int): nat {
    if d in days then 1 + RunEnding(days - {d}, d - 1) else 0
  }

  function RunStarting(days: set<int>, d: int): nat {
    if d in days then 1 + RunStarting(days - {d}, d + 1) else 0
  }

  /** The run that a new reading day d belongs to: its neighbours' runs joined through d. */
  function JoinedLength(days: set<int>, d: int): nat {
    RunEnding(days, d - 1) + 1 + RunStarting(days, d + 1)
  }

  // ---------- The groups are the maximal blocks ----------

  /** Two rows share a group exactly when the days between them are consecutive. */
  lemma {:induction false} GroupGap(days: seq<int>, i: nat, j: nat)
    requires Descending(days) && i <= j < |days|
    ensures GroupAt(Gaps(days), i) <= GroupAt(Gaps(days), j)
    ensures GroupAt(Gaps(days), i) == GroupAt(Gaps(days), j) <==> days[i] - days[j] == j - i
    ensures days[i] - days[j] >= j - i
  {
    if i < j {
      GroupGap(days, i, j - 1);
    }
  }

  lemma {:induction false} CountInterval(rows: seq<StreakRow>, group: int, a: nat, b: nat)
    requires a <= b <= |rows|
    requires forall k :: 0 <= k < |rows| ==> (rows[k].group == group <==> a <= k < b)
    ensures CountGroup(rows, group) == b - a
  {
    if rows != [] {
      var b' := if b == 0 then 0 else b - 1;
      CountInterval(rows[1..], group, if a == 0 then 0 else a - 1, b');
    }
  }

  lemma {:induction false} MaxOfInterval(rows: seq<StreakRow>, group: int, a: nat, b: nat, date: int)
    requires a <= b <= |rows|
    requires forall k :: 0 <= k < |rows| ==> (rows[k].group == group <==> a <= k < b)
    requires forall i, j :: 0 <= i < j < |rows| ==> rows[i].date > rows[j].date
    ensures MaxDate(rows, group, date) == if a < b && rows[a].date > date then rows[a].date else date
  {
    if rows != [] {
      var date' := if rows[0].group == group then Max(date, rows[0].date) else date;
      MaxOfInterval(rows[1..], group, if a == 0 then 0 else a - 1, if b == 0 then 0 else b - 1, date');
    }
  }

  /** The rows around row i whose dates are consecutive. */
  lemma Bounds(days: seq<int>, i: nat) returns (a: nat, b: nat)
    requires Descending(days) && i < |days|
    ensures a <= i < b <= |days|
    ensures days[a] - days[b - 1] == b - 1 - a && days[a] - days[i] == i - a
    ensures a > 0 ==> days[a - 1] > days[a] + 1
    ensures b < |days| ==> days[b] < days[b - 1] - 1
  {
    a := i;
    while a > 0 && days[a - 1] == days[a] + 1
      invariant a <= i && days[a] - days[i] == i - a
    {
      a := a - 1;
    }
    b := i + 1;
    while b < |days| && days[b] == days[b - 1] - 1
      invariant i < b <= |days| && days[i] - days[b - 1] == b - 1 - i
    {
      b := b + 1;
    }
  }

  lemma Consecutive(days: seq<int>, a: nat, b: nat)
    requires Descending(days) && a < b <= |days| && days[a] - days[b - 1] == b - 1 - a
    ensures forall k :: a <= k < b ==> days[k] == days[a] - (k - a)
  {
    forall k | a <= k < b ensures days[k] == days[a] - (k - a) {
      GroupGap(days, a, k);
      GroupGap(days, k, b - 1);
    }
  }

  /** They are exactly the rows of row i's group. */
  lemma GroupInterval(days: seq<int>, i: nat, a: nat, b: nat, k: nat)
    requires Descending(days) && a <= i < b <= |days| && k < |days|
    requires days[a] - days[b - 1] == b - 1 - a
    requires a > 0 ==> days[a - 1] > days[a] + 1
    requires b < |days| ==> days[b] < days[b - 1] - 1
    ensures GroupAt(Gaps(days), k) == GroupAt(Gaps(days), i) <==> a <= k < b
  {
    Consecutive(days, a, b);
    if k <= i { GroupGap(days, k, i); } else { GroupGap(days, i, k); }
    if k < a { GroupGap(days, k, a - 1); }
    if k >= b { GroupGap(days, b, k); }
  }

  lemma GroupRowIs(days: seq<int>, i: nat, a: nat, b: nat)
    requires Descending(days) && a <= i < b <= |days|
    requires days[a] - days[b - 1] == b - 1 - a
    requires a > 0 ==> days[a - 1] > days[a] + 1
    requires b < |days| ==> days[b] < days[b - 1] - 1
    ensures GroupRow(Streaks(Gaps(days)), i) == StreakLength(b - a, days[a])
  {
    var rows := Streaks(Gaps(days));
    forall k | 0 <= k < |rows| ensures rows[k].group == rows[i].group <==> a <= k < b {
      GroupInterval(days, i, a, b, k);
    }
    CountInterval(rows, rows[i].group, a, b);
    MaxOfInterval(rows, rows[i].group, a, b, rows[i].date);
  }

  ghost function DaySet(days: seq<int>): set<int> {
    set d | d in days
  }

  lemma IntervalIsBlock(days: seq<int>, a: nat, b: nat)
    requires Descending(days) && a < b <= |days| && days[a] - days[b - 1] == b - 1 - a
    requires a > 0 ==> days[a - 1] > days[a] + 1
    requires b < |days| ==> days[b] < days[b - 1] - 1
    ensures Block(DaySet(days), days[b - 1], days[a])
  {
    Consecutive(days, a, b);
    var lo, hi := days[b - 1], days[a];
    forall d | lo <= d <= hi ensures d in days {
      assert days[a + (hi - d)] == d;
    }
    forall k | 0 <= k < |days| ensures days[k] != hi + 1 && days[k] != lo - 1 {
      assert k < a ==> days[k] >= days[a - 1];
      assert k >= b ==> days[k] <= days[b];
    }
  }

  lemma RowIsBlock(days: seq<int>, i: nat) returns (length: nat, last: int)
    requires Descending(days) && i < |days|
    ensures last - length + 1 <= days[i] <= last && Block(DaySet(days), last - length + 1, last)
    ensures GroupRow(Streaks(Gaps(days)), i) == StreakLength(length, last)
  {
    var a, b := Bounds(days, i);
    GroupRowIs(days, i, a, b);
    IntervalIsBlock(days, a, b);
    length, last := b - a, days[a];
  }

  lemma BlockUnique(days: set<int>, lo: int, hi: int, lo': int, hi': int, d: int)
    requires Block(days, lo, hi) && Block(days, lo', hi') && lo <= d <= hi && lo' <= d <= hi'
    ensures lo == lo' && hi == hi'
  {
    assert hi < hi' ==> hi + 1 in days;
    assert hi' < hi ==> hi' + 1 in days;
    assert lo < lo' ==> lo' - 1 in days;
    assert lo' < lo ==> lo - 1 in days;
  }

  lemma GroupIsBlock(days: seq<int>, l: StreakLength)
    requires Descending(days) && l in StreakLengths(Streaks(Gaps(days)))
    ensures Block(DaySet(days), l.maxDate - l.length + 1, l.maxDate)
  {
    var i :| 0 <= i < |days| && l == GroupRow(Streaks(Gaps(days)), i);
    var n, m := RowIsBlock(days, i);
  }

  lemma BlockIsGroup(days: seq<int>, length: nat, last: int)
    requires Descending(days) && Block(DaySet(days), last - length + 1, last)
    ensures StreakLength(length, last) in StreakLengths(Streaks(Gaps(days)))
  {
    assert last in DaySet(days);
    var n, m := BlockAround(days, last);
    BlockUnique(DaySet(days), last - length + 1, last, m - n + 1, m, last);
  }

  /** The grouped rows are exactly the maximal blocks of consecutive reading days, each
      with its length and its last day. */
  lemma GroupsAreBlocks(days: seq<int>, length: nat, last: int)
    requires Descending(days)
    ensures StreakLength(length, last) in StreakLengths(Streaks(Gaps(days)))
      <==> Block(DaySet(days), last - length + 1, last)
  {
    if StreakLength(length, last) in StreakLengths(Streaks(Gaps(days))) {
      GroupIsBlock(days, StreakLength(length, last));
    }
    if Block(DaySet(days), last - length + 1, last) {
      BlockIsGroup(days, length, last);
    }
  }

  lemma BlockAround(days: seq<int>, d: int) returns (length: nat, last: int)
    requires Descending(days) && d in days
    ensures last - length + 1 <= d <= last
    ensures StreakLength(length, last) in StreakLengths(Streaks(Gaps(days)))
    ensures Block(DaySet(days), last - length + 1, last)
  {
    var i :| 0 <= i < |days| && days[i] == d;
    length, last := RowIsBlock(days, i);
  }

  // ---------- longest_streak_days ----------

  /** longest_streak_days is the largest number of consecutive days that were all reading days. */
  lemma LongestStreak(sessions: Table<ReadingSession>, user: Id, today: int)
    ensures var longest := GetStreak(sessions, user, today).longest;
      var days := ReadingDays(sessions, user);
      IsLongestRun(days, longest)
  {
    var days := DailySessions(sessions, user);
    var s := ReadingDays(sessions, user);
    assert s == DaySet(days);
    var all := AllLengths(days);
    var longest := MaxOrZero(all);
    if longest == 0 {
      assert Run(s, 0, 0);
    } else {
      var l :| l in StreakLengths(Streaks(Gaps(days))) && l.length == longest;
      GroupsAreBlocks(days, l.length, l.maxDate);
      assert Run(s, l.maxDate - longest + 1, longest);
    }
    forall lo, n: nat | Run(s, lo, n) ensures n <= longest {
      if n > 0 {
        assert lo in s;
        var length, last := BlockAround(days, lo);
        assert StreakLength(length, last).length in all;
        assert lo + n - 1 > last ==> last + 1 in s;
      }
    }
  }

  lemma LongestRunUnique(days: set<int>, n: nat, m: nat)
    requires IsLongestRun(days, n) && IsLongestRun(days, m)
    ensures n == m
  {
    var lo :| Run(days, lo, n);
    var hi :| Run(days, hi, m);
  }

  lemma LongestIs(sessions: Table<ReadingSession>, user: Id, today: int, n: nat)
    requires IsLongestRun(ReadingDays(sessions, user), n)
    ensures GetStreak(sessions, user, today).longest == n
  {
    LongestStreak(sessions, user, today);
    LongestRunUnique(ReadingDays(sessions, user), n, GetStreak(sessions, user, today).longest);
  }

  // ---------- current_streak_days ----------

  lemma {:induction false} RunEndingIs(days: set<int>, d: int)
    ensures var n := RunEnding(days, d); Run(days, d - n + 1, n) && d - n !in days
    ensures forall lo, hi :: Block(days, lo, hi) && hi == d ==> RunEnding(days, d) == hi - lo + 1
  {
    if d in days {
      RunEndingIs(days - {d}, d - 1);
      var n := RunEnding(days - {d}, d - 1);
      forall k | d - n <= k < d + 1 ensures k in days {
        assert k < d ==> k in days - {d};
      }
      assert d - (n + 1) !in days - {d};
    }
    var n := RunEnding(days, d);
    forall lo, hi | Block(days, lo, hi) && hi == d ensures n == hi - lo + 1 {
      assert n < hi - lo + 1 ==> d - n in days;
      assert n > hi - lo + 1 ==> lo - 1 in days;
    }
  }

  lemma {:induction false} RunStartingIs(days: set<int>, d: int)
    ensures var n := RunStarting(days, d); Run(days, d, n) && d + n !in days
  {
    if d in days {
      RunStartingIs(days - {d}, d + 1);
      var n := RunStarting(days - {d}, d + 1);
      forall k | d <= k < d + n + 1 ensures k in days {
        assert k > d ==> k in days - {d};
      }
      assert d + (n + 1) !in days - {d};
    }
  }

  lemma LengthEndingIsRun(days: seq<int>, today: int, length: nat)
    requires Descending(days) && length in LengthsEnding(days, today)
    ensures length == RunEnding(DaySet(days), today) && today in days && today + 1 !in days
  {
    GroupIsBlock(days, StreakLength(length, today));
    RunEndingIs(DaySet(days), today);
    assert today in DaySet(days) && today + 1 !in DaySet(days);
  }

  lemma RunIsLengthEnding(days: seq<int>, today: int)
    requires Descending(days) && today in days && today + 1 !in days
    ensures RunEnding(DaySet(days), today) in LengthsEnding(days, today)
  {
    var length, last := BlockAround(days, today);
    assert last > today ==> today + 1 in DaySet(days);
    assert length in LengthsEnding(days, today);
    LengthEndingIsRun(days, today, length);
  }

  lemma CurrentOfDays(days: seq<int>, today: int)
    requires Descending(days)
    ensures MaxOrZero(LengthsEnding(days, today)) == if today + 1 in days then 0 else RunEnding(DaySet(days), today)
  {
    var lengths := LengthsEnding(days, today);
    forall l | l in lengths ensures l == RunEnding(DaySet(days), today) && today in days && today + 1 !in days {
      LengthEndingIsRun(days, today, l);
    }
    if today in days && today + 1 !in days {
      RunIsLengthEnding(days, today);
    }
  }

  /** current_streak_days is the run of days that ends today, except that it is 0 as soon as
      a session has already ended tomorrow (the end time is client data). */
  lemma CurrentStreak(sessions: Table<ReadingSession>, user: Id, today: int)
    ensures var days := ReadingDays(sessions, user);
      GetStreak(sessions, user, today).current == if today + 1 in days then 0 else RunEnding(days, today)
  {
    var days := DailySessions(sessions, user);
    assert DaySet(days) == ReadingDays(sessions, user);
    CurrentOfDays(days, today);
  }

  /** So it is the run of days ending today exactly when today is not a reading day or
      tomorrow is not one. */
  lemma CurrentStreakIsRunIff(sessions: Table<ReadingSession>, user: Id, today: int)
    ensures var days := ReadingDays(sessions, user);
      GetStreak(sessions, user, today).current == RunEnding(days, today) <==> today !in days || today + 1 !in days
  {
    CurrentStreak(sessions, user, today);
    RunEndingIs(ReadingDays(sessions, user), today);
  }

  /** Sessions that ended today and tomorrow, by the times their reader gave. */
  function TodayAndTomorrow(user: Id, release: Id, today: int): Table<ReadingSession> {
    var s := ReadingSession(user, release, today * DAY, Some(today * DAY), None, None, None, None, None);
    [Row(0, s), Row(1, s.(endedAt := Some((today + 1) * DAY)))]
  }

  /** There the current streak is 0, though today is a reading day. */
  lemma TomorrowEndsStreak(user: Id, release: Id, today: int)
    ensures var sessions := TodayAndTomorrow(user, release, today);
      && GetStreak(sessions, user, today).current == 0
      && RunEnding(ReadingDays(sessions, user), today) >= 1
  {
    var sessions := TodayAndTomorrow(user, release, today);
    assert sessions[0] in sessions && sessions[1] in sessions;
    assert DayOf(sessions[0].data.endedAt.value) == today && DayOf(sessions[1].data.endedAt.value) == today + 1;
    assert today in ReadingDays(sessions, user) && today + 1 in ReadingDays(sessions, user);
    CurrentStreak(sessions, user, today);
  }

  // ---------- Logging one more session ----------

  lemma DaysAfterLogging(sessions: Table<ReadingSession>, r: Row<ReadingSession>)
    requires r.data.endedAt.Some?
    ensures ReadingDays(sessions + [r], r.data.userId)
      == ReadingDays(sessions, r.data.userId) + {DayOf(r.data.endedAt.value)}
  {
    var user := r.data.userId;
    var d := DayOf(r.data.endedAt.value);
    forall x ensures x in ReadingDays(sessions + [r], user) <==> x in ReadingDays(sessions, user) + {d} {
      if x in ReadingDays(sessions, user) {
        var q :| q in sessions && q.data.userId == user && q.data.endedAt.Some? && DayOf(q.data.endedAt.value) == x;
        assert q in sessions + [r];
      }
      if x == d {
        assert r in sessions + [r];
      }
    }
  }

  lemma RunsThroughNewDay(days: set<int>, d: int, lo: int, n: nat)
    requires Run(days + {d}, lo, n)
    ensures Run(days, lo, n) || n <= JoinedLength(days, d)
  {
    var a, b := RunEnding(days, d - 1), RunStarting(days, d + 1);
    RunEndingIs(days, d - 1);
    RunStartingIs(days, d + 1);
    if lo <= d < lo + n {
      assert lo < d - a ==> d - 1 - a in days + {d};
      assert lo + n > d + 1 + b ==> d + 1 + b in days + {d};
    } else {
      forall k | lo <= k < lo + n ensures k in days {
        assert k in days + {d};
      }
    }
  }

  lemma JoinedRun(days: set<int>, d: int)
    ensures Run(days + {d}, d - RunEnding(days, d - 1), JoinedLength(days, d))
  {
    RunEndingIs(days, d - 1);
    RunStartingIs(days, d + 1);
  }

  lemma JoinedLongest(days: set<int>, d: int, n: nat)
    requires IsLongestRun(days, n)
    ensures IsLongestRun(days + {d}, Max(n, JoinedLength(days, d)))
  {
    var joined := JoinedLength(days, d);
    JoinedRun(days, d);
    var lo :| Run(days, lo, n);
    assert Run(days + {d}, lo, n);
    forall lo', m: nat | Run(days + {d}, lo', m) ensures m <= Max(n, joined) {
      RunsThroughNewDay(days, d, lo', m);
    }
  }

  lemma LongestGrows(before: Table<ReadingSession>, after: Table<ReadingSession>, user: Id, today: int, d: int)
    requires ReadingDays(after, user) == ReadingDays(before, user) + {d}
    ensures GetStreak(after, user, today).longest
      == Max(GetStreak(before, user, today).longest, JoinedLength(ReadingDays(before, user), d))
  {
    var n := GetStreak(before, user, today).longest;
    LongestStreak(before, user, today);
    JoinedLongest(ReadingDays(before, user), d, n);
    LongestIs(after, user, today, Max(n, JoinedLength(ReadingDays(before, user), d)));
  }

  /** A session on day d joins the run that ends the day before and the run that starts the
      day after; the longest streak becomes that joined run when it is longer, else stays. */
  lemma LoggingJoinsRuns(sessions: Table<ReadingSession>, r: Row<ReadingSession>, user: Id, d: int, today: int)
    requires r.data.userId == user && r.data.endedAt.Some? && d == DayOf(r.data.endedAt.value)
    ensures GetStreak(sessions + [r], user, today).longest
      == Max(GetStreak(sessions, user, today).longest, JoinedLength(ReadingDays(sessions, user), d))
  {
    DaysAfterLogging(sessions, r);
    LongestGrows(sessions, sessions + [r], user, today, d);
  }
}
