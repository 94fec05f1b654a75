/**
 * Monday-to-Sunday week arithmetic (src/lib/week.ts).
 *
 * An instant is a whole number of days since 1970-01-01 plus the milliseconds
 * elapsed within that day, read in one fixed time zone. Day 0 was a Thursday,
 * so the JavaScript weekday (0 = Sunday ... 6 = Saturday) is (day + 4) % 7;
 * Dafny's % is Euclidean, which is also right for days before the epoch.
 * Every function here copies its argument and adjusts the copy, as the
 * source does, so they are plain functions.
 */
module Week {

  const MsPerDay: int := 86_400_000
  const MsPerWeek: int := 7 * MsPerDay

  type TimeOfDay = ms: int | 0 <= ms < 86_400_000

  datatype Instant = Instant(day: int, ms: TimeOfDay)

  /** Date.getTime(): milliseconds since the epoch. */
  function Time(d: Instant): int {
    d.day * MsPerDay + d.ms
  }

  /** new Date(t) for a timestamp t in milliseconds. */
  function FromTime(t: int): (d: Instant)
    ensures Time(d) == t
    ensures 0 <= t - d.day * MsPerDay < MsPerDay
  {
    Instant(t / MsPerDay, t % MsPerDay)
  }

  /** Date.getDay(): 0 is Sunday, 1 is Monday, ..., 6 is Saturday. */
  function Weekday(d: Instant): (wd: int)
    ensures 0 <= wd < 7
  {
    (d.day + 4) % 7
  }

  /** The instant is a Monday at 00:00:00.000. */
  predicate IsWeekStart(d: Instant) {
    Weekday(d) == 1 && d.ms == 0
  }

  /**
   * getWeekStart: the date moves to `getDate() - day + (day == 0 ? -6 : 1)`
   * and the time of day is zeroed. The result is the Monday at midnight of
   * the Monday-to-Sunday week that contains d.
   */
  function WeekStart(d: Instant): (s: Instant)
    ensures IsWeekStart(s)
    ensures s.day <= d.day < s.day + 7
    ensures Weekday(d) == 0 ==> s.day == d.day - 6
    ensures Weekday(d) != 0 ==> s.day == d.day - (Weekday(d) - 1)
  {
    var day := Weekday(d);
    var diff := d.day - day + (if day == 0 then -6 else 1);
    Instant(diff, 0)
  }

  /** getWeekEnd: six days after the week's Monday, at 23:59:59.999. */
  function WeekEnd(d: Instant): (e: Instant)
    ensures Weekday(e) == 0
    ensures e.day == WeekStart(d).day + 6
    ensures Time(WeekStart(d)) <= Time(d) <= Time(e)
    ensures Time(e) - Time(WeekStart(d)) == MsPerWeek - 1
  {
    var start := WeekStart(d);
    Instant(start.day + 6, 23 * 3_600_000 + 59 * 60_000 + 59 * 1_000 + 999)
  }

  /** getPreviousWeek: the same weekday and time of day, seven days earlier. */
  function PreviousWeek(w: Instant): (p: Instant)
    ensures Time(p) == Time(w) - MsPerWeek
    ensures Weekday(p) == Weekday(w) && p.ms == w.ms
  {
    Instant(w.day - 7, w.ms)
  }

  /** getNextWeek: the same weekday and time of day, seven days later. */
  function NextWeek(w: Instant): (n: Instant)
    ensures Time(n) == Time(w) + MsPerWeek
    ensures Weekday(n) == Weekday(w) && n.ms == w.ms
  {
    Instant(w.day + 7, w.ms)
  }

  /** isCurrentWeek, with the clock reading `now` passed in. */
  predicate IsCurrentWeek(w: Instant, now: Instant) {
    Time(w) == Time(WeekStart(now))
  }

  /** isFutureWeek, with the clock reading `now` passed in. */
  predicate IsFutureWeek(w: Instant, now: Instant) {
    Time(w) > Time(WeekStart(now))
  }

  /** The third case neither of the two predicates above names. */
  predicate IsPastWeek(w: Instant, now: Instant) {
    Time(w) < Time(WeekStart(now))
  }

  /** getWeekStartTimestamp: the week's Monday as milliseconds since the epoch. */
  function WeekStartTimestamp(d: Instant): (t: int)
    ensures FromTime(t) == WeekStart(d)
    ensures t % MsPerDay == 0
    ensures t <= Time(d) < t + MsPerWeek
  {
    TimeRoundTrip(WeekStart(d));
    Time(WeekStart(d))
  }

  // ---------------------------------------------------------------- lemmas

  /** Reading an instant's timestamp back gives the same instant. */
  lemma TimeRoundTrip(d: Instant)
    ensures FromTime(Time(d)) == d
  {
    var t := Time(d);
    var e := FromTime(t);
    assert 0 <= t - e.day * MsPerDay < MsPerDay;
    assert 0 <= t - d.day * MsPerDay < MsPerDay;
    assert (e.day - d.day) * MsPerDay < MsPerDay;
    assert (d.day - e.day) * MsPerDay < MsPerDay;
    assert e.day == d.day;
  }

  /** Distinct instants have distinct timestamps. */
  lemma TimeInjective(a: Instant, b: Instant)
    requires Time(a) == Time(b)
    ensures a == b
  {
    TimeRoundTrip(a);
    TimeRoundTrip(b);
  }

  /** Two days with the same weekday that are less than a week apart are the same day. */
  lemma SameWeekdayWithinWeek(a: int, b: int)
    requires (a + 4) % 7 == (b + 4) % 7
    requires a <= b < a + 7
    ensures a == b
  {
    var qa, qb := (a + 4) / 7, (b + 4) / 7;
    assert a + 4 == 7 * qa + (a + 4) % 7;
    assert b + 4 == 7 * qb + (b + 4) % 7;
    assert 7 * (qb - qa) == b - a;
  }

  /**
   * The only Monday midnight m with m.day <= d.day < m.day + 7 is WeekStart(d):
   * the week of an instant is determined by the instant alone.
   */
  lemma WeekStartUnique(m: Instant, d: Instant)
    requires IsWeekStart(m)
    requires m.day <= d.day < m.day + 7
    ensures m == WeekStart(d)
  {
    var s := WeekStart(d);
    if m.day <= s.day {
      SameWeekdayWithinWeek(m.day, s.day);
    } else {
      SameWeekdayWithinWeek(s.day, m.day);
    }
  }

  /** A Monday midnight is its own week start. */
  lemma WeekStartFixesMonday(m: Instant)
    requires IsWeekStart(m)
    ensures WeekStart(m) == m
  {
    WeekStartUnique(m, m);
  }

  /** getWeekStart is idempotent. */
  lemma WeekStartIdempotent(d: Instant)
    ensures WeekStart(WeekStart(d)) == WeekStart(d)
  {
    WeekStartFixesMonday(WeekStart(d));
  }

  /** Every instant lies in its week, less than seven days after the Monday. */
  lemma WeekContains(d: Instant)
    ensures Time(WeekStart(d)) <= Time(d) <= Time(WeekEnd(d))
    ensures 0 <= Time(d) - Time(WeekStart(d)) < MsPerWeek
  {
  }

  /** All instants of one week have the same week end, and only they do. */
  lemma SameWeekSameEnd(a: Instant, b: Instant)
    ensures WeekStart(a) == WeekStart(b) <==> WeekEnd(a) == WeekEnd(b)
  {
  }

  /** Any instant between a Monday midnight and six days later has that Monday's week end. */
  lemma WeekEndConstantOnWeek(m: Instant, d: Instant)
    requires IsWeekStart(m)
    requires m.day <= d.day < m.day + 7
    ensures WeekEnd(d) == WeekEnd(m)
  {
    WeekStartUnique(m, d);
    WeekStartFixesMonday(m);
  }

  /** getNextWeek and getPreviousWeek undo each other. */
  lemma NextPreviousInverse(w: Instant)
    ensures PreviousWeek(NextWeek(w)) == w
    ensures NextWeek(PreviousWeek(w)) == w
  {
  }

  /** Stepping a week commutes with taking the week start, so Monday alignment is kept. */
  lemma StepKeepsAlignment(d: Instant)
    ensures WeekStart(NextWeek(d)) == NextWeek(WeekStart(d))
    ensures WeekStart(PreviousWeek(d)) == PreviousWeek(WeekStart(d))
    ensures IsWeekStart(d) ==> IsWeekStart(NextWeek(d)) && IsWeekStart(PreviousWeek(d))
  {
    var s := WeekStart(d);
    WeekStartUnique(NextWeek(s), NextWeek(d));
    WeekStartUnique(PreviousWeek(s), PreviousWeek(d));
  }

  /** For a given clock reading, exactly one of current, future and past holds. */
  lemma WeekCasesExclusive(w: Instant, now: Instant)
    ensures !(IsCurrentWeek(w, now) && IsFutureWeek(w, now))
    ensures IsCurrentWeek(w, now) || IsFutureWeek(w, now) || IsPastWeek(w, now)
    ensures IsPastWeek(w, now) ==> !IsCurrentWeek(w, now) && !IsFutureWeek(w, now)
  {
  }

  /** isCurrentWeek holds exactly of the instant getWeekStart gives for now. */
  lemma CurrentWeekIsWeekStart(w: Instant, now: Instant)
    ensures IsCurrentWeek(w, now) <==> w == WeekStart(now)
  {
    if IsCurrentWeek(w, now) {
      TimeInjective(w, WeekStart(now));
    }
  }

  /**
   * 2024-01-07 (day 19729, a Sunday) belongs to the week of Monday
   * 2024-01-01 (day 19723); Monday 2024-01-08 (day 19730) starts its own week.
   */
  lemma CalendarExamples()
    ensures Weekday(Instant(19729, 0)) == 0
    ensures WeekStart(Instant(19729, 13 * 3_600_000)) == Instant(19723, 0)
    ensures WeekStart(Instant(19730, 9 * 3_600_000)) == Instant(19730, 0)
    ensures WeekEnd(Instant(19723, 0)) == Instant(19729, MsPerDay - 1)
  {
  }
}
