/** When an automation is due (src/automation/schedule.rs, `next_fire_after` and `is_due`). */
module Scheduler {
  import opened Common
  import opened Calendar
  import opened Schedule

  datatype Kind = Heartbeat(intervalMinutes: nat) | Cron(rule: Rule)

  datatype Automation = Automation(active: bool, kind: Kind)

  /** The hash of salt and id, reduced modulo 60. */
  type Jitter = j: nat | j < 60

  datatype Result<+T> = Ok(value: T) | Err

  const FIRST_LOOKBACK := 3650 * DAY
  const RECENT := 120

  /** A heartbeat interval in seconds, at least a minute. */
  function Period(intervalMinutes: nat): nat {
    60 * (if intervalMinutes < 1 then 1 else intervalMinutes)
  }

  function NextFireAfter(a: Automation, after: int, jitter: Jitter): Result<Option<int>> {
    if !a.active then Ok(None)
    else match a.kind
      case Heartbeat(minutes) => Ok(Some(after + Period(minutes) + jitter))
      case Cron(rule) =>
        match NextOccurrence(rule, after)
        case None => Err
        case Some(base) => Ok(Some(base + jitter))
  }

  function IsDue(a: Automation, lastFiredAt: Option<int>, now: int, jitter: Jitter): Result<bool> {
    if !a.active then Ok(false)
    else
      var next := NextFireAfter(a, Default(lastFiredAt, now - FIRST_LOOKBACK), jitter);
      if next.Err? then Err
      else if next.value.None? then Ok(false)
      else if lastFiredAt.None? then
        var fromRecent := NextFireAfter(a, now - RECENT, jitter);
        if fromRecent.Err? then Err
        else if fromRecent.value.None? then Ok(false)
        else Ok(fromRecent.value.value <= now)
      else Ok(next.value.value <= now)
  }

  /** The rule has an occurrence after `after` whose jitter is past. */
  ghost predicate OccurredSince(rule: Rule, after: int, jitter: Jitter, now: int) {
    exists o :: Accepts(rule, after, o) && o + jitter <= now
  }

  // ---------------------------------------------------------------- after a fire

  /**
    Once fired, an automation is due exactly from its next occurrence, or period, plus jitter; a rule without one is an
    error.
  */
  lemma DueAfterFire(a: Automation, fired: int, now: int, jitter: Jitter)
    requires a.active
    ensures match a.kind
      case Heartbeat(minutes) => IsDue(a, Some(fired), now, jitter) == Ok(fired + Period(minutes) + jitter <= now)
      case Cron(rule) =>
        && (IsDue(a, Some(fired), now, jitter).Err? <==> Exhausted(rule, fired))
        && (IsDue(a, Some(fired), now, jitter) == Ok(true) <==>
              !Exhausted(rule, fired) && OccurredSince(rule, fired, jitter, now))
  {
    if a.kind.Cron? {
      NextIsLeastAccepted(a.kind.rule, fired);
    }
  }

  // ---------------------------------------------------------------- the first fire

  /**
    Never fired, a rule is due when one of its occurrences lies within the last two minutes, its jitter past;
    and a heartbeat only if its whole period and jitter fit into those two minutes.
  */
  lemma DueBeforeFirstFire(a: Automation, now: int, jitter: Jitter)
    requires a.active
    ensures match a.kind
      case Heartbeat(minutes) => IsDue(a, None, now, jitter) == Ok(Period(minutes) + jitter <= RECENT)
      case Cron(rule) =>
        && (IsDue(a, None, now, jitter).Err? <==>
              Exhausted(rule, now - FIRST_LOOKBACK) || Exhausted(rule, now - RECENT))
        && (IsDue(a, None, now, jitter) == Ok(true) <==>
              && !Exhausted(rule, now - FIRST_LOOKBACK) && !Exhausted(rule, now - RECENT)
              && OccurredSince(rule, now - RECENT, jitter, now))
  {
    if a.kind.Cron? {
      NextIsLeastAccepted(a.kind.rule, now - FIRST_LOOKBACK);
      NextIsLeastAccepted(a.kind.rule, now - RECENT);
    }
  }

  /** The rule accepts the day it is asked on. */
  predicate TodayAccepted(rule: Rule, after: int)
    requires rule.freq != Hourly
  {
    match rule.freq
    case Daily => true
    case Weekly => WeekdayOf(DayOf(after)) in Days(rule, after)
    case Monthly =>
      && MonthDay(rule, after) > 0
      && DayOfMonth(DayOf(after)) == if MonthDay(rule, after) < 28 then MonthDay(rule, after) else 28
  }

  /**
    A rule that leaves its hour to the asking instant is asked two minutes back when it never fired. So it is due
    exactly when that day is accepted and its minute and second, with jitter, lie in those two minutes, counted in the
    hour they began in.
  */
  lemma DueWithoutHour(rule: Rule, now: int, jitter: Jitter)
    requires rule.freq != Hourly && rule.byHour.None?
    ensures var after := now - RECENT;
      IsDue(Automation(true, Cron(rule)), None, now, jitter) == Ok(true) <==>
        && !Exhausted(rule, now - FIRST_LOOKBACK) && MinuteInRange(rule) && TodayAccepted(rule, after)
        && after % HOUR < SecondOfHour(rule) && SecondOfHour(rule) + jitter <= after % HOUR + RECENT
  {
    hide IsDue, Accepts, Exhausted, SecondOfHour, TodayAccepted, MinuteInRange;
    var after := now - RECENT;
    DueBeforeFirstFire(Automation(true, Cron(rule)), now, jitter);
    if o :| Accepts(rule, after, o) && o + jitter <= now {
      AcceptedTime(rule, after, o);
      WithinTheHour(after, o - after, SecondOfHour(rule));
      AcceptedDay(rule, after, o);
    }
    if MinuteInRange(rule) && TodayAccepted(rule, after) && after % HOUR < SecondOfHour(rule) {
      var o := after - after % HOUR + SecondOfHour(rule);
      ThisHourIsAccepted(rule, after, o);
    }
  }

  /** The two minutes stay within the day when they stay within the hour. */
  lemma AcceptedDay(rule: Rule, after: int, o: int)
    requires rule.freq != Hourly && rule.byHour.None? && Accepts(rule, after, o)
    requires o == after - after % HOUR + SecondOfHour(rule) && SecondOfHour(rule) < HOUR
    ensures MinuteInRange(rule) && TodayAccepted(rule, after)
  {
    SameDayInTheHour(after, SecondOfHour(rule));
    assert DayOf(o) == DayOf(after);
    AcceptedOnDay(rule, after, o, DayOf(after));
  }

  lemma AcceptedOnDay(rule: Rule, after: int, o: int, day: int)
    requires rule.freq != Hourly && Accepts(rule, after, o) && DayOf(o) == day == DayOf(after)
    ensures MinuteInRange(rule) && TodayAccepted(rule, after)
  {
    hide DayOf, DayOfMonth, MonthOf, WeekdayOf, SecondOfDay;
  }

  lemma SameDayInTheHour(after: int, second: nat)
    requires second < HOUR
    ensures DayOf(after - after % HOUR + second) == DayOf(after)
    ensures (after - after % HOUR + second) % DAY == after % DAY / HOUR * HOUR + second
  {
    var day, h, s := after / DAY, after % DAY / HOUR, after % DAY % HOUR;
    SplitHour(24 * day + h, s);
    assert after == day * DAY + h * HOUR + s && after % HOUR == s;
    SplitDay(day, h * HOUR + second);
  }

  lemma ThisHourIsAccepted(rule: Rule, after: int, o: int)
    requires rule.freq != Hourly && rule.byHour.None? && MinuteInRange(rule) && TodayAccepted(rule, after)
    requires o == after - after % HOUR + SecondOfHour(rule) && after % HOUR < SecondOfHour(rule)
    ensures Accepts(rule, after, o) && !Exhausted(rule, after)
  {
    hide DayOfMonth, MonthOf, WeekdayOf;
    SameDayInTheHour(after, SecondOfHour(rule));
    assert after % DAY == after % DAY / HOUR * HOUR + after % DAY % HOUR;
    SplitHour(24 * (after / DAY) + after % DAY / HOUR, after % DAY % HOUR);
    SmallMod(0, rule.interval);
  }

  lemma AcceptedTime(rule: Rule, after: int, o: int)
    requires rule.freq != Hourly && rule.byHour.None? && Accepts(rule, after, o)
    ensures o > after && o % DAY == after % DAY / HOUR * HOUR + SecondOfHour(rule) && SecondOfHour(rule) < HOUR
  {
    hide DayOfMonth, MonthOf, WeekdayOf;
  }

  lemma WithinTheHour(after: int, d: nat, second: nat)
    requires 0 < d <= RECENT && second < HOUR && (after + d) % DAY == after % DAY / HOUR * HOUR + second
    ensures second == after % HOUR + d
  {
    var day, rest := after / DAY, after % DAY;
    SplitHour(24 * day + rest / HOUR, rest % HOUR);
    if rest + d < DAY {
      SplitDay(day, rest + d);
    } else {
      SplitDay(day + 1, rest + d - DAY);
    }
  }

  /** A rule that names its own time of day, and its day where it has one. */
  predicate NamesItsTimes(rule: Rule) {
    && MinuteInRange(rule)
    && match rule.freq
       case Hourly => true
       case Daily => rule.byHour.Some? && rule.byHour.value < 24
       case Weekly => rule.byHour.Some? && rule.byHour.value < 24 && rule.byDay.Some? && rule.byDay.value != []
       case Monthly => rule.byHour.Some? && rule.byHour.value < 24 && rule.byMonthDay.Some? && rule.byMonthDay.value > 0
  }

  /** And that occurs every interval of its frequency. */
  predicate SelfContained(rule: Rule) {
    rule.interval == 1 && NamesItsTimes(rule)
  }

  /** The instants at which such a rule may occur; with interval one, does. */
  predicate Occurs(rule: Rule, t: int)
    requires NamesItsTimes(rule)
  {
    match rule.freq
    case Hourly => t % HOUR == SecondOfHour(rule)
    case Daily => t % DAY == rule.byHour.value * HOUR + SecondOfHour(rule)
    case Weekly => t % DAY == rule.byHour.value * HOUR + SecondOfHour(rule) && WeekdayOf(DayOf(t)) in rule.byDay.value
    case Monthly =>
      && t % DAY == rule.byHour.value * HOUR + SecondOfHour(rule)
      && DayOfMonth(DayOf(t)) == if rule.byMonthDay.value < 28 then rule.byMonthDay.value else 28
  }

  /** Asked at `after`, such an instant lies in the same hour, day, week or month, whichever the interval counts. */
  predicate SameUnit(rule: Rule, after: int, o: int) {
    match rule.freq
    case Hourly => after / HOUR == o / HOUR
    case Daily => DayOf(after) == DayOf(o)
    case Weekly => true
    case Monthly => DayOf(after) == DayOf(o) || DayOfMonth(DayOf(o)) > 1
  }

  /** Asked within the two minutes before it, the rule accepts such an instant exactly when no interval lies between. */
  lemma LastMinutesExactly(rule: Rule, after: int, o: int)
    requires NamesItsTimes(rule) && Occurs(rule, o) && after < o <= after + RECENT
    ensures Accepts(rule, after, o) <==> rule.interval == 1 || SameUnit(rule, after, o)
  {
    hide Accepts, Occurs, SameUnit;
    match rule.freq
    case Hourly => LastMinutesOfHour(rule, after, o);
    case Daily => LastMinutesOfDay(rule, after, o);
    case Weekly => LastMinutesOfWeek(rule, after, o);
    case Monthly => LastMinutesOfMonth(rule, after, o);
  }

  lemma LastMinutesOfHour(rule: Rule, after: int, o: int)
    requires NamesItsTimes(rule) && Occurs(rule, o) && after < o <= after + RECENT && rule.freq.Hourly?
    ensures Accepts(rule, after, o) <==> rule.interval == 1 || SameUnit(rule, after, o)
  {
    OneMod(rule.interval);
    NextHourAtMost(after, o);
  }

  lemma LastMinutesOfDay(rule: Rule, after: int, o: int)
    requires NamesItsTimes(rule) && Occurs(rule, o) && after < o <= after + RECENT && rule.freq.Daily?
    ensures Accepts(rule, after, o) <==> rule.interval == 1 || SameUnit(rule, after, o)
  {
    OneMod(rule.interval);
    SameOrNextDay(after, o);
    hide DayOf;
  }

  lemma LastMinutesOfWeek(rule: Rule, after: int, o: int)
    requires NamesItsTimes(rule) && Occurs(rule, o) && after < o <= after + RECENT && rule.freq.Weekly?
    ensures Accepts(rule, after, o) && SameUnit(rule, after, o)
  {
    OneMod(rule.interval);
    SameOrNextDay(after, o);
    hide DayOf, WeekdayOf;
  }

  lemma LastMinutesOfMonth(rule: Rule, after: int, o: int)
    requires NamesItsTimes(rule) && Occurs(rule, o) && after < o <= after + RECENT && rule.freq.Monthly?
    ensures Accepts(rule, after, o) <==> rule.interval == 1 || SameUnit(rule, after, o)
  {
    hide Accepts, Occurs, NamesItsTimes, SameUnit, DayOf, MonthOf;
    var months := MonthOf(DayOf(o)) - MonthOf(DayOf(after));
    OneMod(rule.interval);
    MonthsBetween(rule, after, o);
    MonthlyTimes(rule, after, o);
    assert months == 0 || months == 1;
  }

  lemma MonthsBetween(rule: Rule, after: int, o: int)
    requires after < o <= after + RECENT && rule.freq.Monthly?
    ensures MonthOf(DayOf(o)) - MonthOf(DayOf(after)) == if SameUnit(rule, after, o) then 0 else 1
  {
    hide DayOf, DayOfMonth, MonthOf;
    SameOrNextDay(after, o);
    MonthsOfDays(DayOf(after), DayOf(o));
  }

  lemma MonthsOfDays(a: int, b: int)
    requires a <= b <= a + 1
    ensures MonthOf(b) - MonthOf(a) == if a == b || DayOfMonth(b) > 1 then 0 else 1
  {
    hide *;
    if a < b {
      MonthOfDayBefore(b);
    }
  }

  lemma MonthlyTimes(rule: Rule, after: int, o: int)
    requires NamesItsTimes(rule) && Occurs(rule, o) && after < o && rule.freq.Monthly?
    ensures Accepts(rule, after, o) <==> (MonthOf(DayOf(o)) - MonthOf(DayOf(after))) % rule.interval == 0
  {
    hide DayOf, DayOfMonth, MonthOf, SecondOfHour;
  }

  lemma OneMod(n: nat)
    requires n > 0
    ensures 0 % n == 0 && (1 % n == 0 <==> n == 1)
  {
  }

  lemma MonthOfDayBefore(day: int)
    ensures MonthOf(day - 1) == MonthOf(day) - if DayOfMonth(day) > 1 then 0 else 1
  {
    hide MonthStart, MonthOf;
    var m := MonthOf(day);
    MonthsGrow(m);
    MonthIsUnique(day - 1, if DayOfMonth(day) > 1 then m else m - 1);
  }

  /** Two minutes before `o` no interval lies between. */
  predicate InStep(rule: Rule, o: int) {
    rule.interval == 1 ||
    match rule.freq
    case Hourly => o % HOUR >= RECENT
    case Daily => o % DAY >= RECENT
    case Weekly => rule.interval < 58
    case Monthly => o % DAY >= RECENT || DayOfMonth(DayOf(o)) > 1
  }

  lemma InStepAccepts(rule: Rule, after: int, o: int)
    requires NamesItsTimes(rule) && Occurs(rule, o) && InStep(rule, o) && after < o <= after + RECENT
    ensures Accepts(rule, after, o) && !Exhausted(rule, after)
  {
    hide Accepts, Occurs;
    LastMinutesExactly(rule, after, o);
    NamedTimesAreNotExhausted(rule, after);
    if rule.freq.Hourly? && o % HOUR >= RECENT {
      SameHour(after, o);
    }
    SameOrNextDay(after, o);
  }

  lemma NextHourAtMost(after: int, o: int)
    requires after < o <= after + RECENT
    ensures o / HOUR - after / HOUR == 0 || o / HOUR - after / HOUR == 1
  {
  }

  lemma SameHour(after: int, o: int)
    requires after < o <= after + RECENT && o % HOUR >= RECENT
    ensures after / HOUR == o / HOUR
  {
    SplitHour(o / HOUR, o % HOUR - (o - after));
  }

  lemma SameOrNextDay(after: int, o: int)
    requires after < o <= after + RECENT
    ensures DayOf(after) <= DayOf(o) <= DayOf(after) + 1 && (DayOf(o) - DayOf(after)) / 7 == 0
    ensures o % DAY >= RECENT ==> DayOf(after) == DayOf(o)
  {
    var rest := o % DAY - (o - after);
    if rest >= 0 {
      SplitDay(o / DAY, rest);
    } else {
      SplitDay(o / DAY - 1, rest + DAY);
    }
  }

  /** Asked ten years back, it has a next occurrence. */
  lemma NamedTimesAreNotExhausted(rule: Rule, after: int)
    requires NamesItsTimes(rule) && (rule.freq.Weekly? ==> rule.interval < 58)
    ensures !Exhausted(rule, after)
  {
  }

  lemma SelfContainedAccepts(rule: Rule, after: int, t: int)
    requires SelfContained(rule)
    ensures Accepts(rule, after, t) <==> Occurs(rule, t) && t > after
    ensures !Exhausted(rule, after)
  {
    hide DayOfMonth, MonthOf;
    assert forall d: int {:trigger d % 1} :: d % 1 == 0;
  }

  /** The next occurrence of a self-contained rule is its first occurrence after the given instant. */
  lemma NextIsFirstOccurrence(rule: Rule, after: int)
    requires SelfContained(rule)
    ensures NextOccurrence(rule, after).Some?
    ensures var t := NextOccurrence(rule, after).value;
      t > after && Occurs(rule, t) && forall u :: Occurs(rule, u) && u > after ==> t <= u
  {
    var t := NextOccurrence(rule, after);
    NextIsLeastAccepted(rule, after);
    SelfContainedAccepts(rule, after, 0);
    SelfContainedAccepts(rule, after, t.value);
    forall u | Occurs(rule, u) && u > after ensures t.value <= u {
      SelfContainedAccepts(rule, after, u);
    }
  }

  /** Asked at an instant it names, a rule goes on by exactly its interval. */
  lemma NextIsOneIntervalLater(rule: Rule, t: int)
    requires NamesItsTimes(rule) && Occurs(rule, t)
    requires rule.freq.Weekly? ==> |rule.byDay.value| == 1 && rule.interval < 58
    ensures NextOccurrence(rule, t).Some?
    ensures var u := NextOccurrence(rule, t).value;
      match rule.freq
      case Hourly => u == t + rule.interval * HOUR
      case Daily => u == t + rule.interval * DAY
      case Weekly => u == t + rule.interval * 7 * DAY
      case Monthly =>
        && MonthOf(DayOf(u)) == MonthOf(DayOf(t)) + rule.interval
        && DayOfMonth(DayOf(u)) == DayOfMonth(DayOf(t)) && u % DAY == t % DAY
  {
    NextIsLeastAccepted(rule, t);
    NamedTimesAreNotExhausted(rule, t);
    var u := NextOccurrence(rule, t).value;
    hide NextOccurrence, Accepts, Exhausted, Occurs;
    SelfMod(rule.interval);
    match rule.freq
    case Hourly =>
      HoursLater(rule, t, u);
    case Daily =>
      DaysLater(rule, t, u);
    case Weekly =>
      WeeksLater(rule, t, u);
    case Monthly =>
      MonthsLater(rule, t, u);
  }

  lemma HoursLater(rule: Rule, t: int, u: int)
    requires rule.freq.Hourly? && NamesItsTimes(rule) && Occurs(rule, t) && IsLeastAccepted(rule, t, u)
    ensures u == t + rule.interval * HOUR
  {
    var n := rule.interval;
    SelfMod(n);
    SplitHour(t / HOUR + n, t % HOUR);
    assert Accepts(rule, t, t + n * HOUR);
    MultipleAtLeast(u / HOUR - t / HOUR, n);
  }

  lemma DaysLater(rule: Rule, t: int, u: int)
    requires rule.freq.Daily? && NamesItsTimes(rule) && Occurs(rule, t) && IsLeastAccepted(rule, t, u)
    ensures u == t + rule.interval * DAY
  {
    var n := rule.interval;
    SelfMod(n);
    SplitDay(t / DAY + n, t % DAY);
    assert Accepts(rule, t, t + n * DAY);
    MultipleAtLeast(u / DAY - t / DAY, n);
  }

  lemma WeeksLater(rule: Rule, t: int, u: int)
    requires rule.freq.Weekly? && NamesItsTimes(rule) && Occurs(rule, t) && IsLeastAccepted(rule, t, u)
    requires |rule.byDay.value| == 1
    ensures u == t + rule.interval * 7 * DAY
  {
    var n, day := rule.interval, t / DAY;
    SelfMod(n);
    SplitDay(day + 7 * n, t % DAY);
    WeekdayShift(day, n);
    assert Accepts(rule, t, t + n * 7 * DAY);
    assert WeekdayOf(u / DAY) == rule.byDay.value[0] == WeekdayOf(day);
    SameWeekday(day, u / DAY);
    hide WeekdayOf;
    MultipleAtLeast((u / DAY - day) / 7, n);
  }

  lemma MonthsLater(rule: Rule, t: int, u: int)
    requires rule.freq.Monthly? && NamesItsTimes(rule) && Occurs(rule, t) && IsLeastAccepted(rule, t, u)
    ensures MonthOf(DayOf(u)) == MonthOf(DayOf(t)) + rule.interval
    ensures DayOfMonth(DayOf(u)) == DayOfMonth(DayOf(t)) && u % DAY == t % DAY
  {
    hide MonthOf, DayOfMonth, MonthlyDate, MonthStart, Occurs, Accepts, NamesItsTimes;
    var n, today := rule.interval, DayOf(t);
    SmallMonthDay(rule, t);
    var day := DayMonthsLater(today, n);
    var v := day * DAY + t % DAY;
    LaterMonthLaterDay(today, day);
    MonthCandidateOccurs(rule, t, day, v);
    SameMonthlyTimes(rule, t, u);
    MonthlyCandidate(rule, t, u, today, day);
    MonthlyMeet(t, u, v, day);
  }

  lemma SmallMonthDay(rule: Rule, t: int)
    requires rule.freq.Monthly? && NamesItsTimes(rule) && Occurs(rule, t)
    ensures DayOfMonth(DayOf(t)) <= 28
  {
    hide MonthOf, DayOfMonth, MonthStart;
  }

  lemma MonthCandidateOccurs(rule: Rule, t: int, day: int, v: int)
    requires rule.freq.Monthly? && NamesItsTimes(rule) && Occurs(rule, t) && v == day * DAY + t % DAY && day > DayOf(t)
    requires MonthOf(day) == MonthOf(DayOf(t)) + rule.interval && DayOfMonth(day) == DayOfMonth(DayOf(t))
    ensures Accepts(rule, t, v) && DayOf(v) == day && v > t
  {
    hide MonthOf, DayOfMonth, MonthStart;
    SelfMod(rule.interval);
    SplitDay(day, t % DAY);
    MonthlyTimes(rule, t, v);
  }

  lemma SameMonthlyTimes(rule: Rule, t: int, u: int)
    requires rule.freq.Monthly? && NamesItsTimes(rule) && Occurs(rule, t) && Accepts(rule, t, u)
    ensures u > t && u % DAY == t % DAY && DayOfMonth(DayOf(u)) == DayOfMonth(DayOf(t))
  {
    hide MonthOf, DayOfMonth, MonthStart;
  }

  lemma MonthlyMeet(t: int, u: int, v: int, day: int)
    requires u > t && u % DAY == t % DAY && v == day * DAY + t % DAY && u <= v
    requires DayOf(u) == DayOf(t) || DayOf(u) >= day
    ensures DayOf(u) == day
  {
    DayBounds(t);
    DayBounds(u);
  }

  lemma DayMonthsLater(today: int, n: nat) returns (day: int)
    requires DayOfMonth(today) <= 28
    ensures MonthOf(day) == MonthOf(today) + n && DayOfMonth(day) == DayOfMonth(today)
  {
    var month, d := MonthOf(today) + n, DayOfMonth(today);
    OneToTwentyEight(today);
    day := MonthDayOf(month, d);
  }

  lemma OneToTwentyEight(today: int)
    ensures DayOfMonth(today) >= 1
  {
    hide MonthOf, MonthStart;
  }

  lemma MonthDayOf(month: int, d: int) returns (day: int)
    requires 1 <= d <= 28
    ensures MonthOf(day) == month && DayOfMonth(day) == d
  {
    hide MonthOf, DayOfMonth, MonthStart;
    MonthlyDateMeans(month, d);
    day := MonthlyDate(month, d).value;
  }

  /** Clock readings of successive ticks: never backwards, never more than a minute apart. */
  ghost predicate AreTicks(ticks: seq<int>) {
    forall i, j :: 0 <= i && j == i + 1 && j < |ticks| ==> ticks[i] <= ticks[j] <= ticks[i] + 60
  }

  lemma {:induction false} TickWithinAMinute(ticks: seq<int>, t: int) returns (k: nat)
    requires AreTicks(ticks) && |ticks| > 0 && ticks[0] <= t <= ticks[|ticks| - 1]
    ensures k < |ticks| && t <= ticks[k] <= t + 60
    decreases |ticks|
  {
    if |ticks| == 1 || t <= ticks[0] {
      k := 0;
    } else if t <= ticks[1] {
      k := 1;
    } else {
      k := TickWithinAMinute(ticks[1..], t);
      k := k + 1;
    }
  }

  /**
    No first occurrence is missed: some tick between the jittered occurrence and two minutes past it finds the
    automation due.
  */
  lemma FirstFireWindow(rule: Rule, jitter: Jitter, ticks: seq<int>, o: int) returns (k: nat)
    requires NamesItsTimes(rule) && Occurs(rule, o) && InStep(rule, o) && AreTicks(ticks)
    requires |ticks| > 0 && ticks[0] <= o + jitter <= ticks[|ticks| - 1]
    ensures k < |ticks| && o + jitter <= ticks[k] < o + 120
    ensures IsDue(Automation(true, Cron(rule)), None, ticks[k], jitter) == Ok(true)
  {
    hide Accepts, Exhausted, IsDue, Occurs;
    k := TickWithinAMinute(ticks, o + jitter);
    InStepAccepts(rule, ticks[k] - RECENT, o);
    NamedTimesAreNotExhausted(rule, ticks[k] - FIRST_LOOKBACK);
    DueBeforeFirstFire(Automation(true, Cron(rule)), ticks[k], jitter);
  }
}
