/**
  The recurrence-rule evaluator of the automation scheduler (src/automation/schedule.rs), a subset of the
  recurrence rule of section 3.3.10 of RFC 5545. An instant is a number of seconds of local wall clock at a
  fixed offset from UTC, counted from 1970-01-01.
*/
module Schedule {
  import opened Common
  import opened Calendar

  datatype Freq = Hourly | Daily | Weekly | Monthly

  /** A parsed rule; parsing raises the interval to at least 1. */
  datatype RRule = RRule(
    freq: Freq, interval: nat, byHour: Option<nat>, byMinute: Option<nat>, bySecond: Option<nat>,
    byDay: Option<seq<Weekday>>, byMonthDay: Option<nat>)

  type Rule = r: RRule | r.interval >= 1 witness RRule(Hourly, 1, None, None, None, None, None)

  const MAX_DAYS := 400
  const MAX_MONTHS := 120

  function DayOf(t: int): int { t / DAY }

  function Default<T>(o: Option<T>, d: T): T { if o.Some? then o.value else d }

  function Hour(rule: Rule, after: int): nat { Default(rule.byHour, after % DAY / HOUR) }
  function Minute(rule: Rule): nat { Default(rule.byMinute, 0) }
  function Second(rule: Rule): nat { Default(rule.bySecond, 0) }
  function Days(rule: Rule, after: int): seq<Weekday> { Default(rule.byDay, [WeekdayOf(DayOf(after))]) }
  function MonthDay(rule: Rule, after: int): nat { Default(rule.byMonthDay, DayOfMonth(DayOf(after))) }

  predicate MinuteInRange(rule: Rule) { Minute(rule) < 60 && Second(rule) < 60 }
  predicate TimeInRange(rule: Rule, after: int) { Hour(rule, after) < 24 && MinuteInRange(rule) }

  function SecondOfHour(rule: Rule): nat { Minute(rule) * 60 + Second(rule) }
  function SecondOfDay(rule: Rule, after: int): nat { Hour(rule, after) * HOUR + SecondOfHour(rule) }

  /** The given time of day on a day, if there is such a time. */
  function CombineLocal(day: int, hour: nat, minute: nat, second: nat): Option<int> {
    if hour < 24 && minute < 60 && second < 60 then Some(day * DAY + hour * HOUR + minute * 60 + second) else None
  }

  /** The instant with minute and second replaced, or itself when they are out of range. */
  function WithMinuteSecond(t: int, minute: nat, second: nat): int {
    if minute < 60 && second < 60 then t - t % HOUR + minute * 60 + second else t
  }

  function HourlyNext(rule: Rule, after: int): int {
    var c := WithMinuteSecond(after, Minute(rule), Second(rule));
    if c > after then c else WithMinuteSecond(c + rule.interval * HOUR, Minute(rule), Second(rule))
  }

  function OnDay(rule: Rule, after: int, day: int): Option<int> {
    CombineLocal(day, Hour(rule, after), Minute(rule), Second(rule))
  }

  function DailyFrom(rule: Rule, after: int, day: int, tries: nat): Option<int>
    decreases tries
  {
    if tries == 0 then None
    else if OnDay(rule, after, day).Some? && OnDay(rule, after, day).value > after then OnDay(rule, after, day)
    else DailyFrom(rule, after, day + rule.interval, tries - 1)
  }

  predicate WeekAccepts(rule: Rule, after: int, day: int) {
    var weeks := (day - DayOf(after)) / 7;
    WeekdayOf(day) in Days(rule, after) && weeks % rule.interval == 0
  }

  function WeeklyFrom(rule: Rule, after: int, day: int, tries: nat): Option<int>
    decreases tries
  {
    if tries == 0 then None
    else if WeekAccepts(rule, after, day) && OnDay(rule, after, day).Some? && OnDay(rule, after, day).value > after then
      OnDay(rule, after, day)
    else WeeklyFrom(rule, after, day + 1, tries - 1)
  }

  /** Day `mday` of a month, moved back to the 28th from any later day. */
  function MonthlyDate(month: int, mday: nat): Option<int> {
    if mday == 0 then None else Some(MonthStart(month) + (if mday < 28 then mday else 28) - 1)
  }

  function InMonthly(rule: Rule, after: int, month: int): Option<int> {
    var date := MonthlyDate(month, MonthDay(rule, after));
    if date.Some? then OnDay(rule, after, date.value) else None
  }

  function MonthlyFrom(rule: Rule, after: int, month: int, tries: nat): Option<int>
    decreases tries
  {
    if tries == 0 then None
    else if InMonthly(rule, after, month).Some? && InMonthly(rule, after, month).value > after then
      InMonthly(rule, after, month)
    else MonthlyFrom(rule, after, month + rule.interval, tries - 1)
  }

  function NextOccurrence(rule: Rule, after: int): Option<int> {
    match rule.freq
    case Hourly => Some(HourlyNext(rule, after))
    case Daily => DailyFrom(rule, after, DayOf(after), MAX_DAYS)
    case Weekly => WeeklyFrom(rule, after, DayOf(after), MAX_DAYS)
    case Monthly => MonthlyFrom(rule, after, MonthOf(DayOf(after)), MAX_MONTHS)
  }

  /** A calendar date, if the month has that day. */
  function FromYmd(year: int, month: nat, day: nat): Option<int>
    requires 1 <= month <= 12
  {
    var m := 12 * year + month - 1;
    if 1 <= day <= DaysIn(m) then Some(MonthStart(m) + day - 1) else None
  }

  method DaysInMonth(year: int, month: nat) returns (days: nat)
    requires 1 <= month <= 12
    ensures days == DaysIn(12 * year + month - 1)
  {
    hide MonthStart, MonthOf, DaysIn;
    ghost var m := 12 * year + month - 1;
    NextMonthStart(m);
    MonthLengths(m);
    var ny, nm := if month == 12 then year + 1 else year, if month == 12 then 1 else month + 1;
    var pred := MonthStart(12 * ny + nm - 1) - 1;
    MonthIsUnique(pred, m);
    days := DayOfMonth(pred);
  }

  method NextRruleOccurrence(rule: Rule, after: int) returns (next: Option<int>)
    ensures next == NextOccurrence(rule, after)
  {
    var hour, minute, second := Hour(rule, after), Minute(rule), Second(rule);
    match rule.freq
    case Hourly => next := NextHourly(rule, after);
    case Daily => next := NextDaily(rule, after);
    case Weekly => next := NextWeekly(rule, after);
    case Monthly => next := NextMonthly(rule, after);
  }

  method NextHourly(rule: Rule, after: int) returns (next: Option<int>)
    ensures next == Some(HourlyNext(rule, after))
  {
    var candidate := WithMinuteSecond(after, Minute(rule), Second(rule));
    if candidate <= after {
      candidate := candidate + rule.interval * HOUR;
      candidate := WithMinuteSecond(candidate, Minute(rule), Second(rule));
    }
    HourlyIsNext(rule, after);
    if rule.interval > 1 {
      for i := 0 to rule.interval + 2
        invariant candidate == HourlyNext(rule, after)
      {
        if candidate > after {
          break;
        }
        candidate := candidate + rule.interval * HOUR;
      }
    }
    next := Some(candidate);
  }

  method NextDaily(rule: Rule, after: int) returns (next: Option<int>)
    ensures next == DailyFrom(rule, after, DayOf(after), MAX_DAYS)
  {
    var day := DayOf(after);
    for i := 0 to MAX_DAYS
      invariant DailyFrom(rule, after, DayOf(after), MAX_DAYS) == DailyFrom(rule, after, day, MAX_DAYS - i)
    {
      var dt := CombineLocal(day, Hour(rule, after), Minute(rule), Second(rule));
      if dt.Some? && dt.value > after {
        return dt;
      }
      day := day + rule.interval;
    }
    next := None;
  }

  method NextWeekly(rule: Rule, after: int) returns (next: Option<int>)
    ensures next == WeeklyFrom(rule, after, DayOf(after), MAX_DAYS)
  {
    hide WeekdayOf, CombineLocal, Days;
    var days := Days(rule, after);
    var today := DayOf(after);
    var day := today;
    for i := 0 to MAX_DAYS
      invariant day == today + i
      invariant WeeklyFrom(rule, after, today, MAX_DAYS) == WeeklyFrom(rule, after, day, MAX_DAYS - i)
    {
      if WeekdayOf(day) in days {
        var dt := CombineLocal(day, Hour(rule, after), Minute(rule), Second(rule));
        if dt.Some? && dt.value > after {
          if rule.interval == 1 {
            return dt;
          }
          var weeks := (day - today) / 7;
          if weeks % rule.interval == 0 || day == today {
            return dt;
          }
        }
      }
      day := day + 1;
    }
    next := None;
  }

  method NextMonthly(rule: Rule, after: int) returns (next: Option<int>)
    ensures next == MonthlyFrom(rule, after, MonthOf(DayOf(after)), MAX_MONTHS)
  {
    hide MonthStart, MonthOf, DaysIn, DayOfMonth;
    var mday := MonthDay(rule, after);
    var start := MonthOf(DayOf(after));
    var year, month := start / 12, start % 12 + 1;
    for i := 0 to MAX_MONTHS
      invariant 1 <= month <= 12
      invariant MonthlyFrom(rule, after, start, MAX_MONTHS)
          == MonthlyFrom(rule, after, 12 * year + month - 1, MAX_MONTHS - i)
    {
      MonthLengths(12 * year + month - 1);
      var date := FromYmd(year, month, if mday < 28 then mday else 28);
      if date.None? {
        var days := DaysInMonth(year, month);
        date := FromYmd(year, month, if mday < days then mday else days);
      }
      assert date == MonthlyDate(12 * year + month - 1, mday);
      if date.Some? {
        var dt := CombineLocal(date.value, Hour(rule, after), Minute(rule), Second(rule));
        if dt.Some? && dt.value > after {
          return dt;
        }
      }
      ghost var target := 12 * year + month - 1 + rule.interval;
      var m := month + rule.interval;
      while m > 12
        invariant m >= 1 && 12 * year + m - 1 == target
      {
        m := m - 12;
        year := year + 1;
      }
      month := m;
    }
    next := None;
  }

  // ---------------------------------------------------------------- what the next occurrence is

  /**
    The instants the rule accepts after `after`: the right time of day, the right day, and a distance from `after`
    that is a multiple of the interval, in the frequency's own unit. An hourly rule with a bad minute or second
    just adds its interval.
  */
  predicate Accepts(rule: Rule, after: int, t: int) {
    && t > after
    && match rule.freq
       case Hourly =>
         if MinuteInRange(rule) then t % HOUR == SecondOfHour(rule) && (t / HOUR - after / HOUR) % rule.interval == 0
         else t == after + rule.interval * HOUR
       case Daily =>
         && TimeInRange(rule, after) && t % DAY == SecondOfDay(rule, after)
         && (DayOf(t) - DayOf(after)) % rule.interval == 0
       case Weekly =>
         && TimeInRange(rule, after) && t % DAY == SecondOfDay(rule, after)
         && WeekdayOf(DayOf(t)) in Days(rule, after) && ((DayOf(t) - DayOf(after)) / 7) % rule.interval == 0
       case Monthly =>
         && TimeInRange(rule, after) && t % DAY == SecondOfDay(rule, after)
         && MonthDay(rule, after) > 0
         && DayOfMonth(DayOf(t)) == (if MonthDay(rule, after) < 28 then MonthDay(rule, after) else 28)
         && (MonthOf(DayOf(t)) - MonthOf(DayOf(after))) % rule.interval == 0
  }

  /** When a rule has no next occurrence. */
  predicate Exhausted(rule: Rule, after: int) {
    match rule.freq
    case Hourly => false
    case Daily => !TimeInRange(rule, after)
    case Weekly =>
      || !TimeInRange(rule, after)
      || Days(rule, after) == []
      || (rule.interval >= 58 && SecondOfDay(rule, after) <= after % DAY
          && forall d | d in Days(rule, after) :: d == WeekdayOf(DayOf(after)))
    case Monthly => !TimeInRange(rule, after) || MonthDay(rule, after) == 0
  }

  ghost predicate IsLeastAccepted(rule: Rule, after: int, t: int) {
    Accepts(rule, after, t) && forall u :: Accepts(rule, after, u) ==> t <= u
  }

  lemma MultipleAtLeast(d: int, n: nat)
    requires n > 0 && d > 0 && d % n == 0
    ensures d >= n
  {
    if d < n {
      SmallMod(d, n);
    }
  }

  lemma SmallMod(d: nat, n: nat)
    requires d < n
    ensures d % n == d
  {
  }

  lemma SelfMod(n: nat)
    requires n > 0
    ensures n % n == 0 && 0 % n == 0
  {
  }

  lemma SplitDay(day: int, s: int)
    requires 0 <= s < DAY
    ensures (day * DAY + s) / DAY == day && (day * DAY + s) % DAY == s
  {
  }

  lemma SplitHour(h: int, s: int)
    requires 0 <= s < HOUR
    ensures (h * HOUR + s) / HOUR == h && (h * HOUR + s) % HOUR == s
  {
  }

  lemma HourlyIsNext(rule: Rule, after: int)
    ensures HourlyNext(rule, after) > after
  {
    HourlyIsLeast(rule.(freq := Hourly), after);
  }

  lemma HourlyIsLeast(rule: Rule, after: int)
    requires rule.freq.Hourly?
    ensures IsLeastAccepted(rule, after, HourlyNext(rule, after))
  {
    var h, s, n := after / HOUR, SecondOfHour(rule), rule.interval;
    if MinuteInRange(rule) {
      assert after == h * HOUR + after % HOUR;
      SplitHour(h, s);
      SplitHour(h + n, s);
      SelfMod(n);
      var t := HourlyNext(rule, after);
      var c := h * HOUR + s;
      assert WithMinuteSecond(after, Minute(rule), Second(rule)) == c;
      assert c + n * HOUR == (h + n) * HOUR + s;
      assert c <= after ==> t == (h + n) * HOUR + s;
      assert Accepts(rule, after, t);
      forall u | Accepts(rule, after, u) ensures t <= u {
        var k := u / HOUR;
        assert u == k * HOUR + s;
        if k > h {
          MultipleAtLeast(k - h, n);
        }
      }
    }
  }

  lemma OnDayMeans(rule: Rule, after: int, day: int)
    ensures OnDay(rule, after, day).Some? <==> TimeInRange(rule, after)
    ensures OnDay(rule, after, day).Some? ==>
        OnDay(rule, after, day).value == day * DAY + SecondOfDay(rule, after) && 0 <= SecondOfDay(rule, after) < DAY
  {
  }

  lemma DayBounds(t: int)
    ensures t == DayOf(t) * DAY + t % DAY && 0 <= t % DAY < DAY
  {
  }

  lemma DailyIsLeast(rule: Rule, after: int)
    requires rule.freq.Daily? && TimeInRange(rule, after)
    ensures NextOccurrence(rule, after).Some? && IsLeastAccepted(rule, after, NextOccurrence(rule, after).value)
  {
    var today, s, n := DayOf(after), SecondOfDay(rule, after), rule.interval;
    OnDayMeans(rule, after, today);
    OnDayMeans(rule, after, today + n);
    DayBounds(after);
    SplitDay(today, s);
    SplitDay(today + n, s);
    SelfMod(n);
    var t := NextOccurrence(rule, after).value;
    assert t == if today * DAY + s > after then today * DAY + s else (today + n) * DAY + s by {
      assert DailyFrom(rule, after, today + n, MAX_DAYS - 1) == OnDay(rule, after, today + n);
    }
    forall u | Accepts(rule, after, u) ensures t <= u {
      DayBounds(u);
      if DayOf(u) > today {
        MultipleAtLeast(DayOf(u) - today, n);
      }
    }
  }

  lemma MonthlyDateMeans(month: int, mday: nat)
    requires mday > 0
    ensures MonthOf(MonthlyDate(month, mday).value) == month
    ensures DayOfMonth(MonthlyDate(month, mday).value) == if mday < 28 then mday else 28
  {
    hide MonthStart, MonthOf, DaysIn;
    NextMonthStart(month);
    MonthLengths(month);
    MonthIsUnique(MonthlyDate(month, mday).value, month);
  }

  lemma LaterMonthLaterDay(a: int, b: int)
    requires MonthOf(a) < MonthOf(b)
    ensures a < b
  {
    hide MonthStart, MonthOf;
    if MonthOf(a) + 1 < MonthOf(b) {
      MonthStartsApart(MonthOf(a) + 1, MonthOf(b));
    }
  }

  lemma MonthlyIsLeast(rule: Rule, after: int)
    requires rule.freq.Monthly? && TimeInRange(rule, after) && MonthDay(rule, after) > 0
    ensures NextOccurrence(rule, after).Some? && IsLeastAccepted(rule, after, NextOccurrence(rule, after).value)
  {
    hide MonthOf, MonthStart, DayOfMonth, MonthlyDate;
    var mday, s, n := MonthDay(rule, after), SecondOfDay(rule, after), rule.interval;
    var month := MonthOf(DayOf(after));
    var first, second := MonthlyDate(month, mday), MonthlyDate(month + n, mday);
    assert first.Some? && second.Some? by { MonthlyDateExists(month, mday); MonthlyDateExists(month + n, mday); }
    MonthlyDateMeans(month, mday);
    MonthlyDateMeans(month + n, mday);
    OnDayMeans(rule, after, first.value);
    OnDayMeans(rule, after, second.value);
    DayBounds(after);
    SplitDay(first.value, s);
    SplitDay(second.value, s);
    SelfMod(n);
    LaterMonthLaterDay(DayOf(after), second.value);
    var t := NextOccurrence(rule, after).value;
    assert t == if first.value * DAY + s > after then first.value * DAY + s else second.value * DAY + s by {
      assert MonthlyFrom(rule, after, month + n, MAX_MONTHS - 1) == OnDay(rule, after, second.value);
    }
    forall u | Accepts(rule, after, u) ensures t <= u {
      MonthlyCandidate(rule, after, u, first.value, second.value);
    }
  }

  lemma MonthlyDateExists(month: int, mday: nat)
    requires mday > 0
    ensures MonthlyDate(month, mday).Some?
  {
  }

  /** An accepted instant falls on this month's day, or at the interval's distance or later. */
  lemma MonthlyCandidate(rule: Rule, after: int, u: int, first: int, second: int)
    requires rule.freq.Monthly? && Accepts(rule, after, u)
    requires MonthOf(first) == MonthOf(DayOf(after)) && DayOfMonth(first) == DayOfMonth(DayOf(u))
    requires MonthOf(second) == MonthOf(DayOf(after)) + rule.interval && DayOfMonth(second) == DayOfMonth(DayOf(u))
    ensures DayOf(u) == first || (DayOf(u) >= second && first < second)
  {
    hide MonthStart, MonthOf;
    var m := MonthOf(DayOf(after));
    var k := MonthOf(DayOf(u));
    LaterMonthLaterDay(first, second);
    if k < m {
      LaterMonthLaterDay(DayOf(u), DayOf(after));
      DayBounds(u);
      DayBounds(after);
    } else if k > m {
      MultipleAtLeast(k - m, rule.interval);
      if k > m + rule.interval {
        LaterMonthLaterDay(second, DayOf(u));
      }
    }
  }

  ghost predicate WeeklyAccepted(rule: Rule, after: int, day: int) {
    WeekAccepts(rule, after, day) && OnDay(rule, after, day).Some? && OnDay(rule, after, day).value > after
  }

  /** The search finds the first accepted day, if there is one in reach. */
  lemma {:induction false} WeeklyFromFindsFirst(rule: Rule, after: int, day: int, tries: nat)
    ensures match WeeklyFrom(rule, after, day, tries)
      case None => forall d :: day <= d < day + tries ==> !WeeklyAccepted(rule, after, d)
      case Some(t) =>
        exists d :: day <= d < day + tries && WeeklyAccepted(rule, after, d) && OnDay(rule, after, d) == Some(t)
                                  && forall e :: day <= e < d ==> !WeeklyAccepted(rule, after, e)
    decreases tries
  {
    if tries > 0 && !WeeklyAccepted(rule, after, day) {
      WeeklyFromFindsFirst(rule, after, day + 1, tries - 1);
    }
  }

  lemma WeeklyAcceptedMeans(rule: Rule, after: int, u: int)
    requires rule.freq.Weekly? && Accepts(rule, after, u)
    ensures WeeklyAccepted(rule, after, DayOf(u)) && OnDay(rule, after, DayOf(u)) == Some(u) && DayOf(u) >= DayOf(after)
  {
    OnDayMeans(rule, after, DayOf(u));
    DayBounds(u);
    DayBounds(after);
  }

  lemma WeeklyIsLeast(rule: Rule, after: int)
    requires rule.freq.Weekly? && NextOccurrence(rule, after).Some?
    ensures IsLeastAccepted(rule, after, NextOccurrence(rule, after).value)
  {
    var today, t := DayOf(after), NextOccurrence(rule, after).value;
    WeeklyFromFindsFirst(rule, after, today, MAX_DAYS);
    var d :| today <= d < today + MAX_DAYS && WeeklyAccepted(rule, after, d) && OnDay(rule, after, d) == Some(t)
             && forall e :: today <= e < d ==> !WeeklyAccepted(rule, after, e);
    OnDayMeans(rule, after, d);
    SplitDay(d, SecondOfDay(rule, after));
    forall u | Accepts(rule, after, u) ensures t <= u {
      WeeklyAcceptedMeans(rule, after, u);
      OnDayMeans(rule, after, DayOf(u));
    }
  }

  lemma WeekdayShift(day: int, k: int)
    ensures WeekdayOf(day + 7 * k) == WeekdayOf(day)
  {
    assert (day + 7 * k + 3) % 7 == (day + 3) % 7;
  }

  /** Some day within the week has any given weekday. */
  lemma WeekdayWithin(day: int, w: Weekday) returns (k: nat)
    ensures k < 7 && WeekdayOf(day + k) == w && (k == 0 <==> w == WeekdayOf(day))
  {
    k := (w - WeekdayOf(day)) % 7;
  }

  lemma WeeklyWitness(rule: Rule, after: int) returns (d: int)
    requires rule.freq.Weekly? && !Exhausted(rule, after)
    ensures DayOf(after) <= d < DayOf(after) + MAX_DAYS && WeeklyAccepted(rule, after, d)
  {
    var today, days, n := DayOf(after), Days(rule, after), rule.interval;
    DayBounds(after);
    SelfMod(n);
    if w :| w in days && w != WeekdayOf(today) {
      var k := WeekdayWithin(today, w);
      d := today + k;
    } else {
      assert days[0] in days;
      d := if SecondOfDay(rule, after) > after % DAY then today else today + 7 * n;
      WeekdayShift(today, n);
    }
    OnDayMeans(rule, after, d);
  }

  lemma WeeklyOutOfReach(rule: Rule, after: int, u: int)
    requires rule.freq.Weekly? && Exhausted(rule, after) && Accepts(rule, after, u)
    ensures DayOf(u) >= DayOf(after) + MAX_DAYS
  {
    var today, n := DayOf(after), rule.interval;
    DayBounds(u);
    DayBounds(after);
    assert WeekdayOf(DayOf(u)) == WeekdayOf(today);
    var weeks := (DayOf(u) - today) / 7;
    SameWeekday(today, DayOf(u));
    hide WeekdayOf;
    if weeks > 0 {
      MultipleAtLeast(weeks, n);
    }
  }

  lemma SameWeekday(a: int, b: int)
    requires WeekdayOf(a) == WeekdayOf(b)
    ensures b == a + 7 * ((b - a) / 7)
  {
  }

  lemma WeeklyExhausted(rule: Rule, after: int)
    requires rule.freq.Weekly?
    ensures NextOccurrence(rule, after).None? <==> Exhausted(rule, after)
  {
    var today := DayOf(after);
    WeeklyFromFindsFirst(rule, after, today, MAX_DAYS);
    if !Exhausted(rule, after) {
      var d := WeeklyWitness(rule, after);
    } else if NextOccurrence(rule, after).Some? {
      var t := NextOccurrence(rule, after).value;
      var d :| today <= d < today + MAX_DAYS && WeeklyAccepted(rule, after, d) && OnDay(rule, after, d) == Some(t);
      OnDayMeans(rule, after, d);
      SplitDay(d, SecondOfDay(rule, after));
      WeeklyIsLeast(rule, after);
      WeeklyOutOfReach(rule, after, t);
    }
  }

  lemma {:induction false} DailyExhausted(rule: Rule, after: int, day: int, tries: nat)
    requires !TimeInRange(rule, after)
    ensures DailyFrom(rule, after, day, tries) == None
    decreases tries
  {
    OnDayMeans(rule, after, day);
    if tries > 0 {
      DailyExhausted(rule, after, day + rule.interval, tries - 1);
    }
  }

  lemma {:induction false} MonthlyExhausted(rule: Rule, after: int, month: int, tries: nat)
    requires !TimeInRange(rule, after) || MonthDay(rule, after) == 0
    ensures MonthlyFrom(rule, after, month, tries) == None
    decreases tries
  {
    hide MonthStart;
    if tries > 0 {
      MonthlyExhausted(rule, after, month + rule.interval, tries - 1);
    }
  }

  /**
    The evaluator gives up exactly on the rules named by `Exhausted`, and otherwise returns the earliest accepted
    instant.
  */
  lemma NextIsLeastAccepted(rule: Rule, after: int)
    ensures NextOccurrence(rule, after).None? <==> Exhausted(rule, after)
    ensures NextOccurrence(rule, after).Some? ==> IsLeastAccepted(rule, after, NextOccurrence(rule, after).value)
  {
    hide IsLeastAccepted;
    match rule.freq
    case Hourly => HourlyIsLeast(rule, after);
    case Daily =>
      if TimeInRange(rule, after) { DailyIsLeast(rule, after); }
      else { DailyExhausted(rule, after, DayOf(after), MAX_DAYS); }
    case Weekly =>
      WeeklyExhausted(rule, after);
      if !Exhausted(rule, after) { WeeklyIsLeast(rule, after); }
    case Monthly =>
      if !Exhausted(rule, after) { MonthlyIsLeast(rule, after); }
      else { MonthlyExhausted(rule, after, MonthOf(DayOf(after)), MAX_MONTHS); }
  }

  /**
    Every weekly rule with a day works up to interval 57; at 58, a rule for today whose time has passed finds nothing.
  */
  lemma FiftyEightWeeksIsTooFar(after: int)
    ensures forall n | 1 <= n <= 57 ::
        NextOccurrence(RRule(Weekly, n, Some(0), None, None, Some([WeekdayOf(DayOf(after))]), None), after).Some?
    ensures NextOccurrence(RRule(Weekly, 58, Some(0), None, None, Some([WeekdayOf(DayOf(after))]), None), after) == None
  {
    forall n | 1 <= n <= 58
      ensures var rule := RRule(Weekly, n, Some(0), None, None, Some([WeekdayOf(DayOf(after))]), None);
        NextOccurrence(rule, after).None? <==> n == 58
    {
      NextIsLeastAccepted(RRule(Weekly, n, Some(0), None, None, Some([WeekdayOf(DayOf(after))]), None), after);
    }
  }

  /** The fields of the next occurrence: those the rule names, and for those it omits the asking instant's, or zero. */
  lemma NextHasTheFields(rule: Rule, after: int)
    requires NextOccurrence(rule, after).Some?
    ensures var t := NextOccurrence(rule, after).value;
            var minute := if rule.byMinute.Some? then rule.byMinute.value else 0;
            var second := if rule.bySecond.Some? then rule.bySecond.value else 0;
      && t > after
      && (rule.freq != Hourly ==>
            var hour := if rule.byHour.Some? then rule.byHour.value else after % DAY / HOUR;
            t % DAY == hour * 3600 + minute * 60 + second)
      && (rule.freq == Hourly && minute < 60 && second < 60 ==> t % HOUR == minute * 60 + second)
      && (rule.freq == Weekly ==>
            if rule.byDay.Some? then WeekdayOf(DayOf(t)) in rule.byDay.value
            else WeekdayOf(DayOf(t)) == WeekdayOf(DayOf(after)))
      && (rule.freq == Monthly ==>
            var day := if rule.byMonthDay.Some? then rule.byMonthDay.value else DayOfMonth(DayOf(after));
            DayOfMonth(DayOf(t)) == if day < 28 then day else 28)
  {
    hide NextOccurrence, DayOfMonth, MonthOf, WeekdayOf;
    NextIsLeastAccepted(rule, after);
  }
}
