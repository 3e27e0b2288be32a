/** Business-day deadlines and the applicant reminders counted in them. */
module BusinessDays {
  import opened Base
  import opened Calendar

  /** getUTCDay: Sunday is 0; 1970-01-01 was a Thursday. */
  function DayOfWeek(day: int): int { (day + 4) % 7 }

  predicate IsBusinessDay(day: int) { DayOfWeek(day) != 0 && DayOfWeek(day) != 6 }

  /** The weekends are the days from 1970-01-03 and 1970-01-04 on, every seventh; nothing else is off. */
  lemma WeekendIff(day: int)
    ensures !IsBusinessDay(day) <==>
              exists week :: day == Utc(1970, 0, 3) + 7 * week || day == Utc(1970, 0, 4) + 7 * week
  {
    FirstWeekend();
    hide Utc;
    if !IsBusinessDay(day) {
      var week := (day - 2) / 7;
      assert day == Utc(1970, 0, 3) + 7 * week || day == Utc(1970, 0, 4) + 7 * week;
    }
  }

  lemma FirstWeekend()
    ensures Utc(1970, 0, 3) == 2 && Utc(1970, 0, 4) == 3
  {
  }

  /** How many business days lie after `from`, up to and including `to`. */
  function Count(from: int, to: int): nat
    decreases to - from
  {
    if to <= from then 0 else Count(from, to - 1) + if IsBusinessDay(to) then 1 else 0
  }

  function NextBusinessDay(day: int): (d: int)
    ensures day < d <= day + 3 && IsBusinessDay(d) && forall x :: day < x < d ==> !IsBusinessDay(x)
  {
    if IsBusinessDay(day + 1) then day + 1 else if IsBusinessDay(day + 2) then day + 2 else day + 3
  }

  /** The n-th business day after a day. */
  function Nth(day: int, n: nat): int
    decreases n
  {
    if n == 0 then day else NextBusinessDay(Nth(day, n - 1))
  }

  // ---- The deadline ----

  lemma {:induction false} CountSplits(a: int, b: int, c: int)
    requires a <= b <= c
    ensures Count(a, c) == Count(a, b) + Count(b, c)
    decreases c - b
  {
    hide IsBusinessDay;
    if b < c { CountSplits(a, b, c - 1); }
  }

  lemma {:induction false} CountOfNone(a: int, b: int)
    requires forall x :: a < x <= b ==> !IsBusinessDay(x)
    ensures Count(a, b) == 0
    decreases b - a
  {
    hide IsBusinessDay;
    if a < b { CountOfNone(a, b - 1); }
  }

  lemma CountToNext(day: int)
    ensures Count(day, NextBusinessDay(day)) == 1
  {
    hide IsBusinessDay, NextBusinessDay;
    CountOfNone(day, NextBusinessDay(day) - 1);
  }

  /** The n-th business day is the first day with n business days since the start. */
  lemma {:induction false} NthIsFirst(day: int, n: nat)
    ensures Nth(day, n) >= day && Count(day, Nth(day, n)) == n
    ensures forall d :: d < Nth(day, n) ==> Count(day, d) < n || n == 0
    decreases n
  {
    hide IsBusinessDay, NextBusinessDay, Count;
    if n == 0 {
      EmptyCount(day);
    } else {
      var m := Nth(day, n - 1);
      NthIsFirst(day, n - 1);
      CountToNext(m);
      CountSplits(day, m, NextBusinessDay(m));
      forall d | d < Nth(day, n) ensures Count(day, d) < n {
        if d >= m {
          CountOfNone(m, d);
          CountSplits(day, m, d);
        } else {
          CountBelow(day, d, m);
        }
      }
    }
  }

  lemma EmptyCount(day: int)
    ensures Count(day, day) == 0
  {
  }

  lemma {:induction false} CountBelow(day: int, d: int, m: int)
    requires d <= m
    ensures Count(day, d) <= Count(day, m)
    decreases m - d
  {
    hide IsBusinessDay;
    if d < m { CountBelow(day, d, m - 1); }
  }

  /** A business day n of them away is the n-th. */
  lemma CountDecidesNth(day: int, d: int, n: nat)
    requires n >= 1 && d > day && IsBusinessDay(d) && Count(day, d) == n
    ensures d == Nth(day, n)
  {
    hide IsBusinessDay, NextBusinessDay, Nth;
    NthIsFirst(day, n);
    if Nth(day, n) < d {
      CountBelow(day, Nth(day, n), d - 1);
    }
  }

  lemma {:induction false} NthIsAdditive(day: int, m: nat, n: nat)
    ensures Nth(Nth(day, m), n) == Nth(day, m + n)
    decreases n
  {
    hide NextBusinessDay;
    if n > 0 { NthIsAdditive(day, m, n - 1); }
  }

  lemma {:induction false} NthIncreases(day: int, m: nat, n: nat)
    requires m < n
    ensures Nth(day, m) < Nth(day, n)
    decreases n
  {
    hide NextBusinessDay;
    if m < n - 1 { NthIncreases(day, m, n - 1); }
  }

  // From Monday to Thursday the next business day is tomorrow, on Friday it is Monday.
  lemma NextInWeek(day: int)
    requires 1 <= DayOfWeek(day) <= 5
    ensures DayOfWeek(day) < 5 ==> NextBusinessDay(day) == day + 1 && DayOfWeek(day + 1) == DayOfWeek(day) + 1
    ensures DayOfWeek(day) == 5 ==> NextBusinessDay(day) == day + 3 && DayOfWeek(day + 3) == 1
  {
  }

  // n more business days from a Monday-to-Friday day w, as long as the weekend is crossed at most once.
  lemma {:induction false} NthInWeek(day: int, n: nat)
    requires 1 <= DayOfWeek(day) <= 5 && n <= 5
    ensures DayOfWeek(day) + n <= 5 ==> Nth(day, n) == day + n && DayOfWeek(day + n) == DayOfWeek(day) + n
    ensures DayOfWeek(day) + n > 5 ==> Nth(day, n) == day + n + 2 && DayOfWeek(day + n + 2) == DayOfWeek(day) + n - 5
    decreases n
  {
    hide DayOfWeek, NextBusinessDay, IsBusinessDay;
    if n > 0 {
      NthInWeek(day, n - 1);
      NextInWeek(Nth(day, n - 1));
    }
  }

  lemma {:induction false} WeeksFrom(day: int, k: nat)
    requires 1 <= DayOfWeek(day) <= 5
    ensures Nth(day, 5 * k) == day + 7 * k && DayOfWeek(day + 7 * k) == DayOfWeek(day)
    decreases k
  {
    hide DayOfWeek, Nth, IsBusinessDay, NextBusinessDay;
    if k == 0 {
      NthOfNone(day, 5 * k);
    } else {
      WeeksFrom(day, k - 1);
      var d, five := day + 7 * (k - 1), 5 * k - 5 * (k - 1);
      NthInWeek(d, five);
      NthIsAdditive(day, 5 * (k - 1), five);
    }
  }

  /** Five business days from a business day are a week. */
  lemma FiveIsAWeek(day: int, k: nat)
    requires IsBusinessDay(day)
    ensures Nth(day, 5 * k) == day + 7 * k
  {
    hide Nth;
    WeeksFrom(day, k);
  }

  lemma NthOfNone(day: int, n: nat)
    requires n == 0
    ensures Nth(day, n) == day
  {
  }

  /** An instant moved to the n-th business day after its own, at the same time of day. */
  function Later(instant: int, n: nat): int {
    MS_PER_DAY * Nth(instant / MS_PER_DAY, n) + instant % MS_PER_DAY
  }

  /** The loop of addBusinessDays; anything but a positive number of days is an error. */
  method AddBusinessDays(start: int, businessDays: int) returns (result: Option<int>)
    ensures result == if businessDays < 1 then None else Some(Later(start, businessDays))
  {
    if businessDays < 1 { return None; }
    hide NextBusinessDay, Nth;
    var day, remaining := start / MS_PER_DAY, businessDays;
    while remaining > 0
      invariant 0 <= remaining && day >= start / MS_PER_DAY
      invariant Count(start / MS_PER_DAY, day) + remaining == businessDays
      invariant remaining == 0 ==> day > start / MS_PER_DAY && IsBusinessDay(day)
      decreases remaining, NextBusinessDay(day) - day
    {
      StepTowardsNext(day);
      day := day + 1;
      if IsBusinessDay(day) { remaining := remaining - 1; }
    }
    CountDecidesNth(start / MS_PER_DAY, day, businessDays);
    result := Some(MS_PER_DAY * day + start % MS_PER_DAY);
  }

  // A step over the weekend comes closer to the next business day.
  lemma StepTowardsNext(day: int)
    ensures !IsBusinessDay(day + 1) ==> NextBusinessDay(day + 1) == NextBusinessDay(day)
  {
  }

  // ---- Reminders ----

  predicate IsSameUtcDate(a: int, b: int) {
    var x, y := a / MS_PER_DAY, b / MS_PER_DAY;
    MonthOf(x) / 12 == MonthOf(y) / 12 && MonthOf(x) % 12 == MonthOf(y) % 12 && DayOfMonth(x) == DayOfMonth(y)
  }

  lemma SameDateIff(a: int, b: int)
    ensures IsSameUtcDate(a, b) <==> a / MS_PER_DAY == b / MS_PER_DAY
  {
    hide MonthOf, MonthStart;
    var x, y := a / MS_PER_DAY, b / MS_PER_DAY;
    if IsSameUtcDate(a, b) { assert MonthOf(x) == MonthOf(y); }
  }

  /** The reminder setting: business days, each at least one. */
  predicate AreMilestones(days: seq<int>) { forall i :: 0 <= i < |days| ==> days[i] >= 1 }

  predicate IsApplicantReminderDue(publishedAt: int, today: int, days: seq<int>)
    requires AreMilestones(days)
  {
    exists i :: 0 <= i < |days| && IsSameUtcDate(Later(publishedAt, days[i]), today)
  }

  predicate IsInformationRequestOverdue(dueAt: int, now: int) { dueAt < now }

  /** A request is overdue from the millisecond after it is due, and for good. */
  lemma OverdueFrom(dueAt: int, now: int)
    ensures IsInformationRequestOverdue(dueAt, now) <==> now >= dueAt + 1
  {
  }

  lemma DayOfLater(instant: int, n: nat)
    ensures Later(instant, n) / MS_PER_DAY == Nth(instant / MS_PER_DAY, n)
    ensures Later(instant, n) % MS_PER_DAY == instant % MS_PER_DAY
  {
    hide Nth;
  }

  lemma DueIff(publishedAt: int, today: int, days: seq<int>)
    requires AreMilestones(days)
    ensures IsApplicantReminderDue(publishedAt, today, days) <==>
            exists m: nat :: m in days && Nth(publishedAt / MS_PER_DAY, m) == today / MS_PER_DAY
  {
    hide IsSameUtcDate, Later, Nth;
    forall m: nat | m in days
      ensures IsSameUtcDate(Later(publishedAt, m), today) <==> Nth(publishedAt / MS_PER_DAY, m) == today / MS_PER_DAY
    {
      DayOfLater(publishedAt, m);
      SameDateIff(Later(publishedAt, m), today);
    }
    if IsApplicantReminderDue(publishedAt, today, days) {
      var i :| 0 <= i < |days| && IsSameUtcDate(Later(publishedAt, days[i]), today);
      var m: nat := days[i];
      assert m in days;
    }
  }

  datatype Request = Request(publishedAt: int, dueAt: int, email: Option<string>)

  /** The reminders of one tick, in the order of the requests. */
  function Reminders(requests: seq<Request>, today: int, days: seq<int>): seq<(string, int)>
    requires AreMilestones(days)
  {
    if requests == [] then []
    else
      var r := requests[|requests| - 1];
      Reminders(requests[..|requests| - 1], today, days) +
      if r.email.Some? && IsApplicantReminderDue(r.publishedAt, today, days) then [(r.email.value, r.dueAt)] else []
  }

  /** A tick reminds exactly the addresses of the requests that have a milestone today, of their due date. */
  lemma {:induction false} RemindedIff(requests: seq<Request>, today: int, days: seq<int>, to: string, dueAt: int)
    requires AreMilestones(days)
    ensures (to, dueAt) in Reminders(requests, today, days) <==>
              exists r :: r in requests && r.email == Some(to) && r.dueAt == dueAt
                       && exists m: nat :: m in days && Nth(r.publishedAt / MS_PER_DAY, m) == today / MS_PER_DAY
  {
    hide IsApplicantReminderDue, Nth, AreMilestones;
    if requests != [] {
      var front, last := requests[..|requests| - 1], requests[|requests| - 1];
      assert requests == front + [last];
      RemindedIff(front, today, days, to, dueAt);
      DueIff(last.publishedAt, today, days);
    }
  }

  method SendApplicantResponseReminders(requests: seq<Request>, today: int, days: seq<int>)
    returns (sent: seq<(string, int)>, checked: nat, acted: nat)
    requires AreMilestones(days)
    ensures sent == Reminders(requests, today, days) && checked == |requests| && acted == |sent|
  {
    hide IsApplicantReminderDue;
    sent, acted := [], 0;
    for i := 0 to |requests|
      invariant sent == Reminders(requests[..i], today, days) && acted == |sent|
    {
      assert requests[..i + 1][..i] == requests[..i];
      var r := requests[i];
      if r.email.Some? && IsApplicantReminderDue(r.publishedAt, today, days) {
        sent := sent + [(r.email.value, r.dueAt)];
        acted := acted + 1;
      }
    }
    assert requests[..|requests|] == requests;
    checked := |requests|;
  }

  // ---- One tick a day ----

  /** One tick on each of the days after publication. */
  predicate TicksDaily(publishedAt: int, ticks: seq<int>) {
    forall i :: 0 <= i < |ticks| ==> ticks[i] / MS_PER_DAY == publishedAt / MS_PER_DAY + 1 + i
  }

  /** How many of the ticks find a reminder due. */
  function Sent(publishedAt: int, ticks: seq<int>, days: seq<int>): nat
    requires AreMilestones(days)
  {
    if ticks == [] then 0
    else
      Sent(publishedAt, ticks[..|ticks| - 1], days) +
      if IsApplicantReminderDue(publishedAt, ticks[|ticks| - 1], days) then 1 else 0
  }

  /** The distinct milestones that fall on the first n days after publication. */
  function Reached(publishedAt: int, n: nat, days: seq<int>): set<int>
    requires AreMilestones(days)
  {
    set m | m in days && m >= 1 && Nth(publishedAt / MS_PER_DAY, m) <= publishedAt / MS_PER_DAY + n
  }

  lemma ReachedGrows(publishedAt: int, n: nat, days: seq<int>, tick: int)
    requires AreMilestones(days) && tick / MS_PER_DAY == publishedAt / MS_PER_DAY + n + 1
    ensures |Reached(publishedAt, n + 1, days)| ==
            |Reached(publishedAt, n, days)| + if IsApplicantReminderDue(publishedAt, tick, days) then 1 else 0
  {
    hide IsApplicantReminderDue, Nth, AreMilestones;
    var day := publishedAt / MS_PER_DAY;
    var before, now := Reached(publishedAt, n, days), Reached(publishedAt, n + 1, days);
    DueIff(publishedAt, tick, days);
    if IsApplicantReminderDue(publishedAt, tick, days) {
      var m: nat :| m in days && Nth(day, m) == day + n + 1;
      Positive(days, m);
      forall k: nat | k in days && Nth(day, k) == day + n + 1 ensures k == m {
        if k < m { NthIncreases(day, k, m); } else if m < k { NthIncreases(day, m, k); }
      }
      assert now == before + {m};
    } else {
      assert now == before;
    }
  }

  lemma Positive(days: seq<int>, m: int)
    requires AreMilestones(days) && m in days
    ensures m >= 1
  {
  }

  /** One tick a day sends one reminder for every distinct milestone it reaches: none is missed and none is repeated. */
  lemma {:induction false} EachMilestoneOnce(publishedAt: int, ticks: seq<int>, days: seq<int>)
    requires AreMilestones(days) && TicksDaily(publishedAt, ticks)
    ensures Sent(publishedAt, ticks, days) == |Reached(publishedAt, |ticks|, days)|
    decreases |ticks|
  {
    hide IsApplicantReminderDue, Reached;
    if ticks == [] {
      NoneReached(publishedAt, days);
    } else {
      var n := |ticks| - 1;
      EachMilestoneOnce(publishedAt, ticks[..n], days);
      ReachedGrows(publishedAt, n, days, ticks[n]);
    }
  }

  lemma NoneReached(publishedAt: int, days: seq<int>)
    requires AreMilestones(days)
    ensures Reached(publishedAt, 0, days) == {}
  {
    forall m | m in days && m >= 1 ensures Nth(publishedAt / MS_PER_DAY, m) > publishedAt / MS_PER_DAY {
      NthIncreases(publishedAt / MS_PER_DAY, 0, m);
    }
  }

  /**
   * A milestone shorter than the response window falls on an earlier day than the due date,
   * whatever time the job runs.
   */
  lemma MilestoneBeforeDue(publishedAt: int, milestone: nat, window: nat, today: int)
    requires 1 <= milestone < window && IsSameUtcDate(Later(publishedAt, milestone), today)
    ensures today < Later(publishedAt, window) && !IsInformationRequestOverdue(Later(publishedAt, window), today)
  {
    hide IsSameUtcDate, Later, Nth;
    SameDateIff(Later(publishedAt, milestone), today);
    DayOfLater(publishedAt, milestone);
    DayOfLater(publishedAt, window);
    NthIncreases(publishedAt / MS_PER_DAY, milestone, window);
    EarlierDay(today, Later(publishedAt, window));
  }

  lemma EarlierDay(a: int, b: int)
    requires a / MS_PER_DAY < b / MS_PER_DAY
    ensures a < b
  {
  }
}
