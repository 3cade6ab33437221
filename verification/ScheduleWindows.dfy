/** When a schedule is active: the predicate of the code against windows of time. */
module ScheduleWindows {
  import opened Basics
  import opened ScheduleWord

  const DAY: nat := 86_400
  const WEEK: nat := 604_800
  const ONE_SHOT: u32 := 0xFFFF_FFFF

  /** `to == 0` means there is no end. */
  datatype Schedule = Schedule(from: u32, to: u32, len: u32, mask: bv32)

  /** The remainder by a zero delta is undefined in the code. */
  datatype Outcome = Active | Inactive | DivideByZero

  /** Day of the month and month of a moment, as `gmtime` reports them. */
  datatype Civil = Civil(day: bv32, month: bv32)

  function Weekday(now: u32): (d: nat)
    ensures d < 7
  {
    (now / DAY + 4) % 7
  }

  predicate InPeriod(s: Schedule, compiled: u32, now: u32)
  {
    now > compiled && now >= s.from && (now < s.to || s.to == 0)
  }

  predicate MaskAllows(mask: bv32, now: u32, civil: Civil)
  {
    || Is(mask, FixedDelta) || Is(mask, OneShot)
    || (Is(mask, Weekly) && DayBit(Weekday(now)) & WeekOf(mask) != 0)
    || (Is(mask, Monthly) && civil.day == DayOf(mask))
    || (Is(mask, Yearly) && civil.day == DayOf(mask) && civil.month == MonthOf(mask))
  }

  function UnitSeconds(u: Unit): nat
  {
    match u case Seconds => 1 case Minutes => 60 case Hours => 3_600 case Days => 86_400
  }

  /** The 26-bit repetition as a number. */
  function Count(mask: bv32): (n: nat)
    ensures n <= 0x03FF_FFFF
  {
    var rep := RepetitionOf(mask);
    assert rep <= 0x03FF_FFFF;
    (rep as bv26) as nat
  }

  function Delta(mask: bv32): u32
  {
    var rep := Count(mask);
    if In(mask, Seconds) then rep % U32
    else if In(mask, Minutes) then (60 * rep) % U32
    else if In(mask, Hours) then (3_600 * rep) % U32
    else if In(mask, Days) then (86_400 * rep) % U32
    else if Is(mask, Weekly) || Is(mask, Monthly) || Is(mask, Yearly) then DAY
    else ONE_SHOT
  }

  function Activated(s: Schedule, compiled: u32, now: u32, civil: Civil): Outcome
  {
    if !InPeriod(s, compiled, now) || !MaskAllows(s.mask, now, civil) then Inactive
    else
      var delta := Delta(s.mask);
      if delta == 0 then DivideByZero
      else if (now - s.from) % delta <= s.len then Active
      else Inactive
  }

  /** The first second that a schedule does not own any more. */
  function End(s: Schedule): nat
  {
    if s.to == 0 then U32 else s.to
  }

  /** The time a schedule may use: behind compile time, from its start to its end. */
  predicate Allotted(s: Schedule, compiled: u32, now: u32)
  {
    compiled < now && s.from <= now < End(s)
  }

  // ---------------------------------------------------------------- fixed-delta schedules

  /** Some window `[from + k * delta, from + k * delta + len]` holds `now`. */
  ghost predicate InSomeWindow(from: nat, delta: nat, len: nat, now: nat)
  {
    exists k: nat :: Window(from, delta, len, now, k)
  }

  predicate Window(from: nat, delta: nat, len: nat, now: nat, k: nat)
  {
    from + k * delta <= now <= from + k * delta + len
  }

  lemma RemainderIsWindow(from: nat, delta: nat, len: nat, now: nat)
    requires delta > 0 && from <= now
    ensures (now - from) % delta <= len <==> InSomeWindow(from, delta, len, now)
  {
    var x := now - from;
    var q := x / delta;
    assert x == q * delta + x % delta;
    if x % delta <= len {
      assert Window(from, delta, len, now, q);
    }
    if InSomeWindow(from, delta, len, now) {
      var k: nat :| Window(from, delta, len, now, k);
      LastWindowIsClosest(x, delta, k, q);
    }
  }

  lemma LastWindowIsClosest(x: nat, delta: nat, k: nat, q: nat)
    requires delta > 0 && k * delta <= x && x == q * delta + x % delta
    ensures x % delta <= x - k * delta
  {
    if k <= q {
      MoreWindows(q, k, delta);
    } else {
      MoreWindows(k, q + 1, delta);
    }
  }

  lemma MoreWindows(a: nat, b: nat, d: nat)
    requires a >= b
    ensures a * d >= b * d
    ensures b > 0 ==> b * d == (b - 1) * d + d
  {
    assert a * d == b * d + (a - b) * d;
  }

  /** A fixed-delta schedule whose period is not zero is active exactly inside its period and
      inside one of its repeated windows. */
  lemma FixedDeltaWindows(s: Schedule, unit: Unit, reps: bv32, compiled: u32, now: u32, civil: Civil)
    requires s.mask == CreateFixedDelta(unit, reps) && Delta(s.mask) > 0
    ensures Activated(s, compiled, now, civil) == Active <==>
            Allotted(s, compiled, now) && InSomeWindow(s.from, Delta(s.mask), s.len, now)
    ensures Activated(s, compiled, now, civil) != DivideByZero
  {
    FixedDeltaComesBack(unit, reps);
    if Allotted(s, compiled, now) {
      RemainderIsWindow(s.from, Delta(s.mask), s.len, now);
    }
  }

  /** A schedule without an end goes on: it is active in every one of its windows behind compile
      time, however late. */
  lemma EndlessScheduleGoesOn(s: Schedule, unit: Unit, reps: bv32, compiled: u32, civil: Civil, k: nat, r: nat)
    requires s.mask == CreateFixedDelta(unit, reps) && Delta(s.mask) > 0 && s.to == 0
    requires r <= s.len && compiled < s.from + k * Delta(s.mask) + r < U32
    ensures Activated(s, compiled, s.from + k * Delta(s.mask) + r, civil) == Active
  {
    var now := s.from + k * Delta(s.mask) + r;
    FixedDeltaWindows(s, unit, reps, compiled, now, civil);
    assert Window(s.from, Delta(s.mask), s.len, now, k);
  }

  /** Whatever its kind, a schedule is not active before its start, from its end on, and up to
      compile time. */
  lemma NeverOutside(s: Schedule, compiled: u32, now: u32, civil: Civil)
    requires now < s.from || 0 < s.to <= now || now <= compiled
    ensures Activated(s, compiled, now, civil) == Inactive
  {
  }

  /** The period is the asked one as long as it fits 32 bits. */
  lemma DeltaMeaning(unit: Unit, reps: bv32)
    ensures var w := CreateFixedDelta(unit, reps);
            Delta(w) == UnitSeconds(unit) * Count(w) % U32
  {
    FixedDeltaComesBack(unit, reps);
  }

  /** The division by zero that the code does not guard against happens, for a schedule in
      its period, exactly for a repetition of zero and for 2^25 days. */
  lemma WhenItDividesByZero(s: Schedule, unit: Unit, reps: bv32, compiled: u32, now: u32, civil: Civil)
    requires s.mask == CreateFixedDelta(unit, reps) && Allotted(s, compiled, now)
    ensures var n := Count(s.mask);
            Activated(s, compiled, now, civil) == DivideByZero <==> n == 0 || (unit == Days && n == 0x200_0000)
  {
    FixedDeltaComesBack(unit, reps);
    DeltaMeaning(unit, reps);
    ZeroDelta(unit, Count(s.mask));
  }

  lemma ZeroDelta(unit: Unit, n: nat)
    requires n <= 0x03FF_FFFF
    ensures UnitSeconds(unit) * n % U32 == 0 <==> n == 0 || (unit == Days && n == 0x200_0000)
  {
    match unit {
      case Seconds =>
      case Minutes =>
      case Hours => ZeroHours(n);
      case Days => ZeroDays(n);
    }
  }

  /** 225 is invertible modulo 2^28. */
  lemma ZeroHours(n: nat)
    requires n <= 0x03FF_FFFF
    ensures 3_600 * n % U32 == 0 <==> n == 0
  {
    var q := 3_600 * n / U32;
    if 3_600 * n == q * U32 {
      assert 225 * n == q * 0x1000_0000;
      assert n == 0x1000_0000 * (124076833 * q - 104 * n);
    }
  }

  /** 675 is invertible modulo 2^25. */
  lemma ZeroDays(n: nat)
    requires n <= 0x03FF_FFFF
    ensures 86_400 * n % U32 == 0 <==> n == 0 || n == 0x200_0000
  {
    var q := 86_400 * n / U32;
    if 86_400 * n == q * U32 {
      assert 675 * n == q * 0x200_0000;
      assert n == 0x200_0000 * (18989323 * q - 382 * n);
    }
  }

  // ---------------------------------------------------------------- one shot

  /** A one-shot schedule is active from `from` for `len` seconds; the remainder only matters
      at the very last second of the 32-bit time line, for a schedule from its very first. */
  lemma OneShotWindow(s: Schedule, compiled: u32, now: u32, civil: Civil)
    requires s.mask == CreateOneShot()
    ensures Activated(s, compiled, now, civil) == Active <==>
            Allotted(s, compiled, now) && (now <= s.from + s.len || (s.from == 0 && now == 0xFFFF_FFFF))
  {
    assert Is(s.mask, OneShot);
    assert Delta(s.mask) == ONE_SHOT;
  }

  // ---------------------------------------------------------------- weekly

  /** A weekly schedule is active exactly inside its period, on its days, within `len`
      seconds of the time of day it starts at. */
  lemma WeeklyWindows(s: Schedule, days: seq<bool>, compiled: u32, now: u32, civil: Civil)
    requires |days| == 7 && s.mask == WeeklyWord(days)
    ensures Activated(s, compiled, now, civil) == Active <==>
            Allotted(s, compiled, now) && days[Weekday(now)] && (now - s.from) % DAY <= s.len
    ensures Activated(s, compiled, now, civil) != DivideByZero
  {
    WeeklyGate(days, now, civil);
  }

  /** All of the first day of the clock, the first of January 1970, is a Thursday, and the same time
      a day later is on the next weekday.  Sunday is 0. */
  lemma WeekdaysComeRound(t: u32)
    ensures t < DAY ==> Weekday(t) == 4
    ensures t + DAY < U32 ==> Weekday(t + DAY) == if Weekday(t) == 6 then 0 else Weekday(t) + 1
  {
    assert (t + DAY) / DAY == t / DAY + 1;
  }

  lemma WeeklyGate(days: seq<bool>, now: u32, civil: Civil)
    requires |days| == 7
    ensures MaskAllows(WeeklyWord(days), now, civil) <==> days[Weekday(now)]
    ensures Delta(WeeklyWord(days)) == DAY
  {
    var w := WeeklyWord(days);
    WeeklyComesBack(days, Weekday(now));
    assert !Is(w, FixedDelta) && !Is(w, OneShot) && !Is(w, Monthly) && !Is(w, Yearly) && Is(w, Weekly);
  }

  /** Inside the period it repeats every week. */
  lemma WeeklyRepeats(s: Schedule, days: seq<bool>, compiled: u32, now: u32, civil: Civil, later: Civil)
    requires |days| == 7 && s.mask == WeeklyWord(days)
    requires now + WEEK < U32 && Allotted(s, compiled, now) && Allotted(s, compiled, now + WEEK)
    ensures Activated(s, compiled, now + WEEK, later) == Activated(s, compiled, now, civil)
  {
    WeeklyWindows(s, days, compiled, now, civil);
    WeeklyWindows(s, days, compiled, now + WEEK, later);
    AWeekLater(now);
    AWeekLater(now - s.from);
  }

  lemma AWeekLater(t: nat)
    ensures (t + WEEK) % DAY == t % DAY && ((t + WEEK) / DAY + 4) % 7 == (t / DAY + 4) % 7
  {
    assert (t + WEEK) / DAY == t / DAY + 7;
  }

  /** A daily start on an active day opens a window of `len` seconds.  Since the code asks
      for the weekday of the moment and not of the start, the window is served to its end
      exactly when its last second also falls on an active day: one that runs past midnight
      into an inactive day is cut off there. */
  lemma WeeklyWindowIsServed(s: Schedule, days: seq<bool>, compiled: u32, start: u32, civil: Civil)
    requires |days| == 7 && s.mask == WeeklyWord(days) && s.len < DAY
    requires start >= s.from && (start - s.from) % DAY == 0 && days[Weekday(start)]
    requires start + s.len < U32 && Allotted(s, compiled, start) && Allotted(s, compiled, start + s.len)
    ensures (forall r :: 0 <= r <= s.len ==> ActiveAfter(s, compiled, start, r, civil))
            <==> days[Weekday(start + s.len)]
  {
    forall r | 0 <= r <= s.len
      ensures ActiveAfter(s, compiled, start, r, civil) <==> days[Weekday(start + r)]
      ensures Weekday(start + r) == Weekday(start) || Weekday(start + r) == Weekday(start + s.len)
    {
      ActiveByWeekday(s, days, compiled, start, r, civil);
      SameOrNextDay(start, r, s.len);
    }
    assert ActiveAfter(s, compiled, start, s.len, civil) <==> days[Weekday(start + s.len)];
  }

  /** Within a window only the weekday of the moment matters. */
  lemma ActiveByWeekday(s: Schedule, days: seq<bool>, compiled: u32, start: u32, r: nat, civil: Civil)
    requires |days| == 7 && s.mask == WeeklyWord(days) && r <= s.len < DAY
    requires start >= s.from && (start - s.from) % DAY == 0 && start + s.len < U32
    requires Allotted(s, compiled, start) && Allotted(s, compiled, start + s.len)
    ensures ActiveAfter(s, compiled, start, r, civil) <==> days[Weekday(start + r)]
  {
    WeeklyWindows(s, days, compiled, start + r, civil);
    OffsetInDay(start - s.from, r);
  }

  predicate ActiveAfter(s: Schedule, compiled: u32, start: u32, r: int, civil: Civil)
  {
    0 <= start + r < U32 && Activated(s, compiled, start + r, civil) == Active
  }

  /** Less than a day ahead there is at most one midnight. */
  lemma SameOrNextDay(start: nat, r: nat, len: nat)
    requires r <= len < DAY && start + len < U32
    ensures Weekday(start + r) == Weekday(start) || Weekday(start + r) == Weekday(start + len)
  {
  }

  lemma OffsetInDay(base: nat, r: nat)
    requires base % DAY == 0 && r < DAY
    ensures (base + r) % DAY == r
  {
  }

  // ---------------------------------------------------------------- monthly

  /** A monthly schedule is active exactly inside its period, on its day clamped to 1..31,
      within `len` seconds of the time of day it starts at: never in a month that lacks the day. */
  lemma MonthlyWindows(s: Schedule, day: int, compiled: u32, now: u32, civil: Civil)
    requires s.mask == CreateMonthly(day)
    ensures Activated(s, compiled, now, civil) == Active <==>
            && Allotted(s, compiled, now) && (now - s.from) % DAY <= s.len
            && civil.day == if day < 1 then 1 else if day > 31 then 31 else day as bv32
    ensures Activated(s, compiled, now, civil) != DivideByZero
  {
    MonthlyComesBack(day);
    var w := CreateMonthly(day);
    assert !Is(w, FixedDelta) && !Is(w, OneShot) && !Is(w, Weekly) && !Is(w, Yearly) && Is(w, Monthly);
    assert Delta(w) == DAY;
  }

  // ---------------------------------------------------------------- yearly

  /** As written, a yearly schedule is never active. */
  lemma YearlyIsNeverActive(s: Schedule, month: bv32, day: int, compiled: u32, now: u32, civil: Civil)
    requires month <= 11 && s.mask == CreateYearly(month, day)
    ensures Activated(s, compiled, now, civil) == Inactive
  {
    YearlyHasNoKind(month, day);
  }
}
