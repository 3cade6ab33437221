/** The packed 32-bit schedule word: encoders, decoders, and what comes back. */
module ScheduleWord {

  const UNIT_MASK: bv32 := 0xC000_0000
  const TYPE_MASK: bv32 := 0x3C00_0000
  const MONTH_MASK: bv32 := 0x0000_FF00
  const REP_MASK: bv32 := 0x03FF_FFFF
  const WEEK_MASK: bv32 := 0x0000_00FF
  const DAY_MASK: bv32 := 0x0000_00FF

  datatype Unit = Seconds | Minutes | Hours | Days
  datatype Kind = OneShot | FixedDelta | Weekly | Monthly | Yearly

  function UnitCode(u: Unit): bv32
  {
    match u case Seconds => 0 case Minutes => 1 case Hours => 2 case Days => 3
  }

  function KindCode(k: Kind): bv32
  {
    match k case OneShot => 0 case FixedDelta => 1 case Weekly => 2 case Monthly => 3 case Yearly => 4
  }

  // ---------------------------------------------------------------- encoders

  function CreateOneShot(): bv32
  {
    KindCode(OneShot)
  }

  function CreateFixedDelta(unit: Unit, delta: bv32): bv32
  {
    var capped := if delta > REP_MASK then REP_MASK else delta;
    (UnitCode(unit) << 30) | (KindCode(FixedDelta) << 26) | capped
  }

  function DayBit(i: nat): bv32
    requires i < 7
  {
    if i == 0 then 1 else if i == 1 then 2 else if i == 2 then 4 else if i == 3 then 8
    else if i == 4 then 16 else if i == 5 then 32 else 64
  }

  /** The bits of the active ones among the first `n` days. */
  function WeekBits(days: seq<bool>, n: nat): bv32
    requires n <= |days| == 7
  {
    if n == 0 then 0
    else if days[n - 1] then WeekBits(days, n - 1) | DayBit(n - 1)
    else WeekBits(days, n - 1)
  }

  method CreateWeekly(days: seq<bool>) returns (w: bv32)
    requires |days| == 7
    ensures w == WeeklyWord(days)
  {
    var week: bv32 := 0;
    for i := 0 to 7
      invariant week == WeekBits(days, i)
    {
      if days[i] {
        week := week | DayBit(i);
      }
    }
    w := (KindCode(Weekly) << 26) | week;
  }

  function WeeklyWord(days: seq<bool>): bv32
    requires |days| == 7
  {
    (KindCode(Weekly) << 26) | WeekBits(days, 7)
  }

  function Clamp(day: int): (r: bv32)
    ensures 1 <= r <= 31
  {
    if day < 1 then 1 else if day > 31 then 31 else day as bv32
  }

  function CreateMonthly(day: int): bv32
  {
    (KindCode(Monthly) << 26) | Clamp(day)
  }

  function CreateYearly(month: bv32, day: int): bv32
  {
    (KindCode(Yearly) << 26) | (month << 8) | CreateMonthly(day)
  }

  // ---------------------------------------------------------------- decoders

  function UnitOf(w: bv32): bv32 { (w & UNIT_MASK) >> 30 }
  function KindOf(w: bv32): bv32 { (w & TYPE_MASK) >> 26 }
  function RepetitionOf(w: bv32): bv32 { w & REP_MASK }
  function WeekOf(w: bv32): bv32 { w & WEEK_MASK }
  function DayOf(w: bv32): bv32 { w & DAY_MASK }
  function MonthOf(w: bv32): bv32 { (w & MONTH_MASK) >> 8 }

  predicate Is(w: bv32, k: Kind)
  {
    KindOf(w) == KindCode(k)
  }

  predicate In(w: bv32, u: Unit)
  {
    Is(w, FixedDelta) && UnitOf(w) == UnitCode(u)
  }

  // ---------------------------------------------------------------- what comes back

  /** A fixed-delta word gives back its unit, its kind and its delta capped to 26 bits. */
  lemma FixedDeltaComesBack(unit: Unit, delta: bv32)
    ensures var w := CreateFixedDelta(unit, delta);
            && (forall u: Unit :: In(w, u) <==> u == unit)
            && (forall k: Kind :: Is(w, k) <==> k == FixedDelta)
            && RepetitionOf(w) == if delta > 0x03FF_FFFF then 0x03FF_FFFF else delta
  {
    match unit { case Seconds => case Minutes => case Hours => case Days => }
  }

  lemma OneMoreDay(bits: bv32, i: nat, j: nat)
    requires i < 7 && j < 7 && bits <= 0x7F
    ensures (bits | DayBit(i)) & DayBit(j) != 0 <==> i == j || bits & DayBit(j) != 0
    ensures bits | DayBit(i) <= 0x7F
  {
  }

  lemma {:induction false} WeekBitsMeaning(days: seq<bool>, n: nat, j: nat)
    requires n <= |days| == 7 && j < 7
    ensures WeekBits(days, n) & DayBit(j) != 0 <==> j < n && days[j]
    ensures WeekBits(days, n) <= 0x7F
    decreases n
  {
    if n > 0 {
      WeekBitsMeaning(days, n - 1, j);
      OneMoreDay(WeekBits(days, n - 1), n - 1, j);
    }
  }

  lemma WeekFits(bits: bv32)
    requires bits <= 0x7F
    ensures var w := (KindCode(Weekly) << 26) | bits;
            WeekOf(w) == bits && KindOf(w) == KindCode(Weekly)
  {
  }

  /** A weekly word gives back its kind and exactly the active days. */
  lemma WeeklyComesBack(days: seq<bool>, j: nat)
    requires |days| == 7 && j < 7
    ensures DayBit(j) & WeekOf(WeeklyWord(days)) != 0 <==> days[j]
    ensures forall k: Kind :: Is(WeeklyWord(days), k) <==> k == Weekly
  {
    WeekBitsMeaning(days, 7, j);
    WeekFits(WeekBits(days, 7));
    var bits := WeekBits(days, 7);
    assert DayBit(j) & bits == bits & DayBit(j);
  }

  /** A monthly word gives back its kind and the day, clamped to 1..31. */
  lemma MonthlyComesBack(day: int)
    ensures var w := CreateMonthly(day);
            && (forall k: Kind :: Is(w, k) <==> k == Monthly)
            && DayOf(w) == if day < 1 then 1 else if day > 31 then 31 else day as bv32
  {
    var d := Clamp(day);
    assert ((KindCode(Monthly) << 26) | d) & DAY_MASK == d;
  }

  /** A yearly word gives back its day and month, but the monthly tag mixed into it leaves
      the kind field at 7: it is of no kind at all. */
  lemma YearlyHasNoKind(month: bv32, day: int)
    requires month <= 11
    ensures var w := CreateYearly(month, day);
            && (forall k: Kind :: !Is(w, k))
            && DayOf(w) == DayOf(CreateMonthly(day)) && MonthOf(w) == month
  {
    var d := Clamp(day);
    var w := (KindCode(Yearly) << 26) | (month << 8) | ((KindCode(Monthly) << 26) | d);
    assert KindOf(w) == 7 && DayOf(w) == d && MonthOf(w) == month;
    assert DayOf((KindCode(Monthly) << 26) | d) == d;
  }
}
