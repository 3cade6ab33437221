/** The timestamps attached to published values, in ticks of 10 microseconds. */
module Timestamps {
  import opened Basics

  const TICKS: nat := 100_000
  const YEAR_2023: nat := 1_672_531_200

  /** What is remembered for one kind of value; `lastTimestamp` is in ticks. */
  datatype Memory = Memory(msAnchor: u32, lastSec: nat, lastTimestamp: nat)

  const FRESH := Memory(0, 0, 0)

  /** A reading of the two clocks: whole seconds, and milliseconds that wrap. */
  datatype Clock = Clock(sec: nat, ms: u32)

  function Min(a: nat, b: nat): nat
  {
    if a < b then a else b
  }

  /** The reading itself in ticks: the second, plus the milliseconds since it was first seen. */
  function Candidate(m: Memory, c: Clock): nat
  {
    c.sec * TICKS + (if c.sec != m.lastSec then 0 else Min(Sub32(c.ms, m.msAnchor), 999)) * 100
  }

  /** The last tick of the second that `t` lies in. */
  function Cap(t: nat): (r: nat)
    ensures t <= r && r / TICKS == t / TICKS && r % TICKS == TICKS - 1
  {
    t / TICKS * TICKS + (TICKS - 1)
  }

  class Timestamper {
    var msAnchor: u32
    var lastSec: nat
    var lastTimestamp: nat

    constructor ()
      ensures View() == FRESH
    {
      msAnchor, lastSec, lastTimestamp := 0, 0, 0;
    }

    function View(): Memory
      reads this
    {
      Memory(msAnchor, lastSec, lastTimestamp)
    }

    /** `addTimestamp`: nothing before the clock has been set. */
    method AddTimestamp(c: Clock) returns (t: Option<nat>)
      modifies this
      ensures (t, View()) == Stamp(old(View()), c)
    {
      if c.sec <= YEAR_2023 {
        return None;
      }
      if c.sec != lastSec {
        lastSec := c.sec;
        msAnchor := c.ms;
      }
      var diff: nat := Sub32(c.ms, msAnchor);
      if diff > 999 {
        diff := 999;
      }
      var timestamp := c.sec * TICKS + diff * 100;
      if timestamp <= lastTimestamp {
        timestamp := lastTimestamp + 1;
        var cap := lastTimestamp / TICKS * TICKS + (TICKS - 1);
        if timestamp > cap {
          timestamp := cap;
        }
      }
      lastTimestamp := timestamp;
      t := Some(timestamp);
    }
  }

  /** The timestamp for a reading, and what is remembered afterwards. */
  function Stamp(m: Memory, c: Clock): (Option<nat>, Memory)
  {
    if c.sec <= YEAR_2023 then (None, m)
    else
      var t := if Candidate(m, c) > m.lastTimestamp then Candidate(m, c)
               else Min(m.lastTimestamp + 1, Cap(m.lastTimestamp));
      (Some(t), Memory(if c.sec != m.lastSec then c.ms else m.msAnchor, c.sec, t))
  }

  function After(clocks: seq<Clock>): Memory
  {
    if clocks == [] then FRESH else Stamp(After(clocks[..|clocks| - 1]), clocks[|clocks| - 1]).1
  }

  /** The timestamps emitted for a sequence of readings. */
  function Emitted(clocks: seq<Clock>): seq<nat>
  {
    if clocks == [] then []
    else
      var t := Stamp(After(clocks[..|clocks| - 1]), clocks[|clocks| - 1]).0;
      Emitted(clocks[..|clocks| - 1]) + if t.Some? then [t.value] else []
  }

  /** One stamp after another: never smaller; larger unless the last one is the last tick of
      its second and the reading is not beyond it; a bumped stamp stays in its second; and a
      reading whose second is not behind the last stamp keeps its second. */
  lemma StampMeaning(m: Memory, c: Clock)
    requires c.sec > YEAR_2023
    ensures var t := Stamp(m, c).0.value;
            && t >= m.lastTimestamp
            && (t == m.lastTimestamp <==> m.lastTimestamp == Cap(m.lastTimestamp) && Candidate(m, c) <= m.lastTimestamp)
            && (t / TICKS == if c.sec >= m.lastTimestamp / TICKS then c.sec else m.lastTimestamp / TICKS)
            && (t == Candidate(m, c) || t / TICKS == m.lastTimestamp / TICKS)
            && (t == Candidate(m, c) || t == m.lastTimestamp || t == m.lastTimestamp + 1)
  {
    var d: nat := if c.sec != m.lastSec then 0 else Min(Sub32(c.ms, m.msAnchor), 999);
    SecondOf(c.sec, d * 100);
    SecondOf(m.lastTimestamp / TICKS, m.lastTimestamp % TICKS);
  }

  lemma SecondOf(sec: nat, ticks: nat)
    requires ticks < TICKS
    ensures (sec * TICKS + ticks) / TICKS == sec
  {
  }

  /** The second of the last reading that counts. */
  function LastSecond(clocks: seq<Clock>): nat
  {
    if clocks == [] then 0
    else if clocks[|clocks| - 1].sec > YEAR_2023 then clocks[|clocks| - 1].sec
    else LastSecond(clocks[..|clocks| - 1])
  }

  lemma {:induction false} LastSecondIsKept(clocks: seq<Clock>)
    ensures After(clocks).lastSec == LastSecond(clocks)
    decreases |clocks|
  {
    if clocks != [] {
      LastSecondIsKept(clocks[..|clocks| - 1]);
    }
  }

  /** Readings of one second, or that do not count. */
  predicate SameSecond(more: seq<Clock>, sec: nat)
  {
    forall i :: 0 <= i < |more| ==> more[i].sec == sec || more[i].sec <= YEAR_2023
  }

  lemma {:induction false} AnchorIsKept(front: seq<Clock>, first: Clock, more: seq<Clock>)
    requires first.sec > YEAR_2023 && LastSecond(front) != first.sec && SameSecond(more, first.sec)
    ensures After(front + [first] + more).lastSec == first.sec && After(front + [first] + more).msAnchor == first.ms
    decreases |more|
  {
    var all := front + [first] + more;
    if more == [] {
      LastSecondIsKept(front);
      assert all[..|all| - 1] == front;
    } else {
      AnchorIsKept(front, first, more[..|more| - 1]);
      assert all[..|all| - 1] == front + [first] + more[..|more| - 1];
      assert all[|all| - 1] == more[|more| - 1];
    }
  }

  /** Below the second: a timestamp is the second of its reading and the milliseconds, at most
      999, since this second was first seen; a later one only to stay behind the last. */
  lemma FractionIsTimeSinceFirstSeen(front: seq<Clock>, first: Clock, more: seq<Clock>, c: Clock)
    requires first.sec > YEAR_2023 && LastSecond(front) != first.sec && SameSecond(more, first.sec) && c.sec == first.sec
    ensures var m := After(front + [first] + more);
            var elapsed := Sub32(c.ms, first.ms);
            var raw := c.sec * TICKS + (if elapsed < 999 then elapsed else 999) * 100;
            && Stamp(m, c).0.Some?
            && (raw > m.lastTimestamp ==> Stamp(m, c).0.value == raw)
            && (raw <= m.lastTimestamp ==> m.lastTimestamp <= Stamp(m, c).0.value <= m.lastTimestamp + 1)
  {
    AnchorIsKept(front, first, more);
    StampMeaning(After(front + [first] + more), c);
  }

  /** And the first reading of a second that is ahead of the last timestamp gets the second itself. */
  lemma NewSecondStartsAtZero(front: seq<Clock>, first: Clock)
    requires first.sec > YEAR_2023 && LastSecond(front) != first.sec && first.sec * TICKS > After(front).lastTimestamp
    ensures Stamp(After(front), first).0 == Some(first.sec * TICKS)
  {
    LastSecondIsKept(front);
  }

  lemma {:induction false} LastEmitted(clocks: seq<Clock>)
    ensures After(clocks).lastTimestamp == if Emitted(clocks) == [] then 0 else Emitted(clocks)[|Emitted(clocks)| - 1]
    decreases |clocks|
  {
    if clocks != [] {
      LastEmitted(clocks[..|clocks| - 1]);
    }
  }

  /** Two neighbours in the published sequence. */
  predicate InOrder(a: nat, b: nat)
  {
    a < b || (a == b && a == Cap(a))
  }

  predicate Ascending(ts: seq<nat>)
  {
    forall i :: 0 < i < |ts| ==> InOrder(ts[i - 1], ts[i])
  }

  /** For any clock readings, backwards ones included, the published timestamps never
      decrease, and two neighbours are equal only at the last tick of a second. */
  lemma {:induction false} EmittedAscend(clocks: seq<Clock>)
    ensures Ascending(Emitted(clocks))
    decreases |clocks|
  {
    if clocks != [] {
      var front, c := clocks[..|clocks| - 1], clocks[|clocks| - 1];
      EmittedAscend(front);
      LastEmitted(front);
      if c.sec > YEAR_2023 {
        StampMeaning(After(front), c);
      }
    }
  }

  /** Every published timestamp lies in the largest second read so far. */
  lemma {:induction false} EmittedInTheLatestSecond(clocks: seq<Clock>)
    requires Emitted(clocks) != []
    ensures After(clocks).lastTimestamp / TICKS == Latest(clocks)
    decreases |clocks|
  {
    var front, c := clocks[..|clocks| - 1], clocks[|clocks| - 1];
    if c.sec > YEAR_2023 {
      StampMeaning(After(front), c);
    }
    if Emitted(front) == [] {
      LastEmitted(front);
      NothingLatest(front);
    } else {
      EmittedInTheLatestSecond(front);
    }
  }

  /** The largest second among the readings that count. */
  function Latest(clocks: seq<Clock>): nat
  {
    if clocks == [] then 0
    else
      var l, s := Latest(clocks[..|clocks| - 1]), clocks[|clocks| - 1].sec;
      if s > YEAR_2023 && s > l then s else l
  }

  lemma {:induction false} NothingLatest(clocks: seq<Clock>)
    requires Emitted(clocks) == []
    ensures Latest(clocks) == 0
    decreases |clocks|
  {
    if clocks != [] {
      NothingLatest(clocks[..|clocks| - 1]);
    }
  }
}
