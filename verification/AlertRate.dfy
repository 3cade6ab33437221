/** The alert rate limit over whole runs, and what becomes of it when the clock wraps. */
module AlertRate {
  import opened Basics
  import opened ActionChain
  import opened ChainMeaning
  import opened ChainRuns

  /** The clock and the next slot of alert `a` stay below 2^32. */
  predicate Fits(c: Chain, a: nat)
  {
    c.Shaped() && c.now < U32 && a < |c.kinds| && c.kinds[a].Alert? && c.last[a] + c.kinds[a].ms < U32
  }

  predicate AllFit(c: Chain, steps: seq<Step>, a: nat)
    requires c.Shaped()
  {
    Fits(Run(c, steps), a) && (steps != [] ==> AllFit(c, steps[..|steps| - 1], a))
  }

  /** The effects of action `a`, in order. */
  function Of(t: seq<Effect>, a: nat): seq<Effect>
  {
    if t == [] then []
    else Of(t[..|t| - 1], a) + if t[|t| - 1].action == a then [t[|t| - 1]] else []
  }

  lemma {:induction false} OfConcat(s: seq<Effect>, t: seq<Effect>, a: nat)
    ensures Of(s + t, a) == Of(s, a) + Of(t, a)
    decreases |t|
  {
    if t == [] {
      assert s + t == s;
    } else {
      OfConcat(s, t[..|t| - 1], a);
      assert (s + t)[..|s + t| - 1] == s + t[..|t| - 1];
    }
  }

  /** Among the effects of actions `i, i + 1, ...` there is at most one of action `a`. */
  lemma {:induction false} OfConsecutive(e: seq<Effect>, i: nat, a: nat)
    requires forall k :: 0 <= k < |e| ==> e[k].action == i + k
    ensures Of(e, a) == if i <= a < i + |e| then [e[a - i]] else []
    decreases |e|
  {
    if e != [] {
      OfConsecutive(e[..|e| - 1], i, a);
    }
  }

  lemma OfEffects(c: Chain, i: nat, j: nat, a: nat)
    requires c.Shaped() && i <= j <= |c.kinds|
    ensures Of(Effects(c, i, j), a) == if i <= a < j then [Effect(a, Slot(c, a), c.now)] else []
  {
    OfConsecutive(Effects(c, i, j), i, a);
  }

  /** Slots of consecutive effects are at least `d` apart, the first at least `d`, and no
      effect is earlier than its slot. */
  predicate Spaced(e: seq<Effect>, d: nat)
  {
    && (forall k :: 0 <= k < |e| ==> e[k].slot <= e[k].at)
    && (|e| > 0 ==> e[0].slot >= d)
    && forall j, k :: 0 <= j < k < |e| ==> e[k].slot >= e[j].slot + d
  }

  function LastSlot(e: seq<Effect>): nat
  {
    if e == [] then 0 else e[|e| - 1].slot
  }

  /** What every step keeps about one alert: `e` its effects, `last` its slot, `due` the
      pending timeout when the pass waits on it. */
  predicate Pace(e: seq<Effect>, last: u32, d: u32, now: nat, waiting: bool, due: Option<u32>, calm: bool)
  {
    && d > 0 && MultipleOf(last, d)
    && Spaced(e, d) && (forall k :: 0 <= k < |e| ==> e[k].at <= now)
    && LastSlot(e) + (if waiting then d else 0) <= last
    && (waiting ==> due == Some(last))
    && (calm && !waiting ==> last <= now)
  }

  predicate Paced(c: Chain, p: nat, a: nat, calm: bool)
    requires c.Shaped() && a < |c.kinds| && c.kinds[a].Alert?
  {
    Pace(Of(c.trace, a), c.last[a], c.kinds[a].ms, c.now, p == a,
         if c.timers == [] then None else Some(c.timers[0].due), calm)
  }

  lemma Sent(e: seq<Effect>, last: u32, d: u32, now: nat, calm: bool, x: Effect)
    requires Pace(e, last, d, now, false, None, calm)
    requires x.slot >= last + d && x.slot <= x.at == now && MultipleOf(x.slot, d)
    ensures Pace(e + [x], x.slot, d, now, false, None, calm)
  {
  }

  lemma Delivered(e: seq<Effect>, last: u32, d: u32, now: nat, calm: bool, x: Effect)
    requires Pace(e, last, d, now, true, Some(last), calm)
    requires x.slot == last <= x.at == now
    ensures Pace(e + [x], last, d, now, false, None, calm)
  {
  }

  /** Without wrap-around a play moves the slot to a later multiple of the delay: at most
      the clock when the alert is sent at once, the very next slot when it has to wait. */
  lemma NextSlotMeaning(before: u32, d: u32, now: u32)
    requires d > 0 && MultipleOf(before, d) && before + d < U32
    ensures MultipleOf(NextSlot(before, d, now), d)
    ensures NextSlot(before, d, now) >= before + d
    ensures SendsNow(before, d, now) ==> NextSlot(before, d, now) <= now < NextSlot(before, d, now) + d
    ensures !SendsNow(before, d, now) ==> NextSlot(before, d, now) == before + d > now
  {
    if SendsNow(before, d, now) {
      SlotAtOnce(before, d, now);
    } else {
      SlotLater(before, d, now);
    }
  }

  lemma SlotAtOnce(before: u32, d: u32, now: u32)
    requires d > 0 && MultipleOf(before, d) && SendsNow(before, d, now)
    ensures MultipleOf(NextSlot(before, d, now), d)
    ensures before + d <= NextSlot(before, d, now) <= now < NextSlot(before, d, now) + d
  {
    SlotOfDue(before, d, now, WholePeriods(now - before, d));
    MultiplesAdd(before, now - before, d);
  }

  lemma SlotOfDue(before: u32, d: u32, now: u32, w: nat)
    requires d > 0 && SendsNow(before, d, now) && w == WholePeriods(now - before, d)
    ensures NextSlot(before, d, now) == before + w
    ensures d <= w <= now - before < w + d
  {
    assert Sub32(now, before) == now - before;
    FirstPeriod(now - before, d);
  }

  lemma SlotLater(before: u32, d: u32, now: u32)
    requires d > 0 && MultipleOf(before, d) && before + d < U32 && !SendsNow(before, d, now)
    ensures MultipleOf(NextSlot(before, d, now), d)
    ensures NextSlot(before, d, now) == before + d > now
  {
    assert now > before ==> Sub32(now, before) == now - before;
  }

  /** When a deferred alert is due, for every reading of the 32-bit clock.  The timeout is due
      at the slot, so there are three cases: it waits between 1 and `d` ms, as it should; its
      slot has wrapped and it is due at once; or the last slot is still ahead of the clock, by a
      stop or by a wrap of the clock, and it waits for more than `d` ms. */
  lemma DeferredWait(before: u32, d: u32, now: u32)
    requires d > 0 && !SendsNow(before, d, now)
    ensures var slot := NextSlot(before, d, now);
            && Add32(now, Sub32(slot, now)) == slot
            && (1 <= slot - now <= d <==> Sub32(now, before) < d && (now < before || before + d < U32))
            && (slot <= now <==> before + d >= U32 && (now >= before || Sub32(now, before) >= d))
            && (slot - now > d <==> before + d < U32 && now < before)
  {
    Subtraction(now, before);
    ThereAndBack(NextSlot(before, d, now), now);
  }

  /** A play moves the slot forward by at least `d` exactly if it sends at once or the next
      slot fits 32 bits. */
  lemma SlotAdvances(before: u32, d: u32, now: u32)
    requires d > 0
    ensures NextSlot(before, d, now) >= before + d <==> SendsNow(before, d, now) || before + d < U32
  {
    if SendsNow(before, d, now) {
      SlotOfDue(before, d, now, WholePeriods(now - before, d));
    }
  }

  lemma AloneAtOnce(c: Chain, d: u32, slot: u32)
    requires Idle(c) && c.kinds == [Alert(d)] && d > 0 && !SendsNow(c.last[0], d, c.Clock())
    requires slot == NextSlot(c.last[0], d, c.Clock()) && slot <= c.Clock() && slot + 1 != c.Clock()
    ensures Apply(Apply(c, Start), Expire(0)) == c.(last := [slot], trace := c.trace + [Effect(0, slot, c.now)])
  {
    RefusedAlert(c.last[0], d, c.Clock());
    OneWaits(c, slot);
    ThereAndBack(slot, c.Clock());
    var e := Apply(c, Start);
    assert SuspendedAt(e, 0);
    OneGoesOff(e);
    assert e.running[0 := false] == [false] == c.running;
  }

  /** A run in which an alert with a delay of one hour goes out three times within 100 ms. */
  lemma ThreeAlertsAtOnce()
    ensures var c := Chain([Alert(3_600_000)], [false], [0], [], [], 0);
            Run(c, [Advance(4_294_800_000), Start, Advance(100)] + [Start, Expire(0), Start]).trace ==
            [Effect(0, 4_294_800_000, 4_294_800_000),
             Effect(0, 3_432_704, 4_294_800_100),
             Effect(0, 4_294_632_704, 4_294_800_100)]
  {
    var c := Chain([Alert(3_600_000)], [false], [0], [], [], 0);
    var steps := [Advance(4_294_800_000), Start, Advance(100)];
    RunThree(c, Advance(4_294_800_000), Start, Advance(100));
    var e := Alone(3_600_000, 4_294_800_000, [Effect(0, 4_294_800_000, 4_294_800_000)], 4_294_800_100);
    SentAlone(3_600_000, 0, [], 4_294_800_000, 4_294_800_000);
    assert Run(c, steps) == e;
    RunSplits(c, steps, [Start, Expire(0), Start]);
    TwoMoreAtOnce(e.trace);
  }

  lemma TwoMoreAtOnce(trace: seq<Effect>)
    ensures Run(Alone(3_600_000, 4_294_800_000, trace, 4_294_800_100), [Start, Expire(0), Start]).trace ==
            trace + [Effect(0, 3_432_704, 4_294_800_100)] + [Effect(0, 4_294_632_704, 4_294_800_100)]
  {
    var e := Alone(3_600_000, 4_294_800_000, trace, 4_294_800_100);
    RunThree(e, Start, Expire(0), Start);
    assert e.Clock() == 4_294_800_100 && !SendsNow(4_294_800_000, 3_600_000, e.Clock());
    AloneAtOnce(e, 3_600_000, 3_432_704);
    SentAlone(3_600_000, 3_432_704, trace + [Effect(0, 3_432_704, 4_294_800_100)], 4_294_800_100, 4_291_200_000);
  }

  /** A list of one alert at rest. */
  function Alone(d: u32, last: u32, trace: seq<Effect>, now: nat): (c: Chain)
    ensures Idle(c)
  {
    Chain([Alert(d)], [false], [last], [], trace, now)
  }

  lemma SentAlone(d: u32, last: u32, trace: seq<Effect>, now: u32, w: nat)
    requires d > 0 && now > last && w == (now - last) / d * d && w >= d
    ensures Apply(Alone(d, last, trace, now), Start) == Alone(d, last + w, trace + [Effect(0, last + w, now)], now)
  {
    var c := Alone(d, last, trace, now);
    assert c.Clock() == now;
    DividingGivesWholePeriods(now - last, d);
    assert Sub32(now, last) == now - last;
    SlotOfDue(last, d, now, w);
    OneTakesEffect(c, last + w);
  }

  lemma {:induction false} RunSplits(c: Chain, steps: seq<Step>, more: seq<Step>)
    requires c.Shaped()
    ensures Run(c, steps + more) == Run(Run(c, steps), more)
    decreases |more|
  {
    if more == [] {
      assert steps + [] == steps;
    } else {
      var front, s := more[..|more| - 1], more[|more| - 1];
      RunSplits(c, steps, front);
      RunMore(c, steps + front, s);
      assert (steps + front) + [s] == steps + more;
    }
  }

  /** A run in which an alert with a delay of 60 ms, sent 76 ms before the wrap and played again
      50 ms after it, does not go out for more than 49 days. */
  lemma WrappedAlertIsLate(ms: nat)
    requires ms <= 49 * 86_400_000
    ensures var c := Chain([Alert(60)], [false], [0], [], [], 0);
            var r := Run(c, [Advance(4_294_967_220), Start, Advance(126)] + [Start]);
            && r.trace == [Effect(0, 4_294_967_220, 4_294_967_220)] && r.timers == [Item(0, 4_294_967_280)]
            && Run(r, [Advance(ms), Expire(0)]).trace == r.trace
  {
    var c := Chain([Alert(60)], [false], [0], [], [], 0);
    var steps := [Advance(4_294_967_220), Start, Advance(126)];
    RunThree(c, Advance(4_294_967_220), Start, Advance(126));
    var e := Alone(60, 4_294_967_220, [Effect(0, 4_294_967_220, 4_294_967_220)], 4_294_967_346);
    SentAlone(60, 0, [], 4_294_967_220, 4_294_967_220);
    assert Run(c, steps) == e;
    RunMore(c, steps, Start);
    assert e.Clock() == 50 && NextSlot(4_294_967_220, 60, 50) == 4_294_967_280;
    OneWaits(e, 4_294_967_280);
    StaysPut(Apply(e, Start), ms);
  }

  lemma StaysPut(r: Chain, ms: nat)
    requires SuspendedAt(r, 0) && r.now == U32 + 50 && r.timers == [Item(0, 4_294_967_280)] && ms <= 49 * 86_400_000
    ensures Run(r, [Advance(ms), Expire(0)]).trace == r.trace
  {
    RunTwo(r, Advance(ms), Expire(0));
    NotDueYet(r.(now := r.now + ms), 50 + ms);
  }

  lemma NotDueYet(r: Chain, clock: u32)
    requires SuspendedAt(r, 0) && r.now == U32 + clock && r.timers != [] && clock < r.timers[0].due
    ensures Apply(r, Expire(0)) == r
  {
    assert r.Clock() == clock;
  }

  /** What a stretch of playing from `i` to `j` means for alert `a` alone. */
  predicate Stretched(c: Chain, i: nat, a: nat, r: Chain, j: nat)
    requires c.Shaped() && a < |c.kinds| && c.kinds[a].Alert?
  {
    && r.kinds == c.kinds && r.now == c.now && r.Shaped()
    && Of(r.trace, a) == Of(c.trace, a) + (if i <= a < j then [Effect(a, Slot(c, a), c.now)] else [])
    && r.last[a] == (if i <= a <= j then Slot(c, a) else c.last[a])
    && (a == j ==> i <= a && Suspends(c, a))
    && (a == j && Interval(c, a) != DONT_RUN ==> r.timers != [] && r.timers[0].due == Slot(c, a))
    && (a == j && Interval(c, a) == DONT_RUN ==> r.timers == [])
    && (i <= a < j ==> !Suspends(c, a))
  }

  lemma StretchFor(c: Chain, i: nat, a: nat, r: Chain, j: nat)
    requires Idle(c) && i <= |c.kinds| && a < |c.kinds| && c.kinds[a].Alert?
    requires r == Rest(c, i) && j == StopAt(c, i)
    ensures Stretched(c, i, a, r, j)
  {
    OfConcat(c.trace, Effects(c, i, j), a);
    OfEffects(c, i, j, a);
    ThereAndBack(Slot(c, a), c.Clock());
  }

  lemma ThereAndBack(slot: u32, now: u32)
    ensures Add32(now, Sub32(slot, now)) == slot
  {
  }

  lemma Waiting(e: seq<Effect>, last: u32, d: u32, now: nat, calm: bool, slot: u32, due: Option<u32>)
    requires Pace(e, last, d, now, false, None, calm)
    requires slot >= last + d && MultipleOf(slot, d) && due == Some(slot)
    ensures Pace(e, slot, d, now, true, due, calm)
  {
  }

  /** One stretch, seen from one alert: it is sent, it comes to wait, or it is not reached. */
  lemma PaceStretched(e: seq<Effect>, last: u32, d: u32, now: nat, calm: bool, x: Effect, sent: bool, waits: bool,
                      f: seq<Effect>, next: u32, due: Option<u32>)
    requires Pace(e, last, d, now, false, None, calm) && !(sent && waits)
    requires sent || waits ==> x.slot >= last + d && MultipleOf(x.slot, d)
    requires sent ==> x.slot <= x.at == now
    requires f == e + (if sent then [x] else []) && next == if sent || waits then x.slot else last
    requires waits ==> due == Some(x.slot)
    ensures Pace(f, next, d, now, waits, due, calm)
  {
    if sent {
      Sent(e, last, d, now, calm, x);
    } else {
      assert f == e;
      if waits {
        Waiting(e, last, d, now, calm, x.slot, due);
      }
    }
  }

  lemma StretchArms(c: Chain, i: nat, a: nat, r: Chain, j: nat)
    requires a < |c.kinds| && c.kinds[a].Alert? && Fits(c, a) && Stretched(c, i, a, r, j) && Fits(r, a) && a == j
    requires c.kinds[a].ms > 0 && MultipleOf(c.last[a], c.kinds[a].ms)
    ensures r.timers != [] && r.timers[0].due == Slot(c, a)
  {
    assert c.Clock() == c.now && r.last[a] == Slot(c, a);
    NextSlotMeaning(c.last[a], c.kinds[a].ms, c.Clock());
    NotRefused(c.last[a], c.kinds[a].ms, c.Clock(), Slot(c, a));
  }

  lemma StretchPaced(c: Chain, i: nat, a: nat, calm: bool, r: Chain, j: nat, e: seq<Effect>)
    requires a < |c.kinds| && c.kinds[a].Alert? && Fits(c, a) && Stretched(c, i, a, r, j) && Fits(r, a)
    requires e == Of(c.trace, a) && Pace(e, c.last[a], c.kinds[a].ms, c.now, false, None, calm)
    ensures Paced(r, j, a, calm)
  {
    SlotIsNext(c, a);
    if a == j {
      StretchArms(c, i, a, r, j);
    }
    PaceStretched(e, c.last[a], c.kinds[a].ms, c.now, calm, Effect(a, Slot(c, a), c.now),
                  i <= a < j, a == j, Of(r.trace, a), r.last[a], if r.timers == [] then None else Some(r.timers[0].due));
  }

  lemma SlotIsNext(c: Chain, a: nat)
    requires Fits(c, a) && a < |c.kinds| && c.kinds[a].Alert? && c.kinds[a].ms > 0 && MultipleOf(c.last[a], c.kinds[a].ms)
    ensures MultipleOf(Slot(c, a), c.kinds[a].ms) && Slot(c, a) >= c.last[a] + c.kinds[a].ms
    ensures !Suspends(c, a) ==> Slot(c, a) <= c.now
  {
    assert c.Clock() == c.now;
    NextSlotMeaning(c.last[a], c.kinds[a].ms, c.now);
  }

  lemma WokenFor(c: Chain, p: nat, a: nat, w: Chain)
    requires c.Shaped() && p < |c.kinds| && a < |c.kinds| && c.kinds[a].Alert? && w == Woken(c, p)
    ensures w.Shaped() && w.kinds == c.kinds && w.last == c.last && w.now == c.now
    ensures Of(w.trace, a) == Of(c.trace, a) + if p == a then [Effect(a, c.last[a], c.now)] else []
  {
    assert w.trace[..|w.trace| - 1] == c.trace;
  }

  /** The waiting alert goes out on its slot; nothing changes for the others. */
  lemma PaceWoken(e: seq<Effect>, last: u32, d: u32, now: nat, waiting: bool, due: u32, calm: bool, f: seq<Effect>, x: Effect)
    requires Pace(e, last, d, now, waiting, Some(due), calm) && due <= now
    requires x.slot == last && x.at == now && f == e + if waiting then [x] else []
    ensures Pace(f, last, d, now, false, None, calm)
  {
    if waiting {
      Delivered(e, last, d, now, calm, x);
    } else {
      assert f == e;
    }
  }

  lemma HaltPaced(c: Chain, p: nat, a: nat, calm: bool, r: Chain)
    requires c.Shaped() && a < |c.kinds| && c.kinds[a].Alert? && Paced(c, p, a, calm)
    requires r == c.(running := r.running, timers := []) && r.Shaped()
    ensures Paced(r, |c.kinds|, a, false)
  {
  }

  lemma AdvancePaced(c: Chain, p: nat, a: nat, calm: bool, r: Chain)
    requires c.Shaped() && a < |c.kinds| && c.kinds[a].Alert? && Paced(c, p, a, calm)
    requires r == c.(now := r.now) && r.now >= c.now
    ensures Paced(r, p, a, calm)
  {
  }

  lemma WokenPaced(c: Chain, p: nat, a: nat, calm: bool, w: Chain, e: seq<Effect>)
    requires c.Shaped() && p < |c.kinds| && c.timers != [] && c.timers[0].due <= c.Clock()
    requires a < |c.kinds| && c.kinds[a].Alert? && Fits(c, a) && Paced(c, p, a, calm)
    requires w == Woken(c, p) && e == Of(w.trace, a)
    ensures w.Shaped() && w.kinds == c.kinds && Fits(w, a)
    ensures Pace(e, w.last[a], w.kinds[a].ms, w.now, false, None, calm)
  {
    WokenFor(c, p, a, w);
    PaceWoken(Of(c.trace, a), c.last[a], c.kinds[a].ms, c.now, p == a, c.timers[0].due, calm,
              e, Effect(a, c.last[a], c.now));
  }

  /** One step, seen from alert `a`: either nothing but the clock or a stop, or one stretch of
      playing from `w`, the state in which the pass starts or resumes. */
  lemma StepFor(c: Chain, p: nat, s: Step, a: nat, r: Chain) returns (q: nat, w: Chain, i: nat)
    requires At(c, p) && a < |c.kinds| && c.kinds[a].Alert? && r == Apply(c, s)
    ensures At(r, q)
    ensures s.Advance? ==> q == p && r == c.(now := r.now) && r.now >= c.now
    ensures s.Halt? ==> q == |c.kinds| && r == c.(running := r.running, timers := [])
    ensures s.Start? && p == |c.kinds| ==> w == c && Stretched(w, i, a, r, q)
    ensures s.Start? && p < |c.kinds| ==> q == p && r == c
    ensures s.Expire? && r != c ==>
              && p < |c.kinds| && c.timers != [] && c.timers[0].due <= c.Clock()
              && w == Woken(c, p) && Stretched(w, i, a, r, q)
    ensures s.Expire? && r == c ==> q == p
  {
    q := StepMeaning(c, p, s);
    w, i := if s.Expire? && p < |c.kinds| then Woken(c, p) else c, if s.Expire? then p + 1 else 0;
    if (s.Start? && p == |c.kinds|) || (s.Expire? && r != c) {
      StretchFor(w, i, a, r, q);
    }
  }

  lemma StepPaced(c: Chain, p: nat, s: Step, a: nat, calm: bool, r: Chain) returns (q: nat)
    requires At(c, p) && a < |c.kinds| && c.kinds[a].Alert? && Fits(c, a) && Paced(c, p, a, calm)
    requires r == Apply(c, s) && Fits(r, a)
    ensures At(r, q)
    ensures s.Halt? ==> Paced(r, q, a, false)
    ensures !s.Halt? ==> Paced(r, q, a, calm)
  {
    var w, i;
    q, w, i := StepFor(c, p, s, a, r);
    match s
    case Advance(_) => AdvancePaced(c, p, a, calm, r);
    case Halt => HaltPaced(c, p, a, calm, r);
    case Start =>
      if p == |c.kinds| {
        StretchPaced(c, i, a, calm, r, q, Of(c.trace, a));
      }
    case Expire(_) =>
      if r != c {
        var e := Of(w.trace, a);
        WokenPaced(c, p, a, calm, w, e);
        StretchPaced(w, i, a, calm, r, q, e);
      }
  }

  lemma {:induction false} RunPaced(c: Chain, steps: seq<Step>, a: nat) returns (p: nat)
    requires Initial(c) && AllFit(c, steps, a)
    requires a < |c.kinds| && c.kinds[a].Alert? && c.kinds[a].ms > 0
    ensures At(Run(c, steps), p) && Paced(Run(c, steps), p, a, Halts(steps) == 0)
    decreases |steps|
  {
    if steps == [] {
      p := |c.kinds|;
    } else {
      var front := steps[..|steps| - 1];
      var p0 := RunPaced(c, front, a);
      p := StepPaced(Run(c, front), p0, steps[|steps| - 1], a, Halts(front) == 0, Run(c, steps));
    }
  }

  lemma NotRefused(before: u32, d: u32, now: u32, slot: u32)
    requires d > 0 && !SendsNow(before, d, now) && slot == NextSlot(before, d, now) && slot > now && slot + d < U32
    ensures Sub32(slot, now) != DONT_RUN
  {
    assert Sub32(slot, now) == slot - now;
  }

  /** For all clock readings: the timer refuses the timeout of a deferred alert exactly when
      the clock is one millisecond past the next slot modulo 2^32. */
  lemma RefusedAlert(before: u32, d: u32, now: u32)
    requires d > 0 && !SendsNow(before, d, now)
    ensures Sub32(NextSlot(before, d, now), now) == DONT_RUN <==> now == Add32(NextSlot(before, d, now), 1)
  {
  }

  /** Below 2^32 ms that never happens: over every run, an alert that the pass waits on has
      exactly one pending timeout, and it is due at the slot of the alert. */
  lemma WaitingAlertHasItsTimeout(c: Chain, steps: seq<Step>, a: nat)
    requires Initial(c) && AllFit(c, steps, a)
    requires a < |c.kinds| && c.kinds[a].Alert?
    ensures var r := Run(c, steps); r.running[a] <==> r.timers == [Item(a, r.last[a])]
  {
    var r := Run(c, steps);
    if c.kinds[a].ms > 0 {
      var p := RunPaced(c, steps, a);
      OwnTimeout(r, p, a);
    } else {
      var p := AtMostOneRunning(c, steps);
    }
  }

  lemma OwnTimeout(r: Chain, p: nat, a: nat)
    requires At(r, p) && a < |r.kinds| && r.kinds[a].Alert?
    requires p == a ==> r.timers != [] && r.timers[0].due == r.last[a]
    ensures r.running[a] <==> r.timers == [Item(a, r.last[a])]
  {
  }

  lemma {:induction false} SlotsGrow(e: seq<Effect>, d: nat, k: nat)
    requires Spaced(e, d) && k < |e|
    ensures e[k].slot >= (k + 1) * d
    decreases k
  {
    if k > 0 {
      SlotsGrow(e, d, k - 1);
      assert (k + 1) * d == k * d + d;
    }
  }

  lemma SpacedTakesTime(e: seq<Effect>, d: nat, now: nat)
    requires Spaced(e, d) && forall k :: 0 <= k < |e| ==> e[k].at <= now
    ensures forall k :: 0 <= k < |e| ==> (k + 1) * d <= e[k].at
    ensures |e| * d <= now
  {
    forall k | 0 <= k < |e|
      ensures (k + 1) * d <= e[k].at
    {
      SlotsGrow(e, d, k);
    }
    if e != [] {
      SlotsGrow(e, d, |e| - 1);
    }
  }

  /** Whatever triggers, stops and clock steps occur: every alert goes out at or after its
      own slot, slots are multiples of the delay at least one delay apart, and so `n` alerts
      with delay `d` are never out before time `n * d`. */
  lemma AlertsAreRateLimited(c: Chain, steps: seq<Step>, a: nat)
    requires Initial(c) && AllFit(c, steps, a)
    requires a < |c.kinds| && c.kinds[a].Alert? && c.kinds[a].ms > 0
    ensures var e := Of(Run(c, steps).trace, a);
            && Spaced(e, c.kinds[a].ms)
            && MultipleOf(Run(c, steps).last[a], c.kinds[a].ms)
            && (forall k :: 0 <= k < |e| ==> (k + 1) * c.kinds[a].ms <= e[k].at <= Run(c, steps).now)
            && |e| * c.kinds[a].ms <= Run(c, steps).now
  {
    var p := RunPaced(c, steps, a);
    SpacedTakesTime(Of(Run(c, steps).trace, a), c.kinds[a].ms, Run(c, steps).now);
  }

  /** In a run that is never stopped, an alert that is not waiting and cannot go out at once
      would wait at least one and at most `d` milliseconds, whatever else its list waits for. */
  lemma DeferredAlertsWaitAtMostOneDelay(c: Chain, steps: seq<Step>, a: nat)
    requires Initial(c) && AllFit(c, steps, a) && Halts(steps) == 0
    requires a < |c.kinds| && c.kinds[a].Alert? && c.kinds[a].ms > 0
    ensures var r := Run(c, steps);
            !r.running[a] && Suspends(r, a) ==> 1 <= Interval(r, a) <= c.kinds[a].ms
  {
    var p := RunPaced(c, steps, a);
    RestingWait(Run(c, steps), p, a);
  }

  lemma RestingWait(c: Chain, p: nat, a: nat)
    requires At(c, p) && Fits(c, a) && a < |c.kinds| && c.kinds[a].Alert? && Paced(c, p, a, true)
    ensures !c.running[a] && Suspends(c, a) ==> 1 <= Interval(c, a) <= c.kinds[a].ms
  {
    if !c.running[a] && Suspends(c, a) {
      assert c.Clock() == c.now;
      CalmWait(c.last[a], c.kinds[a].ms, c.Clock());
    }
  }

  /** And every alert that does come to wait, at the head of its list or behind any other
      action, is due between one and `d` milliseconds later. */
  lemma EveryDeferralIsShort(c: Chain, steps: seq<Step>, before: Chain, s: Step, r: Chain, a: nat)
    requires Initial(c) && AllFit(c, steps, a) && Halts(steps) == 0 && before == Run(c, steps)
    requires a < |c.kinds| && c.kinds[a].Alert? && c.kinds[a].ms > 0
    requires r == Apply(before, s) && Fits(r, a) && !before.running[a] && r.running[a]
    ensures r.timers == [Item(a, r.last[a])] && 1 <= r.last[a] - r.now <= c.kinds[a].ms
  {
    var p := RunPaced(c, steps, a);
    var q, w, i := StepFor(before, p, s, a, r);
    RestingWait(before, p, a);
    Deferral(before, w, i, a, r, q);
  }

  lemma Deferral(c: Chain, w: Chain, i: nat, a: nat, r: Chain, q: nat)
    requires At(r, q) && r.kinds == c.kinds && a < |c.kinds| && c.kinds[a].Alert? && c.kinds[a].ms > 0 && r.running[a]
    requires w.Shaped() && w.kinds == c.kinds && w.last == c.last && w.now == c.now && c.Shaped()
    requires Stretched(w, i, a, r, q) && Fits(c, a) && Fits(r, a) && MultipleOf(c.last[a], c.kinds[a].ms)
    requires Suspends(c, a) ==> 1 <= Interval(c, a) <= c.kinds[a].ms
    ensures r.timers == [Item(a, r.last[a])] && 1 <= r.last[a] - r.now <= c.kinds[a].ms
  {
    assert q == a && c.Clock() == c.now;
    assert Suspends(c, a) && Slot(w, a) == Slot(c, a);
    NextSlotMeaning(c.last[a], c.kinds[a].ms, c.Clock());
    NotRefused(c.last[a], c.kinds[a].ms, c.Clock(), Slot(c, a));
  }

  lemma CalmWait(last: u32, d: u32, now: u32)
    requires d > 0 && last <= now && last + d < U32 && !SendsNow(last, d, now)
    ensures 1 <= Sub32(NextSlot(last, d, now), now) <= d
  {
    assert Sub32(now, last) < d;
  }
}
