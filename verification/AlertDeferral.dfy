/** What becomes of an alert that has to wait: how far stops can put it off, when it goes out at
    once instead, and when it blocks its list. */
module AlertDeferral {
  import opened Basics
  import opened ActionChain
  import opened ChainMeaning
  import opened ChainRuns
  import opened AlertRate

  // ---------------------------------------------------------------- stops

  /** The last slot of an alert is ahead of the clock by no more than `backlog`, and by one delay
      more while the pass waits on it. */
  predicate Ahead(last: u32, now: nat, d: u32, backlog: nat, waiting: bool)
  {
    last <= now + backlog + if waiting then d else 0
  }

  lemma StretchAhead(w: Chain, i: nat, a: nat, r: Chain, q: nat, backlog: nat)
    requires Fits(w, a) && w.kinds[a].ms > 0 && MultipleOf(w.last[a], w.kinds[a].ms) && Stretched(w, i, a, r, q)
    requires Ahead(w.last[a], w.now, w.kinds[a].ms, backlog, false)
    ensures Ahead(r.last[a], r.now, w.kinds[a].ms, backlog, q == a)
  {
    var slot := Slot(w, a);
    assert w.Clock() == w.now;
    NextSlotMeaning(w.last[a], w.kinds[a].ms, w.now);
    assert Suspends(w, a) ==> slot == w.last[a] + w.kinds[a].ms;
    assert !Suspends(w, a) ==> slot <= w.now;
  }

  lemma WokenAhead(c: Chain, p: nat, a: nat, calm: bool, w: Chain, backlog: nat)
    requires c.Shaped() && p < |c.kinds| && c.timers != [] && c.timers[0].due <= c.Clock()
    requires Fits(c, a) && Paced(c, p, a, calm) && w == Woken(c, p)
    requires Ahead(c.last[a], c.now, c.kinds[a].ms, backlog, p == a)
    ensures Fits(w, a) && w.kinds == c.kinds && w.last == c.last && Ahead(w.last[a], w.now, c.kinds[a].ms, backlog, false)
  {
    assert c.Clock() == c.now;
  }

  lemma StepAhead(c: Chain, p: nat, s: Step, a: nat, calm: bool, r: Chain, backlog: nat) returns (q: nat)
    requires At(c, p) && Fits(c, a) && Paced(c, p, a, calm) && r == Apply(c, s)
    requires Ahead(c.last[a], c.now, c.kinds[a].ms, backlog, p == a)
    ensures At(r, q)
    ensures Ahead(r.last[a], r.now, c.kinds[a].ms, if s.Halt? then backlog + c.kinds[a].ms else backlog, q == a)
  {
    var w, i;
    q, w, i := StepFor(c, p, s, a, r);
    if s.Start? && p == |c.kinds| {
      StretchAhead(w, i, a, r, q, backlog);
    } else if s.Expire? && r != c {
      WokenAhead(c, p, a, calm, w, backlog);
      StretchAhead(w, i, a, r, q, backlog);
    }
  }

  /** Each stop adds one delay. */
  function Backlog(steps: seq<Step>, d: nat): (b: nat)
    ensures b == Halts(steps) * d
  {
    if steps == [] then 0
    else
      var front := Backlog(steps[..|steps| - 1], d);
      assert (Halts(steps[..|steps| - 1]) + 1) * d == Halts(steps[..|steps| - 1]) * d + d;
      if steps[|steps| - 1].Halt? then front + d else front
  }

  lemma {:induction false} RunAhead(c: Chain, steps: seq<Step>, a: nat) returns (p: nat)
    requires Initial(c) && AllFit(c, steps, a) && c.kinds[a].ms > 0
    ensures At(Run(c, steps), p)
    ensures Ahead(Run(c, steps).last[a], Run(c, steps).now, c.kinds[a].ms, Backlog(steps, c.kinds[a].ms), p == a)
    decreases |steps|
  {
    if steps == [] {
      p := |c.kinds|;
    } else {
      var front := steps[..|steps| - 1];
      var p0 := RunAhead(c, front, a);
      var p1 := RunPaced(c, front, a);
      SamePosition(Run(c, front), p0, p1);
      p := StepAhead(Run(c, front), p0, steps[|steps| - 1], a, Halts(front) == 0, Run(c, steps), Backlog(front, c.kinds[a].ms));
    }
  }

  lemma SamePosition(c: Chain, p: nat, q: nat)
    requires At(c, p) && At(c, q)
    ensures p == q
  {
    PositionIs(c, p, 0);
    PositionIs(c, q, 0);
  }

  /** Over every run below 2^32 ms, stops included: an alert that the pass waits on has exactly
      one timeout, due at its slot, and that is at most one delay later, and one more for each
      stop so far. */
  lemma EachStopAddsOneDelay(c: Chain, steps: seq<Step>, a: nat)
    requires Initial(c) && AllFit(c, steps, a) && c.kinds[a].ms > 0
    ensures var r := Run(c, steps);
            r.running[a] ==> r.timers == [Item(a, r.last[a])] && r.last[a] <= r.now + (Halts(steps) + 1) * c.kinds[a].ms
  {
    WaitingAlertHasItsTimeout(c, steps, a);
    var p := RunAhead(c, steps, a);
    AheadWhileRunning(Run(c, steps), p, a, Halts(steps), Backlog(steps, c.kinds[a].ms));
  }

  lemma AheadWhileRunning(r: Chain, p: nat, a: nat, halts: nat, backlog: nat)
    requires At(r, p) && a < |r.kinds| && r.kinds[a].Alert? && backlog == halts * r.kinds[a].ms
    requires Ahead(r.last[a], r.now, r.kinds[a].ms, backlog, p == a)
    ensures r.running[a] ==> r.last[a] <= r.now + (halts + 1) * r.kinds[a].ms
  {
    assert (halts + 1) * r.kinds[a].ms == backlog + r.kinds[a].ms;
  }

  /** `n` times a trigger and a stop. */
  function StartAndHalt(n: nat): (r: seq<Step>)
    ensures Halts(r) == n
  {
    if n == 0 then []
    else
      var r := StartAndHalt(n - 1) + [Start];
      assert r[..|r| - 1] == StartAndHalt(n - 1) && (r + [Halt])[..|r|] == r;
      r + [Halt]
  }

  /** The bound is reached: after `n` stops an alert that is played at time 0 waits for `n + 1`
      delays. */
  lemma StoppedAlertsArePutOff(d: u32, n: nat)
    requires d > 0 && (n + 1) * d < DONT_RUN
    ensures var c := Run(Alone(d, 0, [], 0), StartAndHalt(n));
            c == Alone(d, n * d, [], 0) && Apply(c, Start).timers == [Item(0, (n + 1) * d)]
  {
    assert (n + 1) * d == n * d + d;
    PutOffTo(d, n);
    DeferredAndStopped(d, n * d, 0);
  }

  lemma {:induction false} PutOffTo(d: u32, n: nat)
    requires d > 0 && n * d < DONT_RUN
    ensures Run(Alone(d, 0, [], 0), StartAndHalt(n)) == Alone(d, n * d, [], 0)
    decreases n
  {
    if n > 0 {
      assert n * d == (n - 1) * d + d;
      PutOffTo(d, n - 1);
      PutOffOnce(d, (n - 1) * d, StartAndHalt(n - 1));
    }
  }

  lemma PutOffOnce(d: u32, slot: u32, before: seq<Step>)
    requires d > 0 && slot + d < DONT_RUN && Run(Alone(d, 0, [], 0), before) == Alone(d, slot, [], 0)
    ensures Run(Alone(d, 0, [], 0), before + [Start] + [Halt]) == Alone(d, slot + d, [], 0)
  {
    var c := Alone(d, 0, [], 0);
    RunMore(c, before, Start);
    RunMore(c, before + [Start], Halt);
    DeferredAndStopped(d, slot, 0);
  }

  lemma DeferredAndStopped(d: u32, last: u32, now: u32)
    requires d > 0 && last >= now && last + d - now < DONT_RUN && last + d < U32
    ensures var c := Alone(d, last, [], now);
            Apply(c, Start).timers == [Item(0, last + d)] && Apply(Apply(c, Start), Halt) == Alone(d, last + d, [], now)
  {
    var c := Alone(d, last, [], now);
    assert c.Clock() == now && !SendsNow(last, d, now) && NextSlot(last, d, now) == last + d;
    assert Sub32(last + d, now) == last + d - now;
    OneWaits(c, last + d);
    ThereAndBack(last + d, now);
    StopsAlone(Apply(c, Start), d, last + d, now);
  }

  lemma StopsAlone(e: Chain, d: u32, last: u32, now: u32)
    requires e == Chain([Alert(d)], [true], [last], [Item(0, last)], [], now)
    ensures Apply(e, Halt) == Alone(d, last, [], now)
  {
    StopClears(e, 0, 0);
    assert StopFrom(e, 0).running == [false];
  }

  /** No wrap is needed to exceed one delay: 60 ms, played at 50, stopped and played again. */
  lemma OneStopIsEnough()
    ensures var c := Alone(60, 0, [], 0);
            var r := Run(c, [Advance(50), Start, Halt] + [Start]);
            r.now == 50 && r.timers == [Item(0, 120)]
  {
    var c := Alone(60, 0, [], 0);
    RunThree(c, Advance(50), Start, Halt);
    RunMore(c, [Advance(50), Start, Halt], Start);
    var d := Alone(60, 0, [], 50);
    assert d.Clock() == 50 && !SendsNow(0, 60, 50) && NextSlot(0, 60, 50) == 60 && Sub32(60, 50) == 10;
    OneWaits(d, 60);
    StopsAlone(Apply(d, Start), 60, 60, 50);
    DeferredAndStopped(60, 60, 50);
  }

  // ---------------------------------------------------------------- going out at once, or never

  /** What a step that makes an alert wait leaves behind, for all clock readings. */
  lemma AlertIsArmed(c: Chain, p: nat, s: Step, a: nat, r: Chain)
    requires At(c, p) && a < |c.kinds| && c.kinds[a].Alert? && r == Apply(c, s)
    requires !c.running[a] && r.running[a]
    ensures SuspendedAt(r, a) && r.now == c.now && c.kinds[a].ms > 0 && !SendsNow(c.last[a], c.kinds[a].ms, c.Clock())
    ensures r.last[a] == NextSlot(c.last[a], c.kinds[a].ms, c.Clock())
    ensures r.timers == [] <==> c.Clock() == Add32(r.last[a], 1)
    ensures r.timers != [] ==> r.timers[0].due == r.last[a]
  {
    var q, w, i := StepFor(c, p, s, a, r);
    assert q == a;
    Armed32(c, w, i, a, r);
  }

  lemma Armed32(c: Chain, w: Chain, i: nat, a: nat, r: Chain)
    requires c.Shaped() && w.Shaped() && w.kinds == c.kinds && w.last == c.last && w.now == c.now
    requires a < |c.kinds| && c.kinds[a].Alert? && Stretched(w, i, a, r, a)
    ensures c.kinds[a].ms > 0 && !SendsNow(c.last[a], c.kinds[a].ms, c.Clock())
    ensures r.now == c.now && r.last[a] == NextSlot(c.last[a], c.kinds[a].ms, c.Clock())
    ensures r.timers == [] <==> c.Clock() == Add32(r.last[a], 1)
    ensures r.timers != [] ==> r.timers[0].due == r.last[a]
  {
    RefusedAlert(c.last[a], c.kinds[a].ms, c.Clock());
  }

  /** For all clock readings and at any place in its list: an alert that comes to wait goes out
      in the same millisecond, however soon after the last one, exactly if its slot wraps and
      is not ahead of the clock then, and the timer does not refuse it. */
  lemma LimiterIsOffWhenTheSlotWraps(c: Chain, p: nat, s: Step, a: nat, r: Chain)
    requires At(c, p) && a < |c.kinds| && c.kinds[a].Alert? && r == Apply(c, s)
    requires !c.running[a] && r.running[a]
    ensures r.trace + [Effect(a, r.last[a], r.now)] <= Apply(r, Expire(0)).trace <==>
            var (before, d, now) := (c.last[a], c.kinds[a].ms, c.Clock());
            before + d >= U32 && (now >= before || Sub32(now, before) >= d) && now != Add32(r.last[a], 1)
  {
    AlertIsArmed(c, p, s, a, r);
    DeferredWait(c.last[a], c.kinds[a].ms, c.Clock());
    GoesOut(r, a);
  }

  lemma GoesOut(r: Chain, a: nat)
    requires SuspendedAt(r, a) && r.kinds[a].Alert?
    ensures r.trace + [Effect(a, r.last[a], r.now)] <= Apply(r, Expire(0)).trace <==>
            r.timers != [] && r.timers[0].due <= r.Clock()
  {
    if r.timers != [] {
      GoesOffWhenDue(r, a);
      if r.timers[0].due <= r.Clock() {
        FireMeaning(r, a);
        assert Woken(r, a).trace == r.trace + [Effect(a, r.last[a], r.now)];
      }
    }
  }

  /** For all clock readings: an alert that comes to wait blocks its list for ever, unless it is
      stopped, exactly if the clock is one millisecond past its slot modulo 2^32. */
  lemma AlertBlocksIffRefused(c: Chain, p: nat, s: Step, a: nat, r: Chain)
    requires At(c, p) && a < |c.kinds| && c.kinds[a].Alert? && r == Apply(c, s)
    requires !c.running[a] && r.running[a]
    ensures Blocked(r) <==> c.Clock() == Add32(r.last[a], 1)
  {
    AlertIsArmed(c, p, s, a, r);
    PassBlocksIffRefused(r, a);
  }

  /** Such a list exists: an alert with a delay of 0xFFFFFFFF ms that is played at time 0. */
  lemma EndlessAlertIsReached()
    ensures var r := Run(Alone(0xFFFF_FFFF, 0, [], 0), [] + [Start]);
            r.running == [true] && Blocked(r)
  {
    var c := Alone(0xFFFF_FFFF, 0, [], 0);
    RunMore(c, [], Start);
    var q := StepMeaning(c, 1, Start);
    assert !SendsNow(0, 0xFFFF_FFFF, 0) && StopAt(c, 0) == 0;
    AlertBlocksIffRefused(c, 1, Start, 0, Apply(c, Start));
  }
}
