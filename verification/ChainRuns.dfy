/** Every run of triggers, expiring timeouts, stops and clock steps over one action list. */
module ChainRuns {
  import opened Basics
  import opened ActionChain
  import opened ChainMeaning

  /** `Expire(k)` is a no-op unless entry `k` is pending and due. */
  datatype Step = Advance(ms: nat) | Start | Expire(k: nat) | Halt

  function Apply(c: Chain, s: Step): (r: Chain)
    requires c.Shaped()
    ensures r.Shaped() && r.kinds == c.kinds && r.now >= c.now
  {
    match s
    case Advance(ms) => c.(now := c.now + ms)
    case Start => Trigger(c)
    case Expire(k) =>
      if k < |c.timers| && c.timers[k].action < |c.kinds| && c.timers[k].due <= c.Clock() then Fire(c, k) else c
    case Halt => StopFrom(c, 0)
  }

  function Run(c: Chain, steps: seq<Step>): (r: Chain)
    requires c.Shaped()
    ensures r.Shaped() && r.kinds == c.kinds && r.now >= c.now
  {
    if steps == [] then c else Apply(Run(c, steps[..|steps| - 1]), steps[|steps| - 1])
  }

  lemma RunMore(c: Chain, steps: seq<Step>, s: Step)
    requires c.Shaped()
    ensures Run(c, steps + [s]) == Apply(Run(c, steps), s)
  {
    assert (steps + [s])[..|steps|] == steps;
  }

  /** A list that has just been built: nothing played, every slot at zero. */
  predicate Initial(c: Chain)
  {
    Idle(c) && c.trace == [] && forall a :: 0 <= a < |c.last| ==> c.last[a] == 0
  }

  // ---------------------------------------------------------------- the control state

  /** The first running action, or the length of the list. */
  function Position(c: Chain, i: nat := 0): (p: nat)
    requires c.Shaped() && i <= |c.kinds|
    ensures i <= p <= |c.kinds|
    ensures p < |c.kinds| ==> c.running[p]
    ensures forall j :: i <= j < p ==> !c.running[j]
    decreases |c.kinds| - i
  {
    if i == |c.kinds| || c.running[i] then i else Position(c, i + 1)
  }

  /** The pass is suspended at `p`: only `p` is running, and it holds the one pending
      timeout; none is pending exactly when the timer refused the interval. */
  predicate SuspendedAt(c: Chain, p: nat)
  {
    && c.Shaped() && p < |c.kinds|
    && (forall j :: 0 <= j < |c.running| ==> (c.running[j] <==> j == p))
    && !c.kinds[p].Lambda? && c.kinds[p] != Alert(0)
    && |c.timers| <= 1 && (c.timers != [] ==> c.timers[0].action == p)
    && (c.kinds[p].Delay? ==> (c.timers == [] <==> c.kinds[p].ms == DONT_RUN))
  }

  predicate At(c: Chain, p: nat)
  {
    c.Shaped() && p <= |c.kinds| && if p == |c.kinds| then Idle(c) else SuspendedAt(c, p)
  }

  lemma {:induction false} RunningMeans(c: Chain, i: nat)
    requires c.Shaped() && i <= |c.kinds|
    ensures RunningFrom(c, i) <==> exists j :: i <= j < |c.kinds| && c.running[j]
    decreases |c.kinds| - i
  {
    if i < |c.kinds| {
      RunningMeans(c, i + 1);
    }
  }

  lemma RestIsAt(c: Chain, i: nat)
    requires Idle(c) && i <= |c.kinds|
    ensures At(Rest(c, i), StopAt(c, i))
  {
  }

  /** The chain the moment a timeout of `p` has taken effect, before it hands over. */
  function Woken(c: Chain, p: nat): (d: Chain)
    requires c.Shaped() && p < |c.kinds|
    ensures d.Shaped() && d.kinds == c.kinds && d.now == c.now
  {
    Emit(c, p, if c.kinds[p].Alert? then c.last[p] else c.Clock())
      .(running := c.running[p := false], timers := [])
  }

  /** A due timeout wakes its action and the pass runs on to the next suspension. */
  lemma FireMeaning(c: Chain, p: nat)
    requires SuspendedAt(c, p) && c.timers != []
    ensures Idle(Woken(c, p))
    ensures Fire(c, 0) == Rest(Woken(c, p), p + 1)
  {
    var w := Woken(c, p);
    var e := w.(timers := c.timers);
    PlayRunsToFirstSuspension(e, p + 1);
    assert Callback(c, p) == Rest(e, p + 1);
    var j := StopAt(e, p + 1);
    SameStopTimers(w, e, p + 1);
    assert NewLast(e, p + 1, j) == NewLast(w, p + 1, j);
    assert forall k :: p < k < |c.kinds| ==> Slot(e, k) == Slot(w, k);
    assert Effects(e, p + 1, j) == Effects(w, p + 1, j);
    assert c.timers == [c.timers[0]];
    var t := c.timers + Armed(e, j);
    assert t[..0] + t[1..] == Armed(e, j) == [] + Armed(w, j);
  }

  lemma {:induction false} SameStopTimers(c: Chain, d: Chain, i: nat)
    requires c.Shaped() && i <= |c.kinds| && d == c.(timers := d.timers)
    ensures StopAt(d, i) == StopAt(c, i)
    decreases |c.kinds| - i
  {
    if i < |c.kinds| {
      assert Suspends(d, i) == Suspends(c, i);
      if !Suspends(c, i) {
        SameStopTimers(c, d, i + 1);
      }
    }
  }

  lemma {:induction false} StopClears(c: Chain, i: nat, p: nat)
    requires c.Shaped() && i <= |c.kinds|
    requires forall j :: 0 <= j < i ==> !c.running[j]
    requires c.timers == [] || (|c.timers| == 1 && i <= p < |c.kinds| && c.timers[0].action == p && !c.kinds[p].Lambda?)
    ensures Idle(StopFrom(c, i))
    ensures StopFrom(c, i) == c.(running := StopFrom(c, i).running, timers := [])
    decreases |c.kinds| - i
  {
    if i < |c.kinds| {
      assert Without(c.timers, i) == if c.timers == [] || p == i then [] else c.timers;
      var d := if c.kinds[i].Lambda? then c else c.(timers := Without(c.timers, i));
      StopClears(Flag(d, i, false), i + 1, p);
    }
  }

  /** Where one step leads, in terms of `Rest` alone. */
  lemma StepMeaning(c: Chain, p: nat, s: Step) returns (q: nat)
    requires At(c, p)
    ensures At(Apply(c, s), q)
    ensures s.Advance? ==> q == p && Apply(c, s) == c.(now := c.now + s.ms)
    ensures s.Halt? ==> q == |c.kinds| && Apply(c, s) == c.(running := Apply(c, s).running, timers := [])
    ensures s.Start? && p == |c.kinds| ==> q == StopAt(c, 0) && Apply(c, s) == Rest(c, 0)
    ensures s.Start? && p < |c.kinds| ==> q == p && Apply(c, s) == c
    ensures s.Expire? && Apply(c, s) != c ==>
              && p < |c.kinds| && c.timers != [] && c.timers[0].due <= c.Clock() && Idle(Woken(c, p))
              && q == StopAt(Woken(c, p), p + 1) && Apply(c, s) == Rest(Woken(c, p), p + 1)
    ensures s.Expire? && Apply(c, s) == c ==> At(c, p) && q == p
  {
    match s
    case Advance(_) => q := p;
    case Halt =>
      StopClears(c, 0, p);
      q := |c.kinds|;
    case Start =>
      RunningMeans(c, 0);
      if p == |c.kinds| {
        PlayRunsToFirstSuspension(c, 0);
        RestIsAt(c, 0);
        q := StopAt(c, 0);
      } else {
        assert c.running[p];
        q := p;
      }
    case Expire(k) =>
      q := p;
      if Apply(c, s) != c {
        FireMeaning(c, p);
        RestIsAt(Woken(c, p), p + 1);
        q := StopAt(Woken(c, p), p + 1);
      }
  }

  lemma {:induction false} PositionIs(c: Chain, p: nat, i: nat)
    requires At(c, p) && i <= p
    ensures Position(c, i) == p
    decreases p - i
  {
    if i < p {
      assert !c.running[i];
      PositionIs(c, p, i + 1);
    }
  }

  /** In every reachable state at most one action is running, and a pass that is under way
      waits on exactly one timeout of the running action. */
  lemma {:induction false} AtMostOneRunning(c: Chain, steps: seq<Step>) returns (p: nat)
    requires Initial(c)
    ensures At(Run(c, steps), p)
    ensures p == Position(Run(c, steps))
    decreases |steps|
  {
    if steps == [] {
      p := |c.kinds|;
    } else {
      var p0 := AtMostOneRunning(c, steps[..|steps| - 1]);
      p := StepMeaning(Run(c, steps[..|steps| - 1]), p0, steps[|steps| - 1]);
    }
    PositionIs(Run(c, steps), p, 0);
  }

  predicate NoHalt(steps: seq<Step>)
  {
    forall s :: s in steps ==> !s.Halt?
  }

  /** A pass whose timeout the timer has refused holds the list busy, with no further effect
      and no further pass, until somebody stops it. */
  lemma {:induction false} RefusedTimeoutBlocks(c: Chain, p: nat, steps: seq<Step>)
    requires SuspendedAt(c, p) && c.timers == [] && NoHalt(steps)
    ensures SuspendedAt(Run(c, steps), p) && Run(c, steps).timers == [] && Run(c, steps).trace == c.trace
    decreases |steps|
  {
    if steps != [] {
      var front := steps[..|steps| - 1];
      assert forall s :: s in front ==> s in steps;
      RefusedTimeoutBlocks(c, p, front);
      assert steps[|steps| - 1] in steps;
      var q := StepMeaning(Run(c, front), p, steps[|steps| - 1]);
    }
  }

  /** The timeout of a suspended pass goes off exactly when it is due. */
  lemma GoesOffWhenDue(c: Chain, p: nat)
    requires SuspendedAt(c, p) && c.timers != []
    ensures Apply(c, Expire(0)).trace != c.trace <==> c.timers[0].due <= c.Clock()
    ensures Apply(c, Expire(0)) != c <==> c.timers[0].due <= c.Clock()
  {
    if c.timers[0].due <= c.Clock() {
      FireMeaning(c, p);
      assert |Rest(Woken(c, p), p + 1).trace| > |c.trace|;
    }
  }

  lemma CanGoOff(c: Chain, p: nat) returns (steps: seq<Step>)
    requires SuspendedAt(c, p) && c.timers != []
    ensures NoHalt(steps) && Run(c, steps).trace != c.trace
  {
    var wait := Sub32(c.timers[0].due, c.Clock());
    steps := [Advance(wait), Expire(0)];
    RunTwo(c, Advance(wait), Expire(0));
    ThenDue(c.now, c.timers[0].due);
    GoesOffWhenDue(c.(now := c.now + wait), p);
  }

  lemma RunTwo(c: Chain, r: Step, s: Step)
    requires c.Shaped()
    ensures Run(c, [r, s]) == Apply(Apply(c, r), s)
  {
    RunMore(c, [], r);
    RunMore(c, [r], s);
    assert [] + [r] == [r] && [r] + [s] == [r, s];
  }

  /** A suspended pass blocks its list for ever, unless it is stopped, exactly if the timer has
      refused its timeout; any other one can go off. */
  lemma PassBlocksIffRefused(c: Chain, p: nat)
    requires SuspendedAt(c, p)
    ensures Blocked(c) <==> c.timers == []
  {
    if c.timers == [] {
      forall steps | NoHalt(steps)
        ensures Run(c, steps).trace == c.trace
      {
        RefusedTimeoutBlocks(c, p, steps);
      }
    } else {
      var steps := CanGoOff(c, p);
    }
  }

  /** No run without a stop has any further effect. */
  ghost predicate Blocked(c: Chain)
    requires c.Shaped()
  {
    forall steps :: NoHalt(steps) ==> Run(c, steps).trace == c.trace
  }

  /** For a delay that is so exactly if its length is 0xFFFFFFFF. */
  lemma DelayBlocksIffRefused(c: Chain, p: nat)
    requires SuspendedAt(c, p) && c.kinds[p].Delay?
    ensures Blocked(c) <==> c.kinds[p].ms == DONT_RUN
  {
    PassBlocksIffRefused(c, p);
  }

  lemma ThenDue(now: nat, due: u32)
    ensures (now + Sub32(due, now % U32)) % U32 == due
  {
    var q, t := now / U32, now % U32;
    assert now == q * U32 + t;
    Subtraction(due, t);
    if due >= t {
      Remainder(q, due);
    } else {
      assert q * U32 + U32 == (q + 1) * U32;
      Remainder(q + 1, due);
    }
  }

  /** Such a list exists, and one trigger is enough: whenever the first action that has to wait
      is a delay of 0xFFFFFFFF ms. */
  lemma EndlessDelayIsReached(c: Chain)
    requires Initial(c) && StopAt(c, 0) < |c.kinds| && c.kinds[StopAt(c, 0)] == Delay(DONT_RUN)
    ensures SuspendedAt(Run(c, [Start]), StopAt(c, 0)) && Run(c, [Start]).timers == []
  {
    assert [] + [Start] == [Start];
    RunMore(c, [], Start);
    var q := StepMeaning(c, |c.kinds|, Start);
  }

  // ---------------------------------------------------------------- how long a delay lasts

  /** `until` is the moment at which a timeout that is due at `due` goes off, if the clock does
      not wrap between `now` and then. */
  predicate ThisEpoch(now: nat, due: u32, until: nat)
  {
    until % U32 == due && until / U32 == now / U32
  }

  lemma NotYet(now: nat, due: u32, until: nat, later: nat)
    requires ThisEpoch(now, due, until) && now <= later < until
    ensures later % U32 < due && ThisEpoch(later, due, until)
  {
    assert until == until / U32 * U32 + due && now == now / U32 * U32 + now % U32;
    assert later / U32 == now / U32;
  }

  lemma NothingYet(c: Chain, p: nat, s: Step, r: Chain)
    requires SuspendedAt(c, p) && c.timers != [] && !s.Halt? && r == Apply(c, s) && c.Clock() < c.timers[0].due
    ensures SuspendedAt(r, p) && r.timers == c.timers && r.trace == c.trace
  {
    var q := StepMeaning(c, p, s);
  }

  /** Without a stop nothing happens before the timeout is due. */
  lemma {:induction false} NothingBeforeDue(c: Chain, p: nat, until: nat, more: seq<Step>)
    requires SuspendedAt(c, p) && c.timers != [] && NoHalt(more)
    requires ThisEpoch(c.now, c.timers[0].due, until) && Run(c, more).now < until
    ensures SuspendedAt(Run(c, more), p) && Run(c, more).timers == c.timers && Run(c, more).trace == c.trace
    decreases |more|
  {
    if more != [] {
      var front, s := more[..|more| - 1], more[|more| - 1];
      assert s in more && forall t :: t in front ==> t in more;
      NothingBeforeDue(c, p, until, front);
      NotYet(c.now, c.timers[0].due, until, Run(c, front).now);
      NothingYet(Run(c, front), p, s, Run(c, more));
    }
  }

  /** What a delay that has just come to run asks for. */
  lemma DelayIsArmed(c: Chain, p: nat, s: Step, a: nat, d: Chain)
    requires At(c, p) && a < |c.kinds| && c.kinds[a].Delay? && d == Apply(c, s)
    requires !c.running[a] && d.running[a]
    ensures SuspendedAt(d, a) && d.now == c.now
    ensures c.kinds[a].ms != DONT_RUN ==> d.timers == [Item(a, Add32(c.Clock(), c.kinds[a].ms))]
  {
    var q := StepMeaning(c, p, s);
  }

  /** From `d` on, no run without a stop makes progress before `until`. */
  ghost predicate LastsUntil(d: Chain, a: nat, until: nat)
    requires d.Shaped() && a < |d.kinds|
  {
    forall more :: NoHalt(more) && Run(d, more).now < until ==> Run(d, more).running[a] && Run(d, more).trace == d.trace
  }

  /** Over every run, at whatever time: a delay that comes to run lasts at least its whole time,
      unless it is stopped, exactly if the 32-bit clock does not wrap before the delay is over
      (or the timer refuses it, and then it never ends). */
  lemma DelaysLastTheirTime(c: Chain, steps: seq<Step>, before: Chain, s: Step, d: Chain, a: nat)
    requires Initial(c) && before == Run(c, steps) && d == Apply(before, s)
    requires a < |c.kinds| && c.kinds[a].Delay? && !before.running[a] && d.running[a]
    ensures LastsUntil(d, a, before.now + c.kinds[a].ms) <==>
            c.kinds[a].ms == 0 || c.kinds[a].ms == DONT_RUN || before.Clock() + c.kinds[a].ms < U32
  {
    var p := AtMostOneRunning(c, steps);
    DelayIsArmed(before, p, s, a, d);
    if c.kinds[a].ms == 0 {
    } else if d.timers != [] && before.Clock() + c.kinds[a].ms >= U32 {
      OverAtOnce(d, a, before.now + c.kinds[a].ms);
    } else {
      if d.timers != [] {
        DueInThisEpoch(before.now, c.kinds[a].ms);
      }
      StillWaiting(d, a, before.now + c.kinds[a].ms);
    }
  }

  lemma DueInThisEpoch(now: nat, ms: u32)
    requires now % U32 + ms < U32
    ensures ThisEpoch(now, Add32(now % U32, ms), now + ms)
  {
    var t := now % U32;
    assert now + ms == now / U32 * U32 + (t + ms);
  }

  lemma StillWaiting(d: Chain, a: nat, until: nat)
    requires SuspendedAt(d, a) && (d.timers != [] ==> ThisEpoch(d.now, d.timers[0].due, until))
    ensures LastsUntil(d, a, until)
  {
    forall more | NoHalt(more) && Run(d, more).now < until
      ensures Run(d, more).running[a] && Run(d, more).trace == d.trace
    {
      if d.timers == [] {
        RefusedTimeoutBlocks(d, a, more);
      } else {
        NothingBeforeDue(d, a, until, more);
      }
    }
  }

  lemma OverAtOnce(d: Chain, a: nat, until: nat)
    requires SuspendedAt(d, a) && d.timers != [] && d.timers[0].due <= d.Clock() && d.now < until
    ensures !LastsUntil(d, a, until)
  {
    GoesOffWhenDue(d, a);
    assert [] + [Expire(0)] == [Expire(0)];
    RunMore(d, [], Expire(0));
    assert NoHalt([Expire(0)]) && Run(d, [Expire(0)]).trace != d.trace;
  }

  /** And if the clock does wrap, the delay may be over in the millisecond in which it is played. */
  lemma DelayAtTheWrap(c: Chain, p: nat, s: Step, a: nat, d: Chain)
    requires At(c, p) && a < |c.kinds| && c.kinds[a].Delay? && d == Apply(c, s)
    requires !c.running[a] && d.running[a] && c.kinds[a].ms != DONT_RUN
    ensures Apply(d, Expire(0)).trace != d.trace <==> c.kinds[a].ms == 0 || c.Clock() + c.kinds[a].ms >= U32
  {
    DelayIsArmed(c, p, s, a, d);
    GoesOffWhenDue(d, a);
  }

  /** A delay of one second, played half a second before the wrap, takes no time at all. */
  lemma DelayOfNoTime()
    ensures var c := Chain([Delay(1000)], [false], [0], [], [], 0);
            Run(c, [Advance(0xFFFF_FE0C), Start, Expire(0)]).trace == [Effect(0, 0xFFFF_FE0C, 0xFFFF_FE0C)]
  {
    var c := Chain([Delay(1000)], [false], [0], [], [], 0);
    RunThree(c, Advance(0xFFFF_FE0C), Start, Expire(0));
    var d := c.(now := 0xFFFF_FE0C);
    var e := Apply(d, Start);
    OneWaits(d, 0);
    OneGoesOff(e);
  }

  /** Lists of one action: it waits, it takes effect at once, or its timeout goes off. */
  lemma OneWaits(c: Chain, last: u32)
    requires Idle(c) && |c.kinds| == 1 && Suspends(c, 0) && Interval(c, 0) != DONT_RUN
    requires last == if c.kinds[0].Alert? then Slot(c, 0) else c.last[0]
    ensures Apply(c, Start) == c.(running := [true], last := [last], timers := [Item(0, Add32(c.Clock(), Interval(c, 0)))])
  {
    var q := StepMeaning(c, 1, Start);
    assert StopAt(c, 0) == 0 && c.running[0 := true] == [true] && NewLast(c, 0, 0) == [last];
    assert c.trace + Effects(c, 0, 0) == c.trace && c.timers + Armed(c, 0) == Armed(c, 0);
  }

  lemma OneTakesEffect(c: Chain, last: u32)
    requires Idle(c) && |c.kinds| == 1 && !Suspends(c, 0)
    requires last == if c.kinds[0].Alert? then Slot(c, 0) else c.last[0]
    ensures Apply(c, Start) == c.(last := [last], trace := c.trace + [Effect(0, Slot(c, 0), c.now)])
  {
    var q := StepMeaning(c, 1, Start);
    assert StopAt(c, 0) == 1 && NewLast(c, 0, 1) == [last];
    assert Effects(c, 0, 1) == [Effect(0, Slot(c, 0), c.now)] && c.timers + Armed(c, 1) == c.timers;
  }

  lemma OneGoesOff(c: Chain)
    requires SuspendedAt(c, 0) && |c.kinds| == 1 && c.timers != [] && c.timers[0].due <= c.Clock()
    ensures Apply(c, Expire(0)) == Woken(c, 0)
  {
    FireMeaning(c, 0);
    var w := Woken(c, 0);
    assert w.trace + Effects(w, 1, 1) == w.trace && w.timers + Armed(w, 1) == w.timers && NewLast(w, 1, 1) == w.last;
  }

  lemma RunThree(c: Chain, r: Step, s: Step, t: Step)
    requires c.Shaped()
    ensures Run(c, [r, s, t]) == Apply(Apply(Apply(c, r), s), t)
  {
    RunTwo(c, r, s);
    RunMore(c, [r, s], t);
    assert [r, s] + [t] == [r, s, t];
  }

  // ---------------------------------------------------------------- passes

  /** A pass that is over: how many actions took effect, and whether a stop cut it short. */
  datatype Pass = Pass(length: nat, stopped: bool)

  function Upto(n: nat): (s: seq<nat>)
    ensures |s| == n
  {
    seq(n, i => i)
  }

  function Concat(ps: seq<Pass>): seq<nat>
  {
    if ps == [] then [] else Concat(ps[..|ps| - 1]) + Upto(ps[|ps| - 1].length)
  }

  function Actions(t: seq<Effect>): (s: seq<nat>)
    ensures |s| == |t|
  {
    seq(|t|, k requires 0 <= k < |t| => t[k].action)
  }

  /** Whole passes have every action; stopped ones are proper prefixes. */
  predicate Finished(ps: seq<Pass>, n: nat)
  {
    forall k :: 0 <= k < |ps| ==> if ps[k].stopped then ps[k].length < n else ps[k].length == n
  }

  function Stopped(ps: seq<Pass>): nat
  {
    if ps == [] then 0 else Stopped(ps[..|ps| - 1]) + if ps[|ps| - 1].stopped then 1 else 0
  }

  function Halts(steps: seq<Step>): nat
  {
    if steps == [] then 0 else Halts(steps[..|steps| - 1]) + if steps[|steps| - 1].Halt? then 1 else 0
  }

  /** How many triggers found the list at rest. */
  function Accepted(c: Chain, steps: seq<Step>): nat
    requires c.Shaped()
  {
    if steps == [] then 0
    else
      var before := Run(c, steps[..|steps| - 1]);
      Accepted(c, steps[..|steps| - 1]) + if steps[|steps| - 1].Start? && !RunningFrom(before, 0) then 1 else 0
  }

  lemma Extend(ps: seq<Pass>, p: Pass)
    ensures Concat(ps + [p]) == Concat(ps) + Upto(p.length)
    ensures Stopped(ps + [p]) == Stopped(ps) + if p.stopped then 1 else 0
  {
    assert (ps + [p])[..|ps|] == ps;
  }

  lemma RestActions(c: Chain, i: nat)
    requires c.Shaped() && i <= |c.kinds|
    ensures Actions(c.trace) + (Upto(StopAt(c, i))[i..]) == Actions(Rest(c, i).trace)
  {
  }

  lemma UptoSplit(i: nat, j: nat)
    requires i <= j
    ensures Upto(i) + Upto(j)[i..] == Upto(j)
  {
  }

  /** `done` and the prefix `0..p` still open account for every effect so far. */
  predicate Explained(c: Chain, p: nat, done: seq<Pass>)
  {
    && At(c, p) && Finished(done, |c.kinds|)
    && Actions(c.trace) == Concat(done) + if p < |c.kinds| then Upto(p) else []
  }

  /** One stretch of playing extends the open pass, or closes it as a whole one. */
  lemma StretchExplained(c: Chain, i: nat, done: seq<Pass>) returns (ps: seq<Pass>)
    requires Idle(c) && i <= |c.kinds| && Finished(done, |c.kinds|)
    requires Actions(c.trace) == Concat(done) + Upto(i)
    ensures Explained(Rest(c, i), StopAt(c, i), ps)
    ensures Stopped(ps) == Stopped(done)
    ensures |ps| == |done| + if StopAt(c, i) == |c.kinds| then 1 else 0
  {
    var j := StopAt(c, i);
    RestIsAt(c, i);
    RestActions(c, i);
    UptoSplit(i, j);
    assert (Concat(done) + Upto(i)) + Upto(j)[i..] == Concat(done) + (Upto(i) + Upto(j)[i..]);
    if j == |c.kinds| {
      ps := done + [Pass(j, false)];
      Extend(done, Pass(j, false));
      assert Concat(ps) + [] == Concat(ps);
    } else {
      ps := done;
    }
  }

  lemma ActionsAppend(t: seq<Effect>, x: Effect)
    ensures Actions(t + [x]) == Actions(t) + [x.action]
  {
  }

  /** Waking the waiting action adds it to the open pass. */
  lemma WakingExplained(c: Chain, p: nat, done: seq<Pass>, w: Chain) returns (ps: seq<Pass>)
    requires Explained(c, p, done) && p < |c.kinds| && w == Woken(c, p) && Idle(w)
    ensures Explained(Rest(w, p + 1), StopAt(w, p + 1), ps)
    ensures Stopped(ps) == Stopped(done)
    ensures |ps| == |done| + if StopAt(w, p + 1) == |c.kinds| then 1 else 0
  {
    ActionsAppend(c.trace, w.trace[|c.trace|]);
    UptoNext(Concat(done), p);
    ps := StretchExplained(w, p + 1, done);
  }

  lemma UptoNext(s: seq<nat>, p: nat)
    ensures (s + Upto(p)) + [p] == s + Upto(p + 1)
  {
    assert Upto(p) + [p] == Upto(p + 1);
  }

  /** Stopping closes the open pass as a proper prefix. */
  lemma StoppingExplained(c: Chain, p: nat, done: seq<Pass>, d: Chain) returns (ps: seq<Pass>)
    requires Explained(c, p, done) && Idle(d) && d.kinds == c.kinds && d.trace == c.trace
    ensures Explained(d, |d.kinds|, ps)
    ensures Stopped(ps) <= Stopped(done) + 1
    ensures |ps| == |done| + if p < |c.kinds| then 1 else 0
  {
    ps := done;
    if p < |c.kinds| {
      ps := done + [Pass(p, true)];
      Extend(done, Pass(p, true));
    }
    assert Concat(ps) + [] == Concat(ps);
  }

  lemma StepExplained(c: Chain, p: nat, done: seq<Pass>, s: Step) returns (q: nat, ps: seq<Pass>)
    requires Explained(c, p, done)
    ensures Explained(Apply(c, s), q, ps)
    ensures Stopped(ps) <= Stopped(done) + if s.Halt? then 1 else 0
    ensures |ps| + (if q < |c.kinds| then 1 else 0)
         == |done| + (if p < |c.kinds| then 1 else 0) + (if s.Start? && p == |c.kinds| then 1 else 0)
  {
    q := StepMeaning(c, p, s);
    ps := done;
    if s.Halt? {
      ps := StoppingExplained(c, p, done, Apply(c, s));
    } else if s.Start? && p == |c.kinds| {
      assert Concat(done) + [] == Concat(done) + Upto(0);
      ps := StretchExplained(c, 0, done);
    } else if s.Expire? && Apply(c, s) != c {
      ps := WakingExplained(c, p, done, Woken(c, p));
    }
  }

  /** Over every run the effects are whole passes over the list in insertion order; only a
      pass that was stopped, or the one still waiting at the end, is a proper prefix.  Each
      accepted trigger accounts for exactly one pass, and each short pass for its own stop. */
  lemma {:induction false} EffectsArePasses(c: Chain, steps: seq<Step>) returns (p: nat, done: seq<Pass>)
    requires Initial(c)
    ensures Explained(Run(c, steps), p, done)
    ensures Stopped(done) <= Halts(steps)
    ensures |done| + (if p < |c.kinds| then 1 else 0) == Accepted(c, steps)
    decreases |steps|
  {
    if steps == [] {
      p, done := |c.kinds|, [];
      assert Actions(c.trace) == [];
    } else {
      var front := steps[..|steps| - 1];
      var p0, done0 := EffectsArePasses(c, front);
      var before := Run(c, front);
      RunningMeans(before, 0);
      assert p0 < |c.kinds| ==> before.running[p0];
      p, done := StepExplained(before, p0, done0, steps[|steps| - 1]);
    }
  }
}
