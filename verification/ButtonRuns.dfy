/** What the button recogniser reports over every run of samples of one button. */
module ButtonRuns {
  import opened Basics
  import opened Flags
  import opened ButtonModel

  /** A sample that was taken: the 32-bit clock and the level after inversion. */
  datatype Reading = Reading(at: u32, level: bool)

  /** One pass: the events reported and the button afterwards. */
  function Next(b: Btn, x: Reading): (seq<Event>, Btn)
  {
    Dispatch(Sample(b, x.at, x.level))
  }

  function After(b: Btn, xs: seq<Reading>): Btn
  {
    if xs == [] then b else Next(After(b, xs[..|xs| - 1]), xs[|xs| - 1]).1
  }

  /** The events reported at sample `i`. */
  function Reported(b: Btn, xs: seq<Reading>, i: nat): seq<Event>
    requires i < |xs|
  {
    Next(After(b, xs[..i]), xs[i]).0
  }

  /** A button with a callback registered for every event and nothing left to report. */
  predicate Clean(b: Btn)
  {
    b.called == {} && b.cfg.flag == {Change, Falling, Rising, Hold, Multi}
  }

  /** A clean button fresh from set-up. */
  predicate Ready(b: Btn)
  {
    Clean(b) && !b.touch.pressed && !b.touch.onHold && b.clicks.count == 0 && b.cfg.numberMulti < 256
  }

  /** The level before sample `i`. */
  function Level(b: Btn, xs: seq<Reading>, i: nat): bool
    requires i <= |xs|
  {
    if i == 0 then b.prevState else xs[i - 1].level
  }

  predicate Falls(b: Btn, xs: seq<Reading>, i: nat)
    requires i < |xs|
  {
    Level(b, xs, i) && !xs[i].level
  }

  // ---------------------------------------------------------------- the detectors run apart

  /** The multi-click counter after one pass, and whether MULTI was reported. */
  function ClickPass(cfg: Config, c: Clicks, falls: bool, now: u32): (Clicks, bool)
  {
    var (d, fired) := Click(cfg, c, falls, now);
    (if fired then Clicks(0, d.anchor) else d, fired)
  }

  function ClickRun(b: Btn, xs: seq<Reading>): (Clicks, bool)
  {
    if xs == [] then (b.clicks, false)
    else ClickPass(b.cfg, ClickRun(b, xs[..|xs| - 1]).0, Falls(b, xs, |xs| - 1), xs[|xs| - 1].at)
  }

  function TouchRun(b: Btn, xs: seq<Reading>): (Touch, bool)
  {
    if xs == [] then (b.touch, false)
    else Press(b.cfg, TouchRun(b, xs[..|xs| - 1]).0, xs[|xs| - 1].level, xs[|xs| - 1].at)
  }

  /** Reporting: an event is dispatched exactly when it was called and is registered. */
  lemma DispatchMeaning(b: Btn, e: Event)
    requires Delete !in b.called && e != Delete
    ensures e in Dispatch(b).0 <==> e in b.called && e in b.cfg.flag
  {
  }

  lemma NextState(b: Btn, x: Reading)
    requires Clean(b)
    ensures var (clicks, fired) := ClickPass(b.cfg, b.clicks, b.prevState && !x.level, x.at);
            var (touch, held) := Press(b.cfg, b.touch, x.level, x.at);
            Next(b, x).1 == b.(state := x.level, prevState := x.level, clicks := clicks, touch := touch)
  {
  }

  lemma NextEvents(b: Btn, x: Reading)
    requires Clean(b)
    ensures var events := Next(b, x).0;
            && (Change in events <==> x.level != b.prevState)
            && (Rising in events <==> x.level && !b.prevState)
            && (Falling in events <==> !x.level && b.prevState)
            && (Multi in events <==> ClickPass(b.cfg, b.clicks, b.prevState && !x.level, x.at).1)
            && (Hold in events <==> Press(b.cfg, b.touch, x.level, x.at).1)
  {
    CalledBySample(b, x);
    AllDispatched(Sample(b, x.at, x.level));
  }

  lemma CalledBySample(b: Btn, x: Reading)
    requires Clean(b)
    ensures var called := Sample(b, x.at, x.level).called;
            && Delete !in called
            && (Change in called <==> x.level != b.prevState)
            && (Rising in called <==> x.level && !b.prevState)
            && (Falling in called <==> !x.level && b.prevState)
            && (Multi in called <==> ClickPass(b.cfg, b.clicks, b.prevState && !x.level, x.at).1)
            && (Hold in called <==> Press(b.cfg, b.touch, x.level, x.at).1)
  {
  }

  lemma AllDispatched(s: Btn)
    requires Delete !in s.called && s.cfg.flag == {Change, Falling, Rising, Hold, Multi}
    ensures forall e :: e != Delete ==> (e in Dispatch(s).0 <==> e in s.called)
  {
    forall e | e != Delete
      ensures e in Dispatch(s).0 <==> e in s.called
    {
      DispatchMeaning(s, e);
      match e { case Delete => case Change => case Falling => case Rising => case Hold => case Multi => }
    }
  }

  /** A run of the button is a run of each detector. */
  lemma {:induction false} AfterMeaning(b: Btn, xs: seq<Reading>)
    requires Clean(b)
    ensures After(b, xs) == b.(
              state := if xs == [] then b.state else xs[|xs| - 1].level,
              prevState := Level(b, xs, |xs|), clicks := ClickRun(b, xs).0, touch := TouchRun(b, xs).0)
    decreases |xs|
  {
    if xs != [] {
      var front := xs[..|xs| - 1];
      AfterMeaning(b, front);
      NextState(After(b, front), xs[|xs| - 1]);
    }
  }

  lemma ReportedMeaning(b: Btn, xs: seq<Reading>, i: nat)
    requires Clean(b) && i < |xs|
    ensures var events := Reported(b, xs, i);
            && (Change in events <==> xs[i].level != Level(b, xs, i))
            && (Rising in events <==> xs[i].level && !Level(b, xs, i))
            && (Falling in events <==> Falls(b, xs, i))
            && (Multi in events <==> ClickRun(b, xs[..i + 1]).1)
            && (Hold in events <==> TouchRun(b, xs[..i + 1]).1)
  {
    var ys := xs[..i + 1];
    assert ys[..i] == xs[..i];
    AfterMeaning(b, xs[..i]);
    NextEvents(After(b, xs[..i]), xs[i]);
  }

  // ---------------------------------------------------------------- order

  /** The place of an event among the callbacks of one pass. */
  function Rank(e: Event): nat
  {
    match e case Change => 0 case Falling => 1 case Rising => 2 case Hold => 3 case Multi => 4 case Delete => 5
  }

  predicate Ranked(events: seq<Event>, below: nat)
  {
    && (forall i :: 0 <= i < |events| ==> Rank(events[i]) < below)
    && forall i, j :: 0 <= i < j < |events| ==> Rank(events[i]) < Rank(events[j])
  }

  lemma OneMoreRank(events: seq<Event>, b: Btn, e: Event)
    requires Ranked(events, Rank(e))
    ensures Ranked(events + One(b, e), Rank(e) + 1)
  {
  }

  /** In one pass each event is reported at most once, and in this order: CHANGE, FALLING, RISING,
      HOLD, MULTI; a button that waits to be deleted reports nothing. */
  lemma ReportsAreOrdered(b: Btn)
    ensures Ranked(Dispatch(b).0, 5)
    ensures Delete in b.called ==> Dispatch(b).0 == []
  {
    if Delete !in b.called {
      var change := [] + One(b, Change);
      OneMoreRank([], b, Change);
      OneMoreRank(change, b, Falling);
      OneMoreRank(change + One(b, Falling), b, Rising);
      OneMoreRank(change + One(b, Falling) + One(b, Rising), b, Hold);
      OneMoreRank(change + One(b, Falling) + One(b, Rising) + One(b, Hold), b, Multi);
      assert change == One(b, Change);
    }
  }

  // ---------------------------------------------------------------- edges

  /** CHANGE, RISING and FALLING say exactly how the level moved between samples. */
  lemma EdgesAreReported(b: Btn, xs: seq<Reading>, i: nat)
    requires Clean(b) && i < |xs|
    ensures var events := Reported(b, xs, i);
            && (Change in events <==> xs[i].level != Level(b, xs, i))
            && (Rising in events <==> xs[i].level && !Level(b, xs, i))
            && (Falling in events <==> Falls(b, xs, i))
  {
    ReportedMeaning(b, xs, i);
  }

  /** Between two RISINGs there is a FALLING, and the other way round. */
  lemma EdgesAlternate(b: Btn, xs: seq<Reading>, i: nat, j: nat) returns (k: nat)
    requires Clean(b) && i < j < |xs|
    requires (Rising in Reported(b, xs, i) && Rising in Reported(b, xs, j))
          || (Falling in Reported(b, xs, i) && Falling in Reported(b, xs, j))
    ensures i < k < j
    ensures if Rising in Reported(b, xs, i) then Falling in Reported(b, xs, k) else Rising in Reported(b, xs, k)
  {
    EdgesAreReported(b, xs, i);
    EdgesAreReported(b, xs, j);
    k := Turn(xs, i, j);
    EdgesAreReported(b, xs, k);
  }

  /** A sample after `i` where the level has just left that of `i`. */
  lemma Turn(xs: seq<Reading>, i: nat, j: nat) returns (k: nat)
    requires i < j < |xs| && xs[j - 1].level != xs[i].level
    ensures i < k < j && xs[k].level != xs[i].level && xs[k - 1].level == xs[i].level
  {
    k := i + 1;
    while xs[k].level == xs[i].level
      invariant i < k < j
      invariant xs[k - 1].level == xs[i].level
      decreases j - k
    {
      k := k + 1;
    }
  }

  // ---------------------------------------------------------------- hold

  /** The first sample of the run of low samples that ends at `i`. */
  function Start(xs: seq<Reading>, i: nat): (s: nat)
    requires i < |xs| && !xs[i].level
    ensures s <= i && (s == 0 || xs[s - 1].level)
    ensures forall m :: s <= m <= i ==> !xs[m].level
  {
    if i == 0 || xs[i - 1].level then i else Start(xs, i - 1)
  }

  predicate Long(b: Btn, xs: seq<Reading>, s: nat, m: nat)
    requires s < |xs| && m < |xs|
  {
    Sub32(xs[m].at, xs[s].at) >= b.cfg.delay
  }

  /** A hold is due at `i`: the press began earlier, it has just become long enough. */
  predicate HoldsAt(b: Btn, xs: seq<Reading>, i: nat)
    requires i < |xs|
  {
    && !xs[i].level
    && var s := Start(xs, i);
       && s < i && Long(b, xs, s, i)
       && forall m :: s < m < i ==> !Long(b, xs, s, m)
  }

  lemma {:induction false} StartInPrefix(xs: seq<Reading>, ys: seq<Reading>, i: nat)
    requires i < |ys| <= |xs| && ys == xs[..|ys|] && !xs[i].level
    ensures Start(ys, i) == Start(xs, i)
    decreases i
  {
    if i > 0 && !xs[i - 1].level {
      StartInPrefix(xs, ys, i - 1);
    }
  }

  /** Where the hold detector stands after the samples `xs`. */
  predicate Touched(b: Btn, xs: seq<Reading>, t: Touch)
  {
    && t.pressed == (xs != [] && !xs[|xs| - 1].level)
    && (!t.pressed ==> !t.onHold)
    && (t.pressed ==>
          var i := |xs| - 1;
          var s := Start(xs, i);
          && (t.onHold <==> exists m :: s < m <= i && Long(b, xs, s, m))
          && (!t.onHold ==> t.since == xs[s].at))
  }

  /** Still low: the press goes on, and its start with it. */
  lemma StillLow(b: Btn, xs: seq<Reading>, front: seq<Reading>, i: nat)
    requires |xs| == i + 1 && i > 0 && front == xs[..i] && !xs[i].level && !xs[i - 1].level
    ensures Start(xs, i) == Start(front, i - 1)
    ensures forall m :: Start(xs, i) < m < i ==> Long(b, front, Start(xs, i), m) == Long(b, xs, Start(xs, i), m)
  {
    StartInPrefix(xs, front, i - 1);
  }

  lemma TouchStillLow(b: Btn, xs: seq<Reading>, front: seq<Reading>, i: nat, t: Touch)
    requires |xs| == i + 1 && i > 0 && front == xs[..i] && !xs[i].level && !xs[i - 1].level && Touched(b, front, t)
    ensures var (u, held) := Press(b.cfg, t, false, xs[i].at);
            Touched(b, xs, u) && (held <==> HoldsAt(b, xs, i))
  {
    StillLow(b, xs, front, i);
    var s := Start(xs, i);
    assert Long(b, xs, s, i) <==> Sub32(xs[i].at, xs[s].at) >= b.cfg.delay;
    assert front[s] == xs[s];
  }

  lemma TouchStep(b: Btn, xs: seq<Reading>, front: seq<Reading>, i: nat, t: Touch)
    requires |xs| == i + 1 && front == xs[..i] && Touched(b, front, t)
    ensures var (u, held) := Press(b.cfg, t, xs[i].level, xs[i].at);
            Touched(b, xs, u) && (held <==> HoldsAt(b, xs, i))
  {
    if !xs[i].level && i > 0 && !xs[i - 1].level {
      TouchStillLow(b, xs, front, i, t);
    }
  }

  lemma {:induction false} Touching(b: Btn, xs: seq<Reading>)
    requires !b.touch.pressed && !b.touch.onHold
    ensures Touched(b, xs, TouchRun(b, xs).0)
    ensures xs != [] ==> (TouchRun(b, xs).1 <==> HoldsAt(b, xs, |xs| - 1))
    decreases |xs|
  {
    if xs != [] {
      var front := xs[..|xs| - 1];
      Touching(b, front);
      TouchStep(b, xs, front, |xs| - 1, TouchRun(b, front).0);
    }
  }

  lemma HoldInPrefix(b: Btn, xs: seq<Reading>, ys: seq<Reading>, i: nat)
    requires i < |ys| <= |xs| && ys == xs[..|ys|]
    ensures HoldsAt(b, ys, i) == HoldsAt(b, xs, i)
  {
    if !xs[i].level {
      StartInPrefix(xs, ys, i);
      var s := Start(xs, i);
      assert forall m :: s < m <= i ==> Long(b, ys, s, m) == Long(b, xs, s, m);
    }
  }

  /** HOLD is reported at sample `i` exactly when the button has been low at every sample
      since the press began, the hold time has passed, and it had not passed at any earlier
      sample of this press. */
  lemma HoldIsReportedOnce(b: Btn, xs: seq<Reading>, i: nat)
    requires Ready(b) && i < |xs|
    ensures Hold in Reported(b, xs, i) <==> HoldsAt(b, xs, i)
  {
    ReportedMeaning(b, xs, i);
    Touching(b, xs[..i + 1]);
    HoldInPrefix(b, xs, xs[..i + 1], i);
  }

  lemma {:induction false} SameStart(xs: seq<Reading>, i: nat, j: nat)
    requires i <= j < |xs| && !xs[j].level && Start(xs, j) <= i
    ensures !xs[i].level && Start(xs, i) == Start(xs, j)
    decreases j
  {
    if i < j {
      SameStart(xs, i, j - 1);
    }
  }

  /** Two holds are never due in one press. */
  lemma HoldsAreApart(b: Btn, xs: seq<Reading>, i: nat, j: nat)
    requires i < j < |xs| && HoldsAt(b, xs, i) && HoldsAt(b, xs, j)
    ensures Start(xs, j) > i
  {
    if Start(xs, j) <= i {
      SameStart(xs, i, j);
    }
  }

  /** Between two HOLDs the button was released. */
  lemma HoldOncePerPress(b: Btn, xs: seq<Reading>, i: nat, j: nat) returns (k: nat)
    requires Ready(b) && i < j < |xs|
    requires Hold in Reported(b, xs, i) && Hold in Reported(b, xs, j)
    ensures i < k < j && xs[k].level
  {
    HoldIsReportedOnce(b, xs, i);
    HoldIsReportedOnce(b, xs, j);
    HoldsAreApart(b, xs, i, j);
    k := Start(xs, j) - 1;
  }

  /** The elapsed time the firmware computes never exceeds the real one, even across wraps:
      a reported HOLD really lasted at least the configured delay. */
  lemma HoldLastsAtLeastTheDelay(b: Btn, xs: seq<Reading>, ts: seq<nat>, i: nat)
    requires Ready(b) && i < |xs| == |ts|
    requires forall k :: 0 <= k < |xs| ==> xs[k].at == ts[k] % U32
    requires forall k, m :: 0 <= k <= m < |xs| ==> ts[k] <= ts[m]
    requires Hold in Reported(b, xs, i)
    ensures !xs[i].level && ts[i] - ts[Start(xs, i)] >= b.cfg.delay
  {
    HoldIsReportedOnce(b, xs, i);
    ReadingsUnderstate(ts[i], ts[Start(xs, i)]);
  }

  lemma ReadingsUnderstate(late: nat, early: nat)
    requires early <= late
    ensures Sub32(late % U32, early % U32) <= late - early
  {
    var d := late - early;
    assert (late % U32 - early % U32 - d) % U32 == 0;
  }
}
