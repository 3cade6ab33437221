/** `Smart::run` over whole runs: edge detection, re-arming, and the link to the action list. */
module SmartRuns {
  import opened Basics
  import opened Conditions
  import opened ActionChain
  import ChainRuns

  // ---------------------------------------------------------------- the edge detector

  /** `Deduplicator`: the last accepted value, if there was one. */
  datatype Dedup<T> = Dedup(hasValue: bool, lastValue: T)

  function Next<T(==)>(d: Dedup<T>, value: T): (r: (bool, Dedup<T>))
  {
    if d.hasValue && d.lastValue == value then (false, d) else (true, Dedup(true, value))
  }

  /** Whether each of the values fed to a fresh deduplicator was accepted. */
  function Accepted<T(==)>(zero: T, values: seq<T>): (r: (seq<bool>, Dedup<T>))
    ensures |r.0| == |values|
  {
    if values == [] then ([], Dedup(false, zero))
    else
      var (flags, d) := Accepted(zero, values[..|values| - 1]);
      var (ok, e) := Next(d, values[|values| - 1]);
      (flags + [ok], e)
  }

  /** The value at `i` is the first one or differs from the one before. */
  ghost predicate ChangesAt<T>(values: seq<T>, i: nat)
    requires i < |values|
  {
    i == 0 || values[i] != values[i - 1]
  }

  /** Exactly the values that differ from their predecessor are accepted. */
  lemma {:induction false} AcceptedAreChanges<T>(zero: T, values: seq<T>)
    ensures var (flags, d) := Accepted(zero, values);
            && (d.hasValue <==> values != [])
            && (values != [] ==> d.lastValue == values[|values| - 1])
            && forall i :: 0 <= i < |values| ==> (flags[i] <==> ChangesAt(values, i))
    decreases |values|
  {
    if values != [] {
      var front := values[..|values| - 1];
      AcceptedAreChanges(zero, front);
      assert forall i :: 0 <= i < |front| ==> ChangesAt(front, i) == ChangesAt(values, i);
    }
  }

  // ---------------------------------------------------------------- one automation

  datatype Smart = Smart(
    all: bool,
    conditions: seq<Cond>,
    valueChange: bool,
    dedup: Dedup<bool>,
    chain: Chain)

  /** `later` is what the users' functions answer when a run logs, after the check. */
  datatype Event =
    | RunSmart(later: seq<real>)
    | UpdateValue(configID: nat, value: real, trigger: bool)
    | FunctionReturns(id: nat, value: real)
    | ChainEvent(step: ChainRuns.Step)

  /** Does this run get as far as `check()`, that is, does it try to trigger? */
  predicate Tries(s: Smart)
  {
    var cond := CheckGroup(s.all, s.conditions).0;
    cond && (s.valueChange ==> Next(s.dedup, cond).0)
  }

  /** What logging an activated group leaves behind: an any-group checks its children again. */
  function Logged(all: bool, cs: seq<Cond>, later: seq<real>): (r: seq<Cond>)
    ensures |r| == |cs|
  {
    if all then cs else CheckAny(Reread(cs, later)).1
  }

  function RunOnce(s: Smart, later: seq<real>): (r: Smart)
    requires s.chain.Shaped()
    ensures r.chain.Shaped()
  {
    var (cond, cs) := CheckGroup(s.all, s.conditions);
    var t := s.(conditions := cs, dedup := if s.valueChange then Next(s.dedup, cond).1 else s.dedup);
    if Tries(s) then t.(conditions := Logged(s.all, cs, later), chain := Trigger(s.chain)) else t
  }

  /** From now on the user's function of condition `id`, if it has one, returns `v`. */
  function Sensed(c: Cond, id: nat, v: real): Cond
  {
    if c.id == id && c.fn.Some? then c.(fn := Some(v)) else c
  }

  function Step(s: Smart, e: Event): (r: Smart)
    requires s.chain.Shaped()
    ensures r.chain.Shaped()
  {
    match e
    case RunSmart(later) => RunOnce(s, later)
    case UpdateValue(id, v, trigger) =>
      s.(conditions := seq(|s.conditions|, i requires 0 <= i < |s.conditions| => Updated(s.conditions[i], id, v, trigger)))
    case FunctionReturns(id, v) =>
      s.(conditions := seq(|s.conditions|, i requires 0 <= i < |s.conditions| => Sensed(s.conditions[i], id, v)))
    case ChainEvent(step) => s.(chain := ChainRuns.Apply(s.chain, step))
  }

  function Run(s: Smart, events: seq<Event>): (r: Smart)
    requires s.chain.Shaped()
    ensures r.chain.Shaped()
  {
    if events == [] then s else Step(Run(s, events[..|events| - 1]), events[|events| - 1])
  }

  /** The outcome of the condition at each run of the automation. */
  function Outcomes(s: Smart, events: seq<Event>): seq<bool>
    requires s.chain.Shaped()
  {
    if events == [] then []
    else
      var front := events[..|events| - 1];
      var t := Run(s, front);
      Outcomes(s, front) + if events[|events| - 1].RunSmart? then [CheckGroup(t.all, t.conditions).0] else []
  }

  /** Whether each run of the automation tried to trigger. */
  function Attempts(s: Smart, events: seq<Event>): seq<bool>
    requires s.chain.Shaped()
  {
    if events == [] then []
    else
      var front := events[..|events| - 1];
      Attempts(s, front) + if events[|events| - 1].RunSmart? then [Tries(Run(s, front))] else []
  }

  /** The steps the action list goes through: each attempt is a trigger. */
  function ChainSteps(s: Smart, events: seq<Event>): seq<ChainRuns.Step>
    requires s.chain.Shaped()
  {
    if events == [] then []
    else
      var front := events[..|events| - 1];
      var e := events[|events| - 1];
      ChainSteps(s, front) +
      match e
      case RunSmart(_) => if Tries(Run(s, front)) then [ChainRuns.Start] else []
      case ChainEvent(step) => [step]
      case UpdateValue(_, _, _) => []
      case FunctionReturns(_, _) => []
  }

  /** `conds` and `tries` are the outcomes and attempts of the runs so far; the attempts are at
      the rising edges if changes matter, and wherever the condition holds if not. */
  ghost predicate AtEdges(valueChange: bool, conds: seq<bool>, tries: seq<bool>, dedup: Dedup<bool>)
  {
    && |conds| == |tries|
    && (valueChange ==> dedup == if conds == [] then Dedup(false, false) else Dedup(true, conds[|conds| - 1]))
    && forall i :: 0 <= i < |tries| ==> (tries[i] <==> conds[i] && (valueChange ==> ChangesAt(conds, i)))
  }

  lemma OneMoreRun(valueChange: bool, conds: seq<bool>, tries: seq<bool>, dedup: Dedup<bool>, cond: bool)
    requires AtEdges(valueChange, conds, tries, dedup)
    ensures var (changed, next) := Next(dedup, cond);
            AtEdges(valueChange, conds + [cond], tries + [cond && (valueChange ==> changed)],
                    if valueChange then next else dedup)
  {
    assert forall i :: 0 <= i < |conds| ==> ChangesAt(conds, i) == ChangesAt(conds + [cond], i);
    assert ChangesAt(conds + [cond], |conds|) <==> conds == [] || cond != conds[|conds| - 1];
  }

  /** Edge triggering over every run, whatever updates, timeouts and stops come between:
      with value-change detection an automation tries to trigger exactly at the runs where
      its condition holds and did not hold at the run before; without, wherever it holds. */
  lemma {:induction false} TriggersOnRisingEdges(s: Smart, events: seq<Event>)
    requires s.chain.Shaped() && s.dedup == Dedup(false, false)
    ensures AtEdges(s.valueChange, Outcomes(s, events), Attempts(s, events), Run(s, events).dedup)
    ensures Run(s, events).valueChange == s.valueChange
    decreases |events|
  {
    if events != [] {
      var front, e := events[..|events| - 1], events[|events| - 1];
      TriggersOnRisingEdges(s, front);
      if e.RunSmart? {
        var t := Run(s, front);
        OneMoreRun(s.valueChange, Outcomes(s, front), Attempts(s, front), t.dedup, CheckGroup(t.all, t.conditions).0);
      }
    }
  }

  /** The action list sees nothing but its own steps and a trigger per attempt, so all that
      holds of every run of an action list holds inside every run of an automation. */
  lemma {:induction false} ChainSeesATriggerPerAttempt(s: Smart, events: seq<Event>)
    requires s.chain.Shaped()
    ensures Run(s, events).chain == ChainRuns.Run(s.chain, ChainSteps(s, events))
    decreases |events|
  {
    if events != [] {
      var front := events[..|events| - 1];
      ChainSeesATriggerPerAttempt(s, front);
      var t, e, before := Run(s, front), events[|events| - 1], ChainSteps(s, front);
      assert before + [] == before;
      match e
      case RunSmart(_) =>
        if Tries(t) {
          ChainRuns.RunMore(s.chain, before, ChainRuns.Start);
        }
      case ChainEvent(step) => ChainRuns.RunMore(s.chain, before, step);
      case UpdateValue(_, _, _) =>
      case FunctionReturns(_, _) =>
    }
  }

  // ---------------------------------------------------------------- re-arming

  /** No value arrives and no function changes its mind; timeouts, stops and clock steps may come. */
  predicate Quiet(events: seq<Event>)
  {
    forall e :: e in events ==> e.RunSmart? || e.ChainEvent?
  }

  /** How often the automation runs. */
  function Runs(events: seq<Event>): nat
  {
    if events == [] then 0 else Runs(events[..|events| - 1]) + if events[|events| - 1].RunSmart? then 1 else 0
  }

  lemma QuietStep(s: Smart, e: Event, r: Smart, check: (bool, seq<Cond>))
    requires s.chain.Shaped() && s.all && (e.RunSmart? || e.ChainEvent?) && r == Step(s, e)
    requires check == CheckGroup(true, s.conditions)
    ensures r.all && r.valueChange == s.valueChange
    ensures r.conditions == if e.RunSmart? then check.1 else s.conditions
    ensures r.dedup == if e.RunSmart? && s.valueChange then Dedup(true, check.0) else s.dedup
  {
  }

  /** `r` is `s` after `n` checks of its conditions. */
  predicate Checked(s: Smart, r: Smart, n: nat)
  {
    && r.chain.Shaped() && r.all && r.valueChange == s.valueChange
    && r.conditions == After(true, s.conditions, n)
    && (s.valueChange ==> r.dedup == if n > 0 then Dedup(true, Outcome(true, s.conditions, n - 1)) else s.dedup)
  }

  lemma CheckedOnce(s: Smart, t: Smart, n: nat, e: Event, r: Smart)
    requires Checked(s, t, n) && (e.RunSmart? || e.ChainEvent?) && r == Step(t, e)
    ensures Checked(s, r, if e.RunSmart? then n + 1 else n)
  {
    QuietStep(t, e, r, CheckGroup(true, t.conditions));
    AfterStep(true, s.conditions, n);
  }

  /** Over quiet runs an all-group is checked once for each run. */
  lemma {:induction false} QuietRuns(s: Smart, events: seq<Event>)
    requires s.chain.Shaped() && s.all && Quiet(events)
    ensures Checked(s, Run(s, events), Runs(events))
    decreases |events|
  {
    if events != [] {
      var front, e := events[..|events| - 1], events[|events| - 1];
      assert e in events && forall f :: f in front ==> f in events;
      QuietRuns(s, front);
      CheckedOnce(s, Run(s, front), Runs(front), e, Run(s, events));
    }
  }

  lemma {:induction false} AfterStep(all: bool, cs: seq<Cond>, m: nat)
    ensures After(all, cs, m + 1) == CheckGroup(all, After(all, cs, m)).1
    decreases m
  {
    if m > 0 {
      AfterStep(all, CheckGroup(all, cs).1, m - 1);
    }
  }

  /** Re-arming: an automation that needs all its conditions, was active at its last run and
      has `k` resets pending with every condition met, tries to trigger again exactly once:
      at run number `k`, counting from 0, whatever timeouts, stops and clock steps come between
      the runs.  With no reset pending it does not try again, and if some condition is not met
      it never does. */
  lemma UpdateRearmsOnce(s: Smart, events: seq<Event>)
    requires s.chain.Shaped() && s.all && s.valueChange && AllSane(s.conditions) && Quiet(events)
    requires s.dedup == Dedup(true, true)
    ensures Tries(Run(s, events)) <==>
            AllMet(s.conditions) && Pending(s.conditions) == Runs(events) && Runs(events) > 0
  {
    QuietRuns(s, events);
    AllSettles(s.conditions, Runs(events));
    if Runs(events) > 0 {
      AllSettles(s.conditions, Runs(events) - 1);
    }
  }

  lemma {:induction false} RunFrom(s: Smart, e: Event, events: seq<Event>)
    requires s.chain.Shaped()
    ensures Run(s, [e] + events) == Run(Step(s, e), events)
    decreases |events|
  {
    var all := [e] + events;
    if events == [] {
      assert all == [e] && [e][..0] == [];
    } else {
      assert all[..|all| - 1] == [e] + events[..|events| - 1];
      RunFrom(s, e, events[..|events| - 1]);
    }
  }

  /** Would condition `c` accept if the value `v` arrived for the configuration `id`?  A function
      goes before values, and only the conditions of this configuration take `v`. */
  predicate Accepts(c: Cond, id: nat, v: real)
  {
    if c.fn.Some? then Passes(c.test, c.primary, c.secondary, c.fn.value)
    else if c.configID == id then Passes(c.test, c.primary, c.secondary, Scaled(v, c.scale))
    else c.hasValue && Passes(c.test, c.primary, c.secondary, Scaled(c.value, c.scale))
  }

  /** How many conditions have the configuration `id`. */
  function Members(cs: seq<Cond>, id: nat): nat
  {
    if cs == [] then 0 else (if cs[0].configID == id then 1 else 0) + Members(cs[1..], id)
  }

  lemma OneUpdate(c: Cond, id: nat, v: real, trigger: bool, d: Cond)
    requires d == Updated(c, id, v, trigger)
    ensures d.Met() <==> Accepts(c, id, v)
  {
  }

  lemma {:induction false} UpdateArms(cs: seq<Cond>, id: nat, v: real, trigger: bool, ds: seq<Cond>)
    requires |ds| == |cs| && forall i :: 0 <= i < |cs| ==> ds[i] == Updated(cs[i], id, v, trigger)
    requires forall i :: 0 <= i < |cs| ==> !cs[i].reset
    ensures Pending(ds) == if trigger then Members(cs, id) else 0
    ensures AllMet(ds) <==> forall i :: 0 <= i < |cs| ==> Accepts(cs[i], id, v)
    ensures AllSane(ds)
    decreases |cs|
  {
    if cs != [] {
      UpdateArms(cs[1..], id, v, trigger, ds[1..]);
      OneUpdate(cs[0], id, v, trigger, ds[0]);
      assert cs == [cs[0]] + cs[1..] && ds == [ds[0]] + ds[1..];
    }
  }

  /** From the update to the trigger: a value that arrives with the trigger makes an active
      automation of all conditions try again exactly once, and at its run number `k`, counting
      from 0, where `k` is how many of its conditions have that configuration; and only if all
      conditions accept, those of that configuration the new value times their scale.  A value
      without the trigger, or for nobody, makes it try never again. */
  lemma UpdateTriggersAgain(s: Smart, id: nat, v: real, trigger: bool, events: seq<Event>)
    requires s.chain.Shaped() && s.all && s.valueChange && AllSane(s.conditions) && Quiet(events)
    requires s.dedup == Dedup(true, true) && Pending(s.conditions) == 0
    ensures Tries(Run(s, [UpdateValue(id, v, trigger)] + events)) <==>
            && (forall i :: 0 <= i < |s.conditions| ==> Accepts(s.conditions[i], id, v))
            && trigger && Runs(events) == Members(s.conditions, id) > 0
    ensures forall x, y :: Scaled(x, y) == x * y
  {
    var e := UpdateValue(id, v, trigger);
    var t := Step(s, e);
    RunFrom(s, e, events);
    NonePending(s.conditions);
    UpdateArms(s.conditions, id, v, trigger, t.conditions);
    UpdateRearmsOnce(t, events);
  }

  /** What one run leaves behind: an all-group uses up one reset at most; an any-group those
      before its first ready condition, and if the run gets to the log, those before the first
      condition that is ready by the answers the users' functions give then. */
  lemma WhatARunLeaves(s: Smart, later: seq<real>)
    requires s.chain.Shaped() && AllSane(s.conditions)
    ensures var (cs, ds) := (s.conditions, RunOnce(s, later).conditions);
            if s.all then ds == ClearedAt(cs, FirstRefusal(cs))
            else if !Tries(s) then ds == Cleared(cs, FirstReady(cs))
            else var es := Reread(Cleared(cs, FirstReady(cs)), later); ds == Cleared(es, FirstReady(es))
  {
    if s.all {
      CheckAllMeaning(s.conditions);
    } else {
      CheckAnyMeaning(s.conditions);
      var es := Reread(Cleared(s.conditions, FirstReady(s.conditions)), later);
      CheckAnyMeaning(es);
    }
  }
}
