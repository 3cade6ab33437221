/** The debounce gate in front of the recogniser: which ticks are sampled, and how often. */
module ButtonDebounce {
  import opened Basics
  import opened Flags
  import opened ButtonModel
  import opened ButtonRuns

  /** One call of `run` for one button. */
  function Tick(b: Btn, timeout: u32, x: Reading): (seq<Event>, Btn)
    requires timeout > 0
  {
    Dispatch(Poll(b, timeout, x.at, x.level))
  }

  function TickAll(b: Btn, timeout: u32, ticks: seq<Reading>): Btn
    requires timeout > 0
  {
    if ticks == [] then b else Tick(TickAll(b, timeout, ticks[..|ticks| - 1]), timeout, ticks[|ticks| - 1]).1
  }

  /** The ticks that get through the gate, and the mark it ends with. */
  function Taken(mark: u32, timeout: u32, ticks: seq<Reading>): (seq<Reading>, u32)
    requires timeout > 0
  {
    if ticks == [] then ([], mark)
    else
      var (xs, m) := Taken(mark, timeout, ticks[..|ticks| - 1]);
      var x := ticks[|ticks| - 1];
      if Sub32(x.at, m) < timeout then (xs, m)
      else (xs + [x], CatchUp(m, timeout, x.at))
  }

  /** The recogniser sees exactly the ticks that get through the gate. */
  lemma {:induction false} TicksAreSampledRuns(b: Btn, timeout: u32, ticks: seq<Reading>)
    requires timeout > 0 && Clean(b) && b.enable
    ensures var (xs, m) := Taken(b.mark, timeout, ticks);
            TickAll(b, timeout, ticks) == After(b, xs).(mark := m)
    decreases |ticks|
  {
    if ticks != [] {
      var front, x := ticks[..|ticks| - 1], ticks[|ticks| - 1];
      var (xs, m) := Taken(b.mark, timeout, front);
      TicksAreSampledRuns(b, timeout, front);
      AfterMeaning(b, xs);
      var d := After(b, xs).(mark := m);
      if Sub32(x.at, m) < timeout {
        NothingToReport(d);
      } else {
        assert (xs + [x])[..|xs|] == xs;
        NextState(After(b, xs), x);
        NextState(d.(mark := CatchUp(m, timeout, x.at)), x);
      }
    }
  }

  /** Each call reports what the sample it takes reports, and a call that is held back by the
      gate reports nothing. */
  lemma TicksReportTheirSamples(b: Btn, timeout: u32, ticks: seq<Reading>, i: nat)
    requires timeout > 0 && Clean(b) && b.enable && i < |ticks|
    ensures var (xs, m) := Taken(b.mark, timeout, ticks[..i]);
            Tick(TickAll(b, timeout, ticks[..i]), timeout, ticks[i]).0 ==
            if Sub32(ticks[i].at, m) < timeout then [] else Reported(b, xs + [ticks[i]], |xs|)
  {
    var (xs, m) := Taken(b.mark, timeout, ticks[..i]);
    TicksAreSampledRuns(b, timeout, ticks[..i]);
    AfterMeaning(b, xs);
    var d := After(b, xs).(mark := m);
    if Sub32(ticks[i].at, m) < timeout {
      NothingToReport(d);
    } else {
      assert (xs + [ticks[i]])[..|xs|] == xs;
      SameReport(After(b, xs), d.(mark := CatchUp(m, timeout, ticks[i].at)), ticks[i]);
    }
  }

  /** What is reported does not depend on the sampling mark. */
  lemma SameReport(b: Btn, c: Btn, x: Reading)
    requires c == b.(mark := c.mark)
    ensures Next(c, x).0 == Next(b, x).0
  {
  }

  /** A disabled button reports nothing and notices nothing; only its sampling mark goes on. */
  lemma DisabledButtonSleeps(b: Btn, timeout: u32, x: Reading)
    requires timeout > 0 && b.called == {} && !b.enable
    ensures var (events, c) := Tick(b, timeout, x);
            events == [] && c == b.(mark := c.mark)
  {
    NothingToReport(b);
    NothingToReport(Poll(b, timeout, x.at, x.level));
  }

  lemma NothingToReport(b: Btn)
    requires b.called == {}
    ensures Dispatch(b).1 == b && Dispatch(b).0 == []
  {
    assert One(b, Change) + One(b, Falling) + One(b, Rising) + One(b, Hold) + One(b, Multi) == [];
  }

  /** A button is sampled at most once per debounce period: `n` samples take at least `n`
      whole periods from the first mark, for real times that run across clock wraps. */
  lemma {:induction false} SamplesAreSpaced(mark: nat, timeout: u32, ticks: seq<Reading>, ts: seq<nat>) returns (m: nat)
    requires timeout > 0 && |ts| == |ticks|
    requires forall k :: 0 <= k < |ts| ==> ticks[k].at == ts[k] % U32 && mark <= ts[k]
    requires forall k, l :: 0 <= k <= l < |ts| ==> ts[k] <= ts[l]
    ensures m % U32 == Taken(mark % U32, timeout, ticks).1
    ensures mark + |Taken(mark % U32, timeout, ticks).0| * timeout <= m
    ensures m <= if ts == [] then mark else ts[|ts| - 1]
    decreases |ticks|
  {
    m := mark;
    if ticks != [] {
      var i := |ticks| - 1;
      var (xs, prev) := Taken(mark % U32, timeout, ticks[..i]);
      m := SamplesAreSpaced(mark, timeout, ticks[..i], ts[..i]);
      assert m <= ts[i] by { if i > 0 { assert ts[i - 1] <= ts[i]; } }
      if Sub32(ticks[i].at, prev) >= timeout {
        var w := WholePeriods(Sub32(ticks[i].at, prev), timeout);
        Gap(m, ts[i], w);
        FirstPeriod(Sub32(ticks[i].at, prev), timeout);
        assert (|xs| + 1) * timeout == |xs| * timeout + timeout;
        m := m + w;
      }
    }
  }

  lemma Gap(mark: nat, now: nat, w: nat)
    requires mark <= now && w <= Sub32(now % U32, mark % U32)
    ensures mark + w <= now
    ensures (mark + w) % U32 == Add32(mark % U32, w)
  {
    ReadingsUnderstate(now, mark);
    assert (mark + w - (mark % U32 + w)) % U32 == 0;
  }
}
