/**
 The value-level meaning of an automation's action list: what `play`, `stop`, `isRunning`
 and a firing timeout do to the running flags, the alert slots, the pending timeouts and
 the effects the outside world sees.  ActionList.dfy proves the linked objects against it;
 ChainRuns.dfy proves what it promises over whole runs.
 */
module ActionChain {
  import opened Basics

  /** An interval that `Timer::setTimeout` treats as "do not arm anything". */
  const DONT_RUN: u32 := 0xFFFF_FFFF

  datatype Kind =
    | Lambda
    | Delay(ms: u32)
    | Alert(ms: u32)

  /** One effect: a lambda ran, a delay elapsed, or an alert was sent.  For an alert
      `slot` is the value of `mLastAlert` it was charged to; otherwise it is the clock. */
  datatype Effect = Effect(action: nat, slot: u32, at: nat)

  /** A pending timeout of the action at index `action`. */
  datatype Item = Item(action: nat, due: u32)

  datatype Chain = Chain(
    kinds: seq<Kind>,
    running: seq<bool>,
    last: seq<u32>,
    timers: seq<Item>,
    trace: seq<Effect>,
    now: nat)
  {
    predicate Shaped()
    {
      |running| == |kinds| && |last| == |kinds|
    }

    /** The 32-bit clock the firmware reads. */
    function Clock(): u32
    {
      now % U32
    }
  }

  function SetTimeout(c: Chain, i: nat, interval: u32): Chain
  {
    if interval == DONT_RUN then c
    else c.(timers := c.timers + [Item(i, Add32(c.Clock(), interval))])
  }

  function Without(timers: seq<Item>, i: nat): seq<Item>
  {
    if timers == [] then []
    else if timers[0].action == i then Without(timers[1..], i)
    else [timers[0]] + Without(timers[1..], i)
  }

  function Flag(c: Chain, i: nat, b: bool): (r: Chain)
    requires c.Shaped() && i < |c.kinds|
    ensures r.Shaped() && r.kinds == c.kinds
  {
    c.(running := c.running[i := b])
  }

  function Emit(c: Chain, i: nat, slot: u32): Chain
  {
    c.(trace := c.trace + [Effect(i, slot, c.now)])
  }

  /** `AlertAction::play` decides here: send at once, or wait for the next slot. */
  predicate SendsNow(before: u32, ms: u32, now: u32)
  {
    ms == 0 || (Sub32(now, before) >= ms && now > before)
  }

  /** The slot a play is charged to: the new `mLastAlert`. */
  function NextSlot(before: u32, ms: u32, now: u32): u32
  {
    if ms == 0 then now
    else if SendsNow(before, ms, now) then Add32(before, WholePeriods(Sub32(now, before), ms))
    else Add32(before, ms)
  }

  function PlayFrom(c: Chain, i: nat): (r: Chain)
    requires c.Shaped() && i <= |c.kinds|
    ensures r.Shaped() && r.kinds == c.kinds && r.now == c.now
    decreases |c.kinds| - i, 0
  {
    if i == |c.kinds| then c
    else
      match c.kinds[i]
      case Lambda =>
        PlayNext(Flag(Emit(c, i, c.Clock()), i, true), i)
      case Delay(ms) =>
        SetTimeout(Flag(c, i, true), i, ms)
      case Alert(ms) =>
        var before := c.last[i];
        var slot := NextSlot(before, ms, c.Clock());
        var d := Flag(c, i, true).(last := c.last[i := slot]);
        if SendsNow(before, ms, c.Clock()) then PlayNext(Emit(d, i, slot), i)
        else SetTimeout(d, i, Sub32(slot, c.Clock()))
  }

  function PlayNext(c: Chain, i: nat): (r: Chain)
    requires c.Shaped() && i < |c.kinds|
    ensures r.Shaped() && r.kinds == c.kinds && r.now == c.now
    decreases |c.kinds| - i - 1, 1
  {
    if c.running[i] then PlayFrom(Flag(c, i, false), i + 1) else c
  }

  function StopFrom(c: Chain, i: nat): (r: Chain)
    requires c.Shaped() && i <= |c.kinds|
    ensures r.Shaped() && r.kinds == c.kinds && r.now == c.now
    decreases |c.kinds| - i
  {
    if i == |c.kinds| then c
    else
      var d := if c.kinds[i].Lambda? then c else c.(timers := Without(c.timers, i));
      StopFrom(Flag(d, i, false), i + 1)
  }

  predicate RunningFrom(c: Chain, i: nat)
    requires c.Shaped() && i <= |c.kinds|
    decreases |c.kinds| - i
  {
    i < |c.kinds| && (c.running[i] || RunningFrom(c, i + 1))
  }

  /** The callback of the pending timeout of action `i`: `playNext` of a delay, `execute` of an alert. */
  function Callback(c: Chain, i: nat): (r: Chain)
    requires c.Shaped() && i < |c.kinds|
    ensures r.Shaped() && r.kinds == c.kinds && r.now == c.now
  {
    PlayNext(Emit(c, i, if c.kinds[i].Alert? then c.last[i] else c.Clock()), i)
  }

  /** `Timer::run` on one due entry: run its callback, then drop the entry. */
  function Fire(c: Chain, k: nat): (r: Chain)
    requires c.Shaped()
    requires k < |c.timers| && c.timers[k].action < |c.kinds|
    ensures r.Shaped() && r.kinds == c.kinds && r.now == c.now
  {
    var d := Callback(c, c.timers[k].action);
    if k < |d.timers| then d.(timers := d.timers[..k] + d.timers[k + 1..]) else d
  }

  /** `Smart::check`: start a pass unless one is under way. */
  function Trigger(c: Chain): (r: Chain)
    requires c.Shaped()
    ensures r.Shaped() && r.kinds == c.kinds && r.now == c.now
  {
    if RunningFrom(c, 0) then c else PlayFrom(c, 0)
  }
}
