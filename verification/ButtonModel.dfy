/** One pass of the button recogniser over one button, on values: the edge detector, the
    multi-click counter and the hold detector side by side. */
module ButtonModel {
  import opened Basics
  import opened Flags

  /** What the application has registered. */
  datatype Config = Config(flag: set<Event>, delay: u32, delayMulti: u32, numberMulti: nat, reload: bool)

  /** `countMulti` and `prevMulti`. */
  datatype Clicks = Clicks(count: nat, anchor: u32)

  /** `pressed`, `onHold` and `prevMillis`. */
  datatype Touch = Touch(pressed: bool, onHold: bool, since: u32)

  datatype Btn = Btn(
    cfg: Config,
    mark: u32,
    enable: bool,
    state: bool,
    prevState: bool,
    clicks: Clicks,
    touch: Touch,
    called: set<Event>)

  /** A falling edge: the window is restarted or continued, the one-byte count goes up, and
      without `reload` a full count fires at once. */
  function Count(cfg: Config, c: Clicks, now: u32): (Clicks, bool)
  {
    var d := if cfg.reload then Clicks(c.count, now)
             else if Sub32(now, c.anchor) > cfg.delayMulti then Clicks(0, now)
             else c;
    var count := (d.count + 1) % 256;
    if count >= cfg.numberMulti && !cfg.reload then (Clicks(count, now), true) else (Clicks(count, d.anchor), false)
  }

  /** With `reload` the count is judged once the last edge is old enough. */
  function Judge(cfg: Config, c: Clicks, now: u32): (Clicks, bool)
  {
    if cfg.reload && c.count > 0 && Sub32(now, c.anchor) > cfg.delayMulti then
      if c.count < cfg.numberMulti then (Clicks(0, c.anchor), false) else (c, true)
    else (c, false)
  }

  function Click(cfg: Config, c: Clicks, falls: bool, now: u32): (Clicks, bool)
  {
    var (d, now1) := if falls then Count(cfg, c, now) else (c, false);
    var (e, now2) := Judge(cfg, d, now);
    (e, now1 || now2)
  }

  function Press(cfg: Config, t: Touch, level: bool, now: u32): (Touch, bool)
  {
    if !level && !t.pressed then (Touch(true, false, now), false)
    else if !level && t.pressed then
      if !t.onHold && Sub32(now, t.since) >= cfg.delay then (Touch(true, true, now), true) else (t, false)
    else if level && t.pressed then (Touch(false, false, t.since), false)
    else (t, false)
  }

  function When(cond: bool, e: Event): set<Event>
  {
    if cond then {e} else {}
  }

  function Sample(b: Btn, now: u32, level: bool): Btn
  {
    var changed := level != b.prevState;
    var (clicks, fired) := Click(b.cfg, b.clicks, changed && !level, now);
    var (touch, held) := Press(b.cfg, b.touch, level, now);
    b.(state := level, prevState := level, clicks := clicks, touch := touch,
       called := b.called + When(changed, Change) + When(changed && level, Rising) + When(changed && !level, Falling)
                 + When(fired, Multi) + When(held, Hold))
  }

  function One(b: Btn, e: Event): seq<Event>
  {
    if e in b.called && e in b.cfg.flag then [e] else []
  }

  /** The events handed to the callback, in this order, and the button afterwards.  A button
      that waits to be deleted is skipped. */
  function Dispatch(b: Btn): (r: (seq<Event>, Btn))
  {
    if Delete in b.called then ([], b)
    else
      (One(b, Change) + One(b, Falling) + One(b, Rising) + One(b, Hold) + One(b, Multi),
       b.(called := {}, clicks := if Multi in b.called && Multi in b.cfg.flag then Clicks(0, b.clicks.anchor) else b.clicks))
  }

  /** Is this button sampled in a pass at `now`? */
  predicate Due(mark: u32, timeout: u32, now: u32)
  {
    Sub32(now, mark) >= timeout
  }

  function CatchUp(mark: u32, timeout: u32, now: u32): u32
    requires timeout > 0
  {
    Add32(mark, WholePeriods(Sub32(now, mark), timeout))
  }

  /** The sampling half of `run` for one button. */
  function Poll(b: Btn, timeout: u32, now: u32, level: bool): Btn
    requires timeout > 0
  {
    if !Due(b.mark, timeout, now) then b
    else
      var c := b.(mark := CatchUp(b.mark, timeout, now));
      if c.enable then Sample(c, now, level) else c
  }

  /** Catching up keeps the sampling grid: the clock ends up less than one period after the
      new mark, and the mark moves by whole periods, across a clock wrap too. */
  lemma CatchUpKeepsGrid(mark: u32, timeout: u32, now: u32)
    requires timeout > 0
    ensures var m := CatchUp(mark, timeout, now);
            && !Due(m, timeout, now)
            && MultipleOf(Sub32(m, mark), timeout)
            && Sub32(now, m) + Sub32(m, mark) == Sub32(now, mark)
  {
    var w := WholePeriods(Sub32(now, mark), timeout);
    MultiplesAdd(0, Sub32(now, mark), timeout);
    MovedMark(mark, now, w);
  }

  lemma MovedMark(mark: u32, now: u32, w: nat)
    requires w <= Sub32(now, mark)
    ensures Sub32(Add32(mark, w), mark) == w
    ensures Sub32(now, Add32(mark, w)) == Sub32(now, mark) - w
  {
    assert Add32(mark, w) == mark + w || Add32(mark, w) == mark + w - U32;
  }
}
