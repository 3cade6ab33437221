/** The button objects and their list: sampling, dispatching, setting up and deleting. */
module ButtonObjects {
  import opened Basics
  import opened Flags
  import opened ButtonModel

  /** One callback invocation. */
  datatype Invocation = Invocation(pin: nat, event: Event)

  class Button {
    const pin: nat
    var flag: bv8
    var called: bv8
    var prevTimeout: u32
    var prevMillis: u32
    var delay: u32
    var prevMulti: u32
    var delayMulti: u32
    var state: bool
    var prevState: bool
    var pressed: bool
    var onHold: bool
    var reload: bool
    var enable: bool
    var countMulti: nat
    var numberMulti: nat

    /** `setupButton`: the two readings may differ; the second is the one edges start from.
        Only the overload with callback arguments starts the multi-click window now. */
    constructor (pin: nat, now: u32, first: bool, second: bool, withArgs: bool)
      ensures this.pin == pin
      ensures View() == Btn(Config({}, 0, 0, 0, false), now, true, first, second,
                            Clicks(0, if withArgs then now else 0), Touch(false, false, now), {})
    {
      this.pin := pin;
      flag, called := 0, 0;
      prevTimeout, prevMillis, prevMulti := now, now, if withArgs then now else 0;
      delay, delayMulti, countMulti, numberMulti := 0, 0, 0, 0;
      state, prevState := first, second;
      pressed, onHold, reload, enable := false, false, false, true;
      new;
      NoFlags();
    }

    ghost function View(): Btn
      reads this
    {
      Btn(Config(Events(flag), delay, delayMulti, numberMulti, reload), prevTimeout, enable, state, prevState,
          Clicks(countMulti, prevMulti), Touch(pressed, onHold, prevMillis), Events(called))
    }

    /** `onChange`, `onFalling` and `onRising`. */
    method Register(e: Event)
      modifies this`flag
      ensures View() == old(View()).(cfg := old(View()).cfg.(flag := old(View()).cfg.flag + {e}))
    {
      flag := SetFlag(flag, Mask(e), true);
      SettingAFlag(old(flag), e, true);
    }

    method OnHold(delay: u32)
      modifies this`flag, this`delay
      ensures View() == old(View()).(cfg := old(View()).cfg.(flag := old(View()).cfg.flag + {Hold}, delay := delay))
    {
      this.delay := delay;
      Register(Hold);
    }

    method OnMulti(num: nat, delay: u32)
      modifies this`flag, this`numberMulti, this`delayMulti
      ensures View() == old(View()).(cfg := old(View()).cfg.(
                          flag := old(View()).cfg.flag + {Multi}, numberMulti := num, delayMulti := delay))
    {
      numberMulti := num;
      delayMulti := delay;
      Register(Multi);
    }

    method Call(e: Event)
      modifies this`called
      ensures View() == old(View()).(called := old(View()).called + {e})
    {
      called := SetFlag(called, Mask(e), true);
      SettingAFlag(old(called), e, true);
    }

    /** `isCalledFlag`: called and registered; the call is used up. */
    method TakeCall(e: Event) returns (b: bool)
      modifies this`called
      ensures b <==> e in old(View()).called && e in View().cfg.flag
      ensures View() == old(View()).(called := old(View()).called - {e})
    {
      b := GetFlag(called, Mask(e)) && GetFlag(flag, Mask(e));
      called := SetFlag(called, Mask(e), false);
      SettingAFlag(old(called), e, false);
    }

    method CountEdge(now: u32)
      modifies this`prevMulti, this`countMulti, this`called
      ensures var b := old(View());
              var (clicks, fired) := Count(b.cfg, b.clicks, now);
              View() == b.(clicks := clicks, called := b.called + When(fired, Multi))
    {
      if reload {
        prevMulti := now;
      } else if Sub32(now, prevMulti) > delayMulti {
        countMulti := 0;
        prevMulti := now;
      }
      countMulti := (countMulti + 1) % 256;
      if countMulti >= numberMulti && !reload {
        prevMulti := now;
        Call(Multi);
      }
    }

    method JudgeCount(now: u32)
      modifies this`countMulti, this`called
      ensures var b := old(View());
              var (clicks, fired) := Judge(b.cfg, b.clicks, now);
              View() == b.(clicks := clicks, called := b.called + When(fired, Multi))
    {
      if reload && countMulti > 0 && Sub32(now, prevMulti) > delayMulti {
        if countMulti < numberMulti {
          countMulti := 0;
        } else {
          Call(Multi);
        }
      }
    }

    method PressOrRelease(now: u32)
      modifies this`pressed, this`onHold, this`prevMillis, this`called
      ensures var b := old(View());
              var (touch, held) := Press(b.cfg, b.touch, b.state, now);
              View() == b.(touch := touch, called := b.called + When(held, Hold))
    {
      if !state && !pressed {
        onHold := false;
        pressed := true;
        prevMillis := now;
      } else if !state && pressed {
        if !onHold && Sub32(now, prevMillis) >= delay {
          onHold := true;
          prevMillis := now;
          Call(Hold);
        }
      } else if state && pressed {
        onHold := false;
        pressed := false;
      }
    }

    /** The sampling half of `run` for this button; `level` is what the pin reads, inverted if asked. */
    method Poll(timeout: u32, now: u32, level: bool)
      requires timeout > 0
      modifies this
      ensures View() == ButtonModel.Poll(old(View()), timeout, now, level)
    {
      var elapsed := Sub32(now, prevTimeout);
      if elapsed < timeout {
        return;
      }
      var skipTimes := elapsed / timeout;
      DividingGivesWholePeriods(elapsed, timeout);
      prevTimeout := Add32(prevTimeout, timeout * skipTimes);
      assert prevTimeout == CatchUp(old(prevTimeout), timeout, now) by {
        assert timeout * skipTimes == skipTimes * timeout;
      }
      if !enable {
        return;
      }
      TakeSample(now, level);
    }

    method TakeSample(now: u32, level: bool)
      modifies this
      ensures View() == Sample(old(View()), now, level)
    {
      ghost var b := View();
      DetectEdge(now, level);
      JudgeCount(now);
      PressOrRelease(now);
      assert View().called == Sample(b, now, level).called;
    }

    method DetectEdge(now: u32, level: bool)
      modifies this`state, this`prevState, this`prevMulti, this`countMulti, this`called
      ensures var b := old(View());
              var changed := level != b.prevState;
              var (clicks, fired) := if changed && !level then Count(b.cfg, b.clicks, now) else (b.clicks, false);
              View() == b.(state := level, prevState := level, clicks := clicks,
                           called := b.called + When(changed, Change) + When(changed && level, Rising)
                                     + When(changed && !level, Falling) + When(fired, Multi))
    {
      state := level;
      if state != prevState {
        prevState := state;
        Call(Change);
        if state {
          Call(Rising);
        } else {
          Call(Falling);
          CountEdge(now);
        }
      }
    }

    /** The callbacks made for one kind of event. */
    method Take(e: Event) returns (events: seq<Event>)
      modifies this`called
      ensures events == One(old(View()), e)
      ensures View() == old(View()).(called := old(View()).called - {e})
    {
      var b := TakeCall(e);
      events := if b then [e] else [];
    }

    /** The dispatching half of `run` for this button. */
    method Dispatch() returns (events: seq<Event>)
      modifies this`called, this`countMulti
      ensures (events, View()) == ButtonModel.Dispatch(old(View()))
    {
      ghost var b := View();
      if GetFlag(called, Mask(Delete)) {
        return [];
      }
      var multi;
      events, multi := TakeAll();
      if multi {
        countMulti := 0;
      }
    }

    method TakeAll() returns (events: seq<Event>, multi: bool)
      requires Delete !in View().called
      modifies this`called
      ensures View() == old(View()).(called := {})
      ensures var b := old(View());
              && events == One(b, Change) + One(b, Falling) + One(b, Rising) + One(b, Hold) + One(b, Multi)
              && (multi <==> Multi in b.called && Multi in b.cfg.flag)
    {
      ghost var b := View();
      var change := Take(Change);
      var falling := Take(Falling);
      assert falling == One(b, Falling);
      var rising := Take(Rising);
      assert rising == One(b, Rising);
      var hold := Take(Hold);
      assert hold == One(b, Hold);
      var last := Take(Multi);
      assert last == One(b, Multi);
      multi := last != [];
      OnlyDeleteLeft(b.called);
      assert View().called == {};
      events := change + falling + rising + hold + last;
    }
  }

  const MAX_BUTTONS := 5

  predicate Distinct(bs: seq<Button>)
  {
    forall i, j :: 0 <= i < j < |bs| ==> bs[i] != bs[j]
  }

  predicate Doomed(v: Btn)
  {
    Delete in v.called
  }

  /** The buttons nobody has asked to delete, in order; `vs` are their states. */
  function Alive(bs: seq<Button>, vs: seq<Btn>): (r: seq<Button>)
    requires |bs| == |vs|
    ensures |r| <= |bs|
  {
    if bs == [] then []
    else
      var n := |bs| - 1;
      Alive(bs[..n], vs[..n]) + if Doomed(vs[n]) then [] else [bs[n]]
  }

  lemma {:induction false} NoneDoomed(bs: seq<Button>, vs: seq<Btn>)
    requires |bs| == |vs| && forall i :: 0 <= i < |vs| ==> !Doomed(vs[i])
    ensures Alive(bs, vs) == bs
    decreases |bs|
  {
    if bs != [] {
      NoneDoomed(bs[..|bs| - 1], vs[..|bs| - 1]);
    }
  }

  lemma {:induction false} SameDoom(bs: seq<Button>, vs: seq<Btn>, ws: seq<Btn>)
    requires |bs| == |vs| == |ws| && forall k :: 0 <= k < |bs| ==> Doomed(vs[k]) == Doomed(ws[k])
    ensures Alive(bs, vs) == Alive(bs, ws)
    decreases |bs|
  {
    if bs != [] {
      var n := |bs| - 1;
      SameDoom(bs[..n], vs[..n], ws[..n]);
    }
  }

  /** Dropping item `i` and then the last one, or the other way round. */
  lemma DropTwo<T>(s: seq<T>, i: nat)
    requires i < |s| - 1
    ensures var t := s[..i] + s[i + 1..];
            t[..|t| - 1] == s[..|s| - 1][..i] + s[..|s| - 1][i + 1..] && t[|t| - 1] == s[|s| - 1]
  {
  }

  lemma {:induction false} DropDoomed(bs: seq<Button>, vs: seq<Btn>, i: nat)
    requires i < |bs| == |vs| && Doomed(vs[i])
    ensures Alive(bs[..i] + bs[i + 1..], vs[..i] + vs[i + 1..]) == Alive(bs, vs)
    decreases |bs|
  {
    var n := |bs| - 1;
    if i < n {
      DropDoomed(bs[..n], vs[..n], i);
      DropTwo(bs, i);
      DropTwo(vs, i);
    } else {
      assert bs[..i] + bs[i + 1..] == bs[..n] && vs[..i] + vs[i + 1..] == vs[..n];
    }
  }

  class ButtonList {
    var buttons: seq<Button>
    var numButton: nat
    var timeout: u32

    ghost predicate Valid()
      reads this
    {
      Distinct(buttons) && numButton == |buttons| <= MAX_BUTTONS && timeout > 0
    }

    constructor ()
      ensures Valid() && buttons == [] && timeout == 50
    {
      buttons, numButton, timeout := [], 0, 50;
    }

    method Setup(pin: nat, now: u32, first: bool, second: bool, withArgs: bool) returns (b: Button?)
      requires Valid()
      modifies this
      ensures Valid() && timeout == old(timeout)
      ensures b == null <==> |old(buttons)| == MAX_BUTTONS
      ensures b == null ==> buttons == old(buttons)
      ensures b != null ==> fresh(b) && b.pin == pin && buttons == old(buttons) + [b]
      ensures b != null ==> b.View().prevState == second && b.View().called == {} && b.View().enable && !b.View().touch.pressed
    {
      if numButton >= MAX_BUTTONS {
        return null;
      }
      b := new Button(pin, now, first, second, withArgs);
      buttons := buttons + [b];
      numButton := numButton + 1;
    }

    /** Deleting is deferred: the button is disabled and removed by the next `run`. */
    method DeleteButton(b: Button)
      requires Valid()
      modifies b`enable, b`called
      ensures Valid()
      ensures b.View() == if buttons == [] then old(b.View())
                          else old(b.View()).(enable := false, called := old(b.View()).called + {Delete})
    {
      if numButton == 0 {
        return;
      }
      b.enable := false;
      b.Call(Delete);
    }

    method PollAll(now: u32, levels: seq<bool>)
      requires Valid() && |levels| == |buttons|
      modifies buttons
      ensures forall k :: 0 <= k < |buttons| ==>
                buttons[k].View() == ButtonModel.Poll(old(buttons[k].View()), timeout, now, levels[k])
    {
      for i := 0 to |buttons|
        invariant forall k :: 0 <= k < i ==>
                    buttons[k].View() == ButtonModel.Poll(old(buttons[k].View()), timeout, now, levels[k])
        invariant forall k :: i <= k < |buttons| ==> buttons[k].View() == old(buttons[k].View())
      {
        PollAt(i, now, levels[i]);
      }
    }

    method DispatchAt(i: nat) returns (events: seq<Event>)
      requires Valid() && i < |buttons|
      modifies buttons[i]
      ensures (events, buttons[i].View()) == ButtonModel.Dispatch(old(buttons[i].View()))
      ensures forall k :: 0 <= k < |buttons| && k != i ==> buttons[k].View() == old(buttons[k].View())
    {
      events := buttons[i].Dispatch();
    }

    method PollAt(i: nat, now: u32, level: bool)
      requires Valid() && i < |buttons|
      modifies buttons[i]
      ensures buttons[i].View() == ButtonModel.Poll(old(buttons[i].View()), timeout, now, level)
      ensures forall k :: 0 <= k < |buttons| && k != i ==> buttons[k].View() == old(buttons[k].View())
    {
      buttons[i].Poll(timeout, now, level);
    }

    /** The callbacks of `run`: button by button, each in the order of `Dispatch`. */
    method DispatchAll() returns (calls: seq<Invocation>)
      requires Valid()
      modifies buttons
      ensures calls == AllCalls(buttons, old(Views(buttons)))
      ensures forall k :: 0 <= k < |buttons| ==>
                buttons[k].View() == ButtonModel.Dispatch(old(buttons[k].View())).1
    {
      calls := [];
      ghost var views := Views(buttons);
      for i := 0 to |buttons|
        invariant calls == AllCalls(buttons[..i], views[..i])
        invariant forall k :: 0 <= k < i ==> buttons[k].View() == ButtonModel.Dispatch(views[k]).1
        invariant forall k :: i <= k < |buttons| ==> buttons[k].View() == views[k]
      {
        var events := DispatchAt(i);
        calls := calls + Tagged(buttons[i].pin, events);
        OneMoreCall(buttons, views, i, events);
      }
      assert buttons[..|buttons|] == buttons && views[..|buttons|] == views;
    }

    /** `deleteHandler`: removes the first doomed button, if there is one. */
    method DeleteHandler() returns (again: bool)
      requires Valid()
      modifies this`buttons, this`numButton
      ensures Valid()
      ensures if again then |buttons| < |old(buttons)| else buttons == Alive(buttons, Views(buttons))
      ensures Alive(buttons, Views(buttons)) == old(Alive(buttons, Views(buttons)))
    {
      ghost var views := Views(buttons);
      for i := 0 to |buttons|
        invariant buttons == old(buttons) && numButton == old(numButton)
        invariant forall k :: 0 <= k < i ==> !Doomed(views[k])
      {
        if GetFlag(buttons[i].called, Mask(Delete)) {
          RemoveAt(i);
          DropDoomed(old(buttons), views, i);
          return true;
        }
      }
      NoneDoomed(buttons, views);
      return false;
    }

    /** `ERaButton::run`: every button is sampled, then every callback is made, then exactly
        the doomed buttons are removed, the others staying in order. */
    method Run(now: u32, levels: seq<bool>) returns (calls: seq<Invocation>)
      requires Valid() && |levels| == |buttons|
      modifies this`buttons, this`numButton, buttons
      ensures Valid()
      ensures calls == AllCalls(old(buttons), Polled(old(Views(buttons)), timeout, now, levels))
      ensures buttons == old(Alive(buttons, Views(buttons)))
      ensures forall k :: 0 <= k < |old(buttons)| ==>
                old(buttons)[k].View() ==
                ButtonModel.Dispatch(ButtonModel.Poll(old(buttons[k].View()), timeout, now, levels[k])).1
    {
      ghost var all := buttons;
      ghost var views := Views(all);
      PollAll(now, levels);
      assert Views(all) == Polled(views, timeout, now, levels);
      calls := DispatchAll();
      DoomsAreKept(all, views, Views(all), timeout, now, levels);
      Sweep();
    }

    method RemoveAt(i: nat)
      requires Valid() && i < |buttons|
      modifies this`buttons, this`numButton
      ensures Valid() && buttons == old(buttons[..i] + buttons[i + 1..])
      ensures Views(buttons) == old(Views(buttons)[..i] + Views(buttons)[i + 1..])
    {
      buttons := buttons[..i] + buttons[i + 1..];
      numButton := numButton - 1;
    }

    /** The loop around `deleteHandler`. */
    method Sweep()
      requires Valid()
      modifies this`buttons, this`numButton
      ensures Valid() && buttons == old(Alive(buttons, Views(buttons)))
    {
      ghost var left := Alive(buttons, Views(buttons));
      var again := true;
      while again
        invariant Valid() && Alive(buttons, Views(buttons)) == left
        invariant again || buttons == left
        decreases |buttons|, again
      {
        again := DeleteHandler();
      }
    }
  }

  lemma DoomsAreKept(bs: seq<Button>, vs: seq<Btn>, ws: seq<Btn>, timeout: u32, now: u32, levels: seq<bool>)
    requires timeout > 0 && |levels| == |bs| == |vs| == |ws|
    requires forall k :: 0 <= k < |bs| ==> ws[k] == ButtonModel.Dispatch(ButtonModel.Poll(vs[k], timeout, now, levels[k])).1
    ensures Alive(bs, ws) == Alive(bs, vs)
  {
    forall k | 0 <= k < |bs|
      ensures Doomed(ws[k]) == Doomed(vs[k])
    {
      DoomIsKept(vs[k], timeout, now, levels[k]);
    }
    SameDoom(bs, ws, vs);
  }

  lemma DoomIsKept(b: Btn, timeout: u32, now: u32, level: bool)
    requires timeout > 0
    ensures Delete in ButtonModel.Dispatch(ButtonModel.Poll(b, timeout, now, level)).1.called <==> Delete in b.called
  {
  }

  ghost function Views(bs: seq<Button>): (vs: seq<Btn>)
    reads bs
    ensures |vs| == |bs|
  {
    seq(|bs|, i requires 0 <= i < |bs| reads bs => bs[i].View())
  }

  ghost function Polled(vs: seq<Btn>, timeout: u32, now: u32, levels: seq<bool>): (r: seq<Btn>)
    requires timeout > 0 && |levels| == |vs|
    ensures |r| == |vs|
  {
    seq(|vs|, i requires 0 <= i < |vs| => ButtonModel.Poll(vs[i], timeout, now, levels[i]))
  }

  function Tagged(pin: nat, events: seq<Event>): (r: seq<Invocation>)
    ensures |r| == |events|
  {
    seq(|events|, i requires 0 <= i < |events| => Invocation(pin, events[i]))
  }

  ghost function AllCalls(bs: seq<Button>, vs: seq<Btn>): seq<Invocation>
    requires |bs| == |vs|
  {
    if bs == [] then []
    else
      var n := |bs| - 1;
      AllCalls(bs[..n], vs[..n]) + Tagged(bs[n].pin, ButtonModel.Dispatch(vs[n]).0)
  }

  /** The events among the callbacks that are for one pin. */
  function For(calls: seq<Invocation>, pin: nat): seq<Event>
  {
    if calls == [] then []
    else For(calls[..|calls| - 1], pin) + if calls[|calls| - 1].pin == pin then [calls[|calls| - 1].event] else []
  }

  lemma {:induction false} ForTagged(calls: seq<Invocation>, pin: nat, events: seq<Event>, p: nat)
    ensures For(calls + Tagged(pin, events), p) == For(calls, p) + if p == pin then events else []
    decreases |events|
  {
    var all := calls + Tagged(pin, events);
    if events == [] {
      assert all == calls;
    } else {
      var n := |events| - 1;
      assert all[..|all| - 1] == calls + Tagged(pin, events[..n]);
      ForTagged(calls, pin, events[..n], p);
    }
  }

  /** Every button hears exactly its own events, in their order: with different pins, the callbacks
      for the pin of button `k` are those that this button dispatches. */
  lemma {:induction false} CallsReachTheirPins(bs: seq<Button>, vs: seq<Btn>, k: nat)
    requires k < |bs| == |vs| && forall i, j :: 0 <= i < j < |bs| ==> bs[i].pin != bs[j].pin
    ensures For(AllCalls(bs, vs), bs[k].pin) == ButtonModel.Dispatch(vs[k]).0
    ensures forall p :: (forall i :: 0 <= i < |bs| ==> bs[i].pin != p) ==> For(AllCalls(bs, vs), p) == []
    decreases |bs|
  {
    var n := |bs| - 1;
    NobodyElse(bs[..n], vs[..n], bs[n].pin);
    ForTagged(AllCalls(bs[..n], vs[..n]), bs[n].pin, ButtonModel.Dispatch(vs[n]).0, bs[k].pin);
    if k < n {
      CallsReachTheirPins(bs[..n], vs[..n], k);
    }
    forall p | forall i :: 0 <= i < |bs| ==> bs[i].pin != p
      ensures For(AllCalls(bs, vs), p) == []
    {
      NobodyElse(bs, vs, p);
    }
  }

  lemma {:induction false} NobodyElse(bs: seq<Button>, vs: seq<Btn>, p: nat)
    requires |bs| == |vs| && forall i :: 0 <= i < |bs| ==> bs[i].pin != p
    ensures For(AllCalls(bs, vs), p) == []
    decreases |bs|
  {
    if bs != [] {
      var n := |bs| - 1;
      NobodyElse(bs[..n], vs[..n], p);
      ForTagged(AllCalls(bs[..n], vs[..n]), bs[n].pin, ButtonModel.Dispatch(vs[n]).0, p);
    }
  }

  lemma OneMoreCall(bs: seq<Button>, vs: seq<Btn>, i: nat, events: seq<Event>)
    requires i < |bs| == |vs| && events == ButtonModel.Dispatch(vs[i]).0
    ensures AllCalls(bs[..i + 1], vs[..i + 1]) == AllCalls(bs[..i], vs[..i]) + Tagged(bs[i].pin, events)
  {
    assert bs[..i + 1][..i] == bs[..i] && vs[..i + 1][..i] == vs[..i];
  }

  lemma OnlyDeleteLeft(called: set<Event>)
    requires Delete !in called
    ensures called - {Change} - {Falling} - {Rising} - {Hold} - {Multi} == {}
  {
    forall e | e in called
      ensures e in {Change, Falling, Rising, Hold, Multi}
    {
      match e { case Delete => case Change => case Falling => case Rising => case Hold => case Multi => }
    }
  }
}
