/**
 The linked action objects of one automation: `play`, `stop` and `isRunning` travel along
 `next`, timeouts are held by the device.  Every method is proved against ActionChain.dfy.
 */
module ActionList {
  import opened Basics
  import opened ActionChain

  /** One pending entry of the timer. */
  datatype TimerItem = TimerItem(component: Action, due: u32)

  /** What the actions share: the clock, the timer's entries and the outside world. */
  class Device {
    var now: nat
    var items: seq<TimerItem>
    var outbox: seq<Effect>

    constructor ()
      ensures now == 0 && items == [] && outbox == []
    {
      now, items, outbox := 0, [], [];
    }

    function Millis(): u32
      reads this
    {
      now % U32
    }

    method SetTimeout(component: Action, interval: u32)
      modifies this`items
      ensures items == if interval == DONT_RUN then old(items)
                       else old(items) + [TimerItem(component, Add32(Millis(), interval))]
    {
      if interval == DONT_RUN {
        return;
      }
      items := items + [TimerItem(component, Add32(Millis(), interval))];
    }

    method CancelTimeout(component: Action)
      modifies this`items
      ensures items == Kept(old(items), component)
    {
      var i, kept := 0, [];
      while i < |items|
        invariant i <= |items| && items == old(items)
        invariant kept + Kept(items[i..], component) == Kept(items, component)
      {
        assert items[i..][1..] == items[i + 1..];
        if items[i].component != component {
          kept := kept + [items[i]];
        }
        i := i + 1;
      }
      items := kept;
    }

    method Emit(action: nat, slot: u32)
      modifies this`outbox
      ensures outbox == old(outbox) + [Effect(action, slot, now)]
    {
      outbox := outbox + [Effect(action, slot, now)];
    }
  }

  function Kept(items: seq<TimerItem>, component: Action): seq<TimerItem>
  {
    if items == [] then []
    else if items[0].component == component then Kept(items[1..], component)
    else [items[0]] + Kept(items[1..], component)
  }

  class Action {
    const kind: Kind
    /** The position in the list. */
    const id: nat
    var next: Action?
    var isRunning: bool
    var lastAlert: u32

    constructor (kind: Kind, id: nat)
      ensures this.kind == kind && this.id == id
      ensures next == null && !isRunning && lastAlert == 0
    {
      this.kind, this.id := kind, id;
      next, isRunning, lastAlert := null, false, 0;
    }

    /** The virtual `play`: each kind of action overrides it. */
    method Play(dev: Device, ghost chain: seq<Action>)
      requires Linked(chain) && Owns(chain, dev.items) && id < |chain| && chain[id] == this
      modifies chain`isRunning, chain`lastAlert, dev`items, dev`outbox
      ensures Linked(chain) && Owns(chain, dev.items)
      ensures Model(chain, dev) == PlayFrom(old(Model(chain, dev)), id)
      decreases |chain| - id, 1
    {
      match kind {
        case Lambda => PlayLambda(dev, chain);
        case Delay(_) => PlayDelay(dev, chain);
        case Alert(_) => PlayAlert(dev, chain);
      }
    }

    method PlayLambda(dev: Device, ghost chain: seq<Action>)
      requires Linked(chain) && Owns(chain, dev.items) && id < |chain| && chain[id] == this && kind.Lambda?
      modifies chain`isRunning, chain`lastAlert, dev`items, dev`outbox
      ensures Linked(chain) && Owns(chain, dev.items)
      ensures Model(chain, dev) == PlayFrom(old(Model(chain, dev)), id)
      decreases |chain| - id, 0
    {
      dev.Emit(id, dev.Millis());
      isRunning := true;
      assert Model(chain, dev) == Flag(ActionChain.Emit(old(Model(chain, dev)), id, dev.Millis()), id, true);
      PlayNext(dev, chain);
    }

    method PlayDelay(dev: Device, ghost chain: seq<Action>)
      requires Linked(chain) && Owns(chain, dev.items) && id < |chain| && chain[id] == this && kind.Delay?
      modifies chain`isRunning, chain`lastAlert, dev`items, dev`outbox
      ensures Linked(chain) && Owns(chain, dev.items)
      ensures Model(chain, dev) == PlayFrom(old(Model(chain, dev)), id)
      decreases |chain| - id, 0
    {
      isRunning := true;
      assert Model(chain, dev) == Flag(old(Model(chain, dev)), id, true);
      ArmFor(dev, chain, kind.ms);
    }

    method PlayAlert(dev: Device, ghost chain: seq<Action>)
      requires Linked(chain) && Owns(chain, dev.items) && id < |chain| && chain[id] == this && kind.Alert?
      modifies chain`isRunning, chain`lastAlert, dev`items, dev`outbox
      ensures Linked(chain) && Owns(chain, dev.items)
      ensures Model(chain, dev) == PlayFrom(old(Model(chain, dev)), id)
      decreases |chain| - id, 0
    {
      ghost var c := Model(chain, dev);
      isRunning := true;
      var now := dev.Millis();
      var sends := Charge(now);
      assert Model(chain, dev) == Charged(c, id, lastAlert);
      if sends {
        AlertSends(c, id, lastAlert);
        Execute(dev, chain);
      } else {
        AlertWaits(c, id, lastAlert);
        ArmFor(dev, chain, Sub32(lastAlert, now));
      }
    }

    /** Moves `mLastAlert` to the slot this play is charged to. */
    method Charge(now: u32) returns (sends: bool)
      requires kind.Alert?
      modifies this`lastAlert
      ensures sends == SendsNow(old(lastAlert), kind.ms, now)
      ensures lastAlert == NextSlot(old(lastAlert), kind.ms, now)
    {
      if kind.ms == 0 {
        lastAlert := now;
        return true;
      }
      var before := lastAlert;
      var elapsed := Sub32(now, before);
      var amount := elapsed / kind.ms;
      DividingGivesWholePeriods(elapsed, kind.ms);
      sends := amount > 0 && now > before;
      if sends {
        lastAlert := Add32(lastAlert, amount * kind.ms);
      } else {
        lastAlert := Add32(before, kind.ms);
      }
    }

    method ArmFor(dev: Device, ghost chain: seq<Action>, interval: u32)
      requires Linked(chain) && Owns(chain, dev.items) && id < |chain| && chain[id] == this
      modifies dev`items
      ensures Owns(chain, dev.items)
      ensures Model(chain, dev) == ActionChain.SetTimeout(old(Model(chain, dev)), id, interval)
    {
      dev.SetTimeout(this, interval);
      assert Model(chain, dev).timers == ActionChain.SetTimeout(old(Model(chain, dev)), id, interval).timers;
    }

    method PlayNext(dev: Device, ghost chain: seq<Action>)
      requires Linked(chain) && Owns(chain, dev.items) && id < |chain| && chain[id] == this
      modifies chain`isRunning, chain`lastAlert, dev`items, dev`outbox
      ensures Linked(chain) && Owns(chain, dev.items)
      ensures Model(chain, dev) == ActionChain.PlayNext(old(Model(chain, dev)), id)
      decreases |chain| - id - 1, 2
    {
      if isRunning {
        isRunning := false;
        assert Model(chain, dev) == Flag(old(Model(chain, dev)), id, false);
        NextLink(chain, id);
        if next != null {
          next.Play(dev, chain);
        }
      }
    }

    /** `AlertAction::execute`. */
    method Execute(dev: Device, ghost chain: seq<Action>)
      requires Linked(chain) && Owns(chain, dev.items) && id < |chain| && chain[id] == this
      requires kind.Alert?
      modifies chain`isRunning, chain`lastAlert, dev`items, dev`outbox
      ensures Linked(chain) && Owns(chain, dev.items)
      ensures Model(chain, dev) ==
              ActionChain.PlayNext(ActionChain.Emit(old(Model(chain, dev)), id, old(lastAlert)), id)
      decreases |chain| - id - 1, 3
    {
      dev.Emit(id, lastAlert);
      assert Model(chain, dev) == ActionChain.Emit(old(Model(chain, dev)), id, old(lastAlert));
      PlayNext(dev, chain);
    }

    /** The bound callback of this action's pending timeout. */
    method RunCallback(dev: Device, ghost chain: seq<Action>)
      requires Linked(chain) && Owns(chain, dev.items) && id < |chain| && chain[id] == this
      modifies chain`isRunning, chain`lastAlert, dev`items, dev`outbox
      ensures Linked(chain) && Owns(chain, dev.items)
      ensures Model(chain, dev) == Callback(old(Model(chain, dev)), id)
    {
      if kind.Alert? {
        Execute(dev, chain);
      } else {
        Elapse(dev, chain);
      }
    }

    /** The timeout of a delay: `playNext`.  The outbox notes that the delay is over. */
    method Elapse(dev: Device, ghost chain: seq<Action>)
      requires Linked(chain) && Owns(chain, dev.items) && id < |chain| && chain[id] == this
      requires !kind.Alert?
      modifies chain`isRunning, chain`lastAlert, dev`items, dev`outbox
      ensures Linked(chain) && Owns(chain, dev.items)
      ensures Model(chain, dev) == Callback(old(Model(chain, dev)), id)
    {
      dev.Emit(id, dev.Millis());
      assert Model(chain, dev) == ActionChain.Emit(old(Model(chain, dev)), id, dev.Millis());
      PlayNext(dev, chain);
    }

    method Stop(dev: Device, ghost chain: seq<Action>)
      requires Linked(chain) && Owns(chain, dev.items) && id < |chain| && chain[id] == this
      modifies chain`isRunning, dev`items
      ensures Linked(chain) && Owns(chain, dev.items)
      ensures Model(chain, dev) == StopFrom(old(Model(chain, dev)), id)
      decreases |chain| - id
    {
      StopSelf(dev, chain);
      NextLink(chain, id);
      if next != null {
        next.Stop(dev, chain);
      }
    }

    method StopSelf(dev: Device, ghost chain: seq<Action>)
      requires Linked(chain) && Owns(chain, dev.items) && id < |chain| && chain[id] == this
      modifies this`isRunning, dev`items
      ensures Owns(chain, dev.items)
      ensures Model(chain, dev) == Halted(old(Model(chain, dev)), id)
    {
      if !kind.Lambda? {
        dev.CancelTimeout(this);
        KeptIsWithout(chain, old(dev.items), id);
      }
      isRunning := false;
    }

    method IsRunning(ghost chain: seq<Action>, ghost dev: Device) returns (b: bool)
      requires Linked(chain) && Owns(chain, dev.items) && id < |chain| && chain[id] == this
      ensures b == RunningFrom(Model(chain, dev), id)
      decreases |chain| - id
    {
      if isRunning {
        return true;
      }
      NextLink(chain, id);
      if next == null {
        return false;
      }
      b := next.IsRunning(chain, dev);
    }
  }

  /** The list itself: `begin` and `end` frame the linked actions in `chain`. */
  class List {
    var begin: Action?
    var end: Action?
    ghost var chain: seq<Action>

    ghost predicate Valid()
      reads this, chain`next
    {
      && Linked(chain)
      && begin == (if chain == [] then null else chain[0])
      && end == (if chain == [] then null else chain[|chain| - 1])
    }

    constructor ()
      ensures Valid() && chain == []
    {
      begin, end, chain := null, null, [];
    }

    method AddAction(action: Action)
      requires Valid() && action.id == |chain| && action.next == null
      modifies this, chain`next
      ensures Valid() && chain == old(chain) + [action]
    {
      ghost var longer := chain + [action];
      assert forall i :: 0 <= i < |chain| ==> longer[i] == chain[i] && chain[i].id == i;
      if end == null {
        begin := action;
      } else {
        assert end == chain[|chain| - 1];
        end.next := action;
      }
      end := action;
      chain := longer;
    }

    /** `Smart::check`: a trigger is dropped while a pass is under way. */
    method Trigger(dev: Device)
      requires Valid() && Owns(chain, dev.items)
      modifies chain`isRunning, chain`lastAlert, dev`items, dev`outbox
      ensures Valid() && Owns(chain, dev.items)
      ensures Model(chain, dev) == ActionChain.Trigger(old(Model(chain, dev)))
    {
      var busy := IsRunning(dev);
      if !busy && begin != null {
        begin.Play(dev, chain);
      }
    }

    method Stop(dev: Device)
      requires Valid() && Owns(chain, dev.items)
      modifies chain`isRunning, dev`items
      ensures Valid() && Owns(chain, dev.items)
      ensures Model(chain, dev) == StopFrom(old(Model(chain, dev)), 0)
    {
      if begin != null {
        begin.Stop(dev, chain);
      }
    }

    method IsRunning(ghost dev: Device) returns (b: bool)
      requires Valid() && Owns(chain, dev.items)
      ensures b == RunningFrom(Model(chain, dev), 0)
    {
      if begin == null {
        return false;
      }
      b := begin.IsRunning(chain, dev);
    }

    /** `Timer::run` on a due entry: the callback first, then the entry is dropped. */
    method Fire(dev: Device, k: nat)
      requires Valid() && Owns(chain, dev.items) && k < |dev.items|
      modifies chain`isRunning, chain`lastAlert, dev`items, dev`outbox
      ensures Valid() && Owns(chain, dev.items)
      ensures Model(chain, dev) == ActionChain.Fire(old(Model(chain, dev)), k)
    {
      var action := dev.items[k].component;
      CallbackAppends(Model(chain, dev), action.id);
      action.RunCallback(dev, chain);
      DropItem(dev, k);
    }

    method DropItem(dev: Device, k: nat)
      requires Valid() && Owns(chain, dev.items) && k < |dev.items|
      modifies dev`items
      ensures Owns(chain, dev.items)
      ensures var c := old(Model(chain, dev));
              Model(chain, dev) == c.(timers := c.timers[..k] + c.timers[k + 1..])
    {
      ghost var c := Model(chain, dev);
      dev.items := dev.items[..k] + dev.items[k + 1..];
      assert Items(dev.items) == c.timers[..k] + c.timers[k + 1..];
    }
  }

  /** The actions are distinct, numbered in order and linked to their successors. */
  ghost predicate Linked(chain: seq<Action>)
    reads chain`next
  {
    && (forall i :: 0 <= i < |chain| ==> chain[i].id == i)
    && (forall i :: 0 <= i < |chain| ==> chain[i].next == if i + 1 < |chain| then chain[i + 1] else null)
  }

  lemma NextLink(chain: seq<Action>, i: nat)
    requires Linked(chain) && i < |chain|
    ensures i + 1 < |chain| ==> chain[i].next == chain[i + 1] && chain[i + 1].id == i + 1
    ensures i + 1 == |chain| ==> chain[i].next == null
  {
    assert chain[i].next == if i + 1 < |chain| then chain[i + 1] else null;
  }

  /** Every pending entry belongs to this list. */
  ghost predicate Owns(chain: seq<Action>, items: seq<TimerItem>)
  {
    forall k :: 0 <= k < |items| ==> items[k].component.id < |chain| && chain[items[k].component.id] == items[k].component
  }

  ghost function Items(items: seq<TimerItem>): (r: seq<Item>)
    ensures |r| == |items|
    ensures forall k :: 0 <= k < |r| ==> r[k] == Item(items[k].component.id, items[k].due)
  {
    seq(|items|, k requires 0 <= k < |items| => Item(items[k].component.id, items[k].due))
  }

  /** The abstract chain that the objects stand for. */
  ghost function Model(chain: seq<Action>, dev: Device): (c: Chain)
    reads chain, dev
    ensures c.Shaped() && |c.kinds| == |chain|
  {
    Chain(
      seq(|chain|, i requires 0 <= i < |chain| => chain[i].kind),
      seq(|chain|, i requires 0 <= i < |chain| reads chain => chain[i].isRunning),
      seq(|chain|, i requires 0 <= i < |chain| reads chain => chain[i].lastAlert),
      Items(dev.items), dev.outbox, dev.now)
  }

  /** The running flag is up and the alert has been charged to `slot`. */
  ghost function Charged(c: Chain, i: nat, slot: u32): Chain
    requires c.Shaped() && i < |c.kinds|
  {
    Flag(c, i, true).(last := c.last[i := slot])
  }

  lemma AlertSends(c: Chain, i: nat, slot: u32)
    requires c.Shaped() && i < |c.kinds| && c.kinds[i].Alert?
    requires SendsNow(c.last[i], c.kinds[i].ms, c.Clock()) && slot == NextSlot(c.last[i], c.kinds[i].ms, c.Clock())
    ensures PlayFrom(c, i) == ActionChain.PlayNext(ActionChain.Emit(Charged(c, i, slot), i, slot), i)
  {
  }

  lemma AlertWaits(c: Chain, i: nat, slot: u32)
    requires c.Shaped() && i < |c.kinds| && c.kinds[i].Alert?
    requires !SendsNow(c.last[i], c.kinds[i].ms, c.Clock()) && slot == NextSlot(c.last[i], c.kinds[i].ms, c.Clock())
    ensures PlayFrom(c, i) == ActionChain.SetTimeout(Charged(c, i, slot), i, Sub32(slot, c.Clock()))
  {
  }

  /** Playing only ever adds pending timeouts behind the ones already there. */
  lemma {:induction false} PlayAppends(c: Chain, i: nat)
    requires c.Shaped() && i <= |c.kinds|
    ensures c.timers <= PlayFrom(c, i).timers
    decreases |c.kinds| - i
  {
    if i < |c.kinds| && !c.kinds[i].Delay? {
      var slot := if c.kinds[i].Alert? then NextSlot(c.last[i], c.kinds[i].ms, c.Clock()) else c.Clock();
      var d := if c.kinds[i].Alert? then Charged(c, i, slot) else Flag(c, i, true);
      PlayAppends(Flag(ActionChain.Emit(d, i, slot), i, false), i + 1);
    }
  }

  lemma CallbackAppends(c: Chain, i: nat)
    requires c.Shaped() && i < |c.kinds|
    ensures c.timers <= Callback(c, i).timers
  {
    var slot := if c.kinds[i].Alert? then c.last[i] else c.Clock();
    PlayAppends(Flag(ActionChain.Emit(c, i, slot), i, false), i + 1);
  }

  /** Action `i` has been stopped. */
  ghost function Halted(c: Chain, i: nat): Chain
    requires c.Shaped() && i < |c.kinds|
  {
    var d := if c.kinds[i].Lambda? then c else c.(timers := Without(c.timers, i));
    Flag(d, i, false)
  }

  lemma OwnsTail(chain: seq<Action>, items: seq<TimerItem>)
    requires Owns(chain, items) && items != []
    ensures Owns(chain, items[1..]) && Items(items)[1..] == Items(items[1..])
    ensures items[0].component.id < |chain| && chain[items[0].component.id] == items[0].component
  {
    assert forall k :: 0 <= k < |items[1..]| ==> items[1..][k] == items[k + 1];
  }

  lemma OwnsCons(chain: seq<Action>, item: TimerItem, items: seq<TimerItem>)
    requires Owns(chain, items)
    requires item.component.id < |chain| && chain[item.component.id] == item.component
    ensures Owns(chain, [item] + items)
    ensures Items([item] + items) == [Item(item.component.id, item.due)] + Items(items)
  {
  }

  lemma {:induction false} KeptIsWithout(chain: seq<Action>, items: seq<TimerItem>, i: nat)
    requires Owns(chain, items) && i < |chain| && chain[i].id == i
    ensures Items(Kept(items, chain[i])) == Without(Items(items), i)
    ensures Owns(chain, Kept(items, chain[i]))
    decreases |items|
  {
    if items != [] {
      OwnsTail(chain, items);
      KeptIsWithout(chain, items[1..], i);
      if items[0].component != chain[i] {
        OwnsCons(chain, items[0], Kept(items[1..], chain[i]));
      }
    }
  }
}
