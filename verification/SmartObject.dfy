/** The automation object: a condition group, an edge detector and an action list. */
module SmartObject {
  import opened Conditions
  import opened ConditionObjects
  import opened ActionChain
  import opened ActionList
  import SmartRuns

  class Deduplicator {
    var hasValue: bool
    var lastValue: bool

    constructor ()
      ensures View() == SmartRuns.Dedup(false, false)
    {
      hasValue, lastValue := false, false;
    }

    function View(): SmartRuns.Dedup<bool>
      reads this
    {
      SmartRuns.Dedup(hasValue, lastValue)
    }

    method Next(value: bool) returns (accepted: bool)
      modifies this
      ensures (accepted, View()) == SmartRuns.Next(old(View()), value)
    {
      if hasValue {
        if lastValue == value {
          return false;
        }
      }
      hasValue := true;
      lastValue := value;
      return true;
    }
  }

  class Smart {
    const condition: Group
    const dedup: Deduplicator
    const actions: List
    const valueChange: bool

    constructor (condition: Group, dedup: Deduplicator, actions: List, valueChange: bool)
      ensures this.condition == condition && this.dedup == dedup
      ensures this.actions == actions && this.valueChange == valueChange
    {
      this.condition, this.dedup, this.actions, this.valueChange := condition, dedup, actions, valueChange;
    }

    ghost predicate Valid(dev: Device)
      reads condition, condition.conditions, actions, actions.chain`next, dev`items
    {
      condition.Valid() && actions.Valid() && Owns(actions.chain, dev.items)
    }

    ghost function View(dev: Device): (s: SmartRuns.Smart)
      reads condition, condition.conditions, dedup, actions, actions.chain, dev
      ensures s.chain.Shaped()
    {
      SmartRuns.Smart(condition.all, condition.View(), valueChange, dedup.View(), Model(actions.chain, dev))
    }

    /** `run`; `later` is what the users' functions answer if the run gets as far as the log. */
    method Run(dev: Device, later: seq<real>)
      requires Valid(dev)
      modifies condition.conditions`reset, condition.conditions`fn, dedup
      modifies actions.chain`isRunning, actions.chain`lastAlert, dev`items, dev`outbox
      ensures Valid(dev)
      ensures View(dev) == SmartRuns.RunOnce(old(View(dev)), later)
    {
      ghost var before := View(dev);
      var tries := Decide();
      assert Model(actions.chain, dev) == before.chain;
      if tries {
        LogAndTrigger(dev, later);
      }
      assert View(dev).conditions == SmartRuns.RunOnce(before, later).conditions;
    }

    /** The check and the edge detector: does this run get as far as the log? */
    method Decide() returns (tries: bool)
      requires condition.Valid()
      modifies condition.conditions`reset, dedup
      ensures condition.Valid()
      ensures var check := CheckGroup(condition.all, old(condition.View()));
              var (changed, next) := SmartRuns.Next(old(dedup.View()), check.0);
              && condition.View() == check.1
              && dedup.View() == (if valueChange then next else old(dedup.View()))
              && (tries <==> check.0 && (valueChange ==> changed))
    {
      var cond := condition.Check();
      if valueChange {
        var changed := dedup.Next(cond);
        if !changed {
          return false;
        }
      }
      return cond;
    }

    /** Logging an any-group checks its children once more; then the pass may start. */
    method LogAndTrigger(dev: Device, later: seq<real>)
      requires Valid(dev)
      modifies condition.conditions`reset, condition.conditions`fn
      modifies actions.chain`isRunning, actions.chain`lastAlert, dev`items, dev`outbox
      ensures Valid(dev)
      ensures condition.View() == SmartRuns.Logged(condition.all, old(condition.View()), later)
      ensures Model(actions.chain, dev) == Trigger(old(Model(actions.chain, dev)))
    {
      Log(dev, later);
      StartPass(dev);
    }

    /** `Smart::check` leaves the conditions alone. */
    method StartPass(dev: Device)
      requires Valid(dev)
      modifies actions.chain`isRunning, actions.chain`lastAlert, dev`items, dev`outbox
      ensures Valid(dev) && condition.View() == old(condition.View())
      ensures Model(actions.chain, dev) == Trigger(old(Model(actions.chain, dev)))
    {
      actions.Trigger(dev);
    }

    /** And logging leaves the list alone. */
    method Log(ghost dev: Device, later: seq<real>)
      requires Valid(dev)
      modifies condition.conditions`reset, condition.conditions`fn
      ensures Valid(dev) && Model(actions.chain, dev) == old(Model(actions.chain, dev))
      ensures condition.View() == SmartRuns.Logged(condition.all, old(condition.View()), later)
    {
      if !condition.all {
        condition.SenseAll(later);
        var _ := condition.Check();
      }
    }
  }
}
