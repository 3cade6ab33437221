/** The condition objects: fields updated in place, loops that return early. */
module ConditionObjects {
  import opened Basics
  import opened Conditions

  class ValueCondition {
    const id: nat
    const test: Test
    var primary: seq<real>
    var secondary: seq<real>
    var configID: nat
    var scale: real
    var value: real
    var hasValue: bool
    var reset: bool
    /** What the user's function returns when it is called now. */
    var fn: Option<real>

    constructor (id: nat, test: Test, primary: seq<real>, secondary: seq<real>, configID: nat, scale: real, fn: Option<real>)
      ensures View() == Cond(id, test, primary, secondary, configID, scale, 0.0, false, false, fn)
    {
      this.id, this.test, this.primary, this.secondary := id, test, primary, secondary;
      this.configID, this.scale := configID, scale;
      value, hasValue, reset := 0.0, false, false;
      this.fn := fn;
    }

    function View(): Cond
      reads this
    {
      Cond(id, test, primary, secondary, configID, scale, value, hasValue, reset, fn)
    }

    method UpdateValue(configID: nat, value: real, trigger: bool)
      modifies this`value, this`hasValue, this`reset
      ensures View() == Updated(old(View()), configID, value, trigger)
    {
      if this.configID != configID {
        return;
      }
      this.value := value;
      hasValue := true;
      reset := trigger;
    }

    /** The user's function, if there is one, returns `v` from now on. */
    method Sense(v: real)
      modifies this`fn
      ensures View() == old(View()).(fn := if old(fn).Some? then Some(v) else None)
    {
      if fn.Some? {
        fn := Some(v);
      }
    }

    method Check() returns (b: bool)
      modifies this`reset
      ensures (b, View()) == CheckOne(old(View()))
    {
      var v;
      if fn.Some? {
        v := fn.value;
      } else if hasValue {
        v := Scaled(value, scale);
      } else {
        return false;
      }
      ghost var before := View();
      b := CheckThreshold(v);
      assert View() == before.(reset := false);
      assert b == (!before.reset && before.Met());
    }

    method CheckThreshold(v: real) returns (b: bool)
      modifies this`reset
      ensures old(reset) ==> !b
      ensures !old(reset) ==> b == Passes(test, primary, secondary, v)
      ensures !reset
    {
      if reset {
        reset := false;
        return false;
      }
      if primary == [] || (test.InRange? && secondary == []) {
        return false;
      }
      match test {
        case Equals => b := Find(primary, v);
        case NotEquals =>
          var found := Find(primary, v);
          b := !found;
        case InRange =>
          b := AllOnOneSide(primary, v, InRange);
          if b {
            b := AllOnOneSide(secondary, v, Lower);
          }
        case side => b := AllOnOneSide(primary, v, side);
      }
    }

    static method Find(thresholds: seq<real>, v: real) returns (b: bool)
      ensures b <==> v in thresholds
    {
      for i := 0 to |thresholds|
        invariant v !in thresholds[..i]
      {
        if v == thresholds[i] {
          return true;
        }
      }
      return false;
    }

    /** Every threshold has `v` on the wanted side: below it, above it, or not below (ranges). */
    static method AllOnOneSide(thresholds: seq<real>, v: real, side: Test) returns (b: bool)
      ensures b <==> forall t :: t in thresholds ==> if side.Higher? then v > t else if side.Lower? then v < t else t <= v
    {
      for i := 0 to |thresholds|
        invariant forall k :: 0 <= k < i ==>
                    if side.Higher? then v > thresholds[k] else if side.Lower? then v < thresholds[k] else thresholds[k] <= v
      {
        var fails := if side.Higher? then v <= thresholds[i] else if side.Lower? then v >= thresholds[i] else v < thresholds[i];
        if fails {
          assert thresholds[i] in thresholds;
          return false;
        }
      }
      return true;
    }
  }

  /** An `AndCondition` or an `OrCondition` over value conditions. */
  class Group {
    const all: bool
    var conditions: seq<ValueCondition>

    constructor (all: bool, conditions: seq<ValueCondition>)
      ensures this.all == all && this.conditions == conditions
    {
      this.all, this.conditions := all, conditions;
    }

    /** The members are distinct, and a pending reset implies a value. */
    ghost predicate Valid()
      reads this, conditions
    {
      && (forall i, j :: 0 <= i < j < |conditions| ==> conditions[i] != conditions[j])
      && AllSane(View())
    }

    ghost function View(): (cs: seq<Cond>)
      reads this, conditions
      ensures |cs| == |conditions|
    {
      seq(|conditions|, i requires 0 <= i < |conditions| reads this, conditions => conditions[i].View())
    }

    method Check() returns (b: bool)
      requires Valid()
      modifies conditions`reset
      ensures Valid()
      ensures (b, View()) == CheckGroup(all, old(View()))
    {
      if all {
        b := CheckEvery();
      } else {
        b := CheckSome();
      }
    }

    /** The users' functions of the members return `later` from now on. */
    method SenseAll(later: seq<real>)
      requires Valid()
      modifies conditions`fn
      ensures Valid() && View() == Reread(old(View()), later)
    {
      ghost var cs := View();
      for i := 0 to |conditions|
        invariant forall k :: 0 <= k < |conditions| ==>
                    conditions[k].View() == if k < i then Reread(cs, later)[k] else cs[k]
      {
        if i < |later| {
          conditions[i].Sense(later[i]);
        }
      }
      assert View() == Reread(cs, later);
    }

    /** Checking member `i` answers whether it is ready and uses up its reset. */
    method CheckMember(i: nat) returns (b: bool)
      requires Valid() && i < |conditions|
      modifies conditions`reset
      ensures Valid()
      ensures View() == ClearedAt(old(View()), i)
      ensures var c := old(View())[i]; b <==> c.Met() && !c.reset
    {
      assert View()[i] == conditions[i].View() && View()[i].Sane();
      b := conditions[i].Check();
      assert View() == ClearedAt(old(View()), i);
    }

    method CheckEvery() returns (b: bool)
      requires Valid()
      modifies conditions`reset
      ensures Valid()
      ensures (b, View()) == CheckAll(old(View()))
    {
      ghost var cs := View();
      CheckAllMeaning(cs);
      for i := 0 to |conditions|
        invariant Valid() && View() == cs
        invariant i <= FirstRefusal(cs)
      {
        var ok := CheckMember(i);
        assert ok ==> ClearedAt(cs, i) == cs;
        if !ok {
          return false;
        }
      }
      return true;
    }

    method CheckSome() returns (b: bool)
      requires Valid()
      modifies conditions`reset
      ensures Valid()
      ensures (b, View()) == CheckAny(old(View()))
    {
      ghost var cs := View();
      CheckAnyMeaning(cs);
      for i := 0 to |conditions|
        invariant Valid() && View() == Cleared(cs, i)
        invariant i <= FirstReady(cs)
      {
        var ok := CheckMember(i);
        assert Cleared(cs, i)[i] == cs[i];
        if ok {
          assert View() == Cleared(cs, i);
          return true;
        }
        assert ClearedAt(Cleared(cs, i), i) == Cleared(cs, i + 1);
      }
      return false;
    }
  }
}
