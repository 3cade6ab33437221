/**
 Conditions whose `check` has a side effect: a value update may leave a one-shot reset that
 makes exactly one later check fail.  ConditionObjects.dfy proves the objects against these
 functions.
 */
module Conditions {
  import opened Basics

  datatype Test = Higher | Lower | Equals | NotEquals | InRange

  /** A value condition; `value` and the thresholds are exact numbers.  `fn` is what the user's
      function returns if it is called now, where the condition was given one. */
  datatype Cond = Cond(
    id: nat,
    test: Test,
    primary: seq<real>,
    secondary: seq<real>,
    configID: nat,
    scale: real,
    value: real,
    hasValue: bool,
    reset: bool,
    fn: Option<real>)
  {
    /** The value a check looks at; the function goes before the last update. */
    function Current(): Option<real> {
      if fn.Some? then fn else if hasValue then Some(Scaled(value, scale)) else None
    }

    /** A reset can only be pending once a value has arrived. */
    predicate Sane() {
      reset ==> hasValue
    }

    /** The thresholds accept the current value, whatever resets are pending. */
    predicate Met() {
      Current().Some? && Passes(test, primary, secondary, Current().value)
    }
  }

  function Scaled(value: real, scale: real): real
  {
    value * scale
  }

  predicate Passes(test: Test, primary: seq<real>, secondary: seq<real>, v: real)
  {
    && primary != []
    && match test
       case Higher => forall t :: t in primary ==> v > t
       case Lower => forall t :: t in primary ==> v < t
       case Equals => v in primary
       case NotEquals => v !in primary
       case InRange =>
         && secondary != []
         && (forall t :: t in primary ==> t <= v) && (forall t :: t in secondary ==> v < t)
  }

  /** What each test means for one threshold, and that without thresholds none accepts. */
  lemma TestsOfOneThreshold(t: real, u: real, v: real)
    ensures Passes(Higher, [t], [], v) <==> v > t
    ensures Passes(Lower, [t], [], v) <==> v < t
    ensures Passes(Equals, [t], [], v) <==> v == t
    ensures Passes(NotEquals, [t], [], v) <==> v != t
    ensures Passes(InRange, [t], [u], v) <==> t <= v < u
    ensures forall test, ss :: !Passes(test, [], ss, v)
    ensures !Passes(InRange, [t], [], v)
  {
    assert t in [t] && u in [u];
  }

  /** And for more: being equal takes one threshold, everything else all of them. */
  lemma MoreThresholds(test: Test, ps: seq<real>, qs: seq<real>, ss: seq<real>, us: seq<real>, v: real)
    requires ps != [] && qs != []
    ensures Passes(test, ps + qs, ss, v) <==>
            if test.Equals? then Passes(test, ps, ss, v) || Passes(test, qs, ss, v)
            else Passes(test, ps, ss, v) && Passes(test, qs, ss, v)
    ensures ss != [] && us != [] ==>
              (Passes(InRange, ps, ss + us, v) <==> Passes(InRange, ps, ss, v) && Passes(InRange, ps, us, v))
  {
    assert forall t :: t in ps + qs <==> t in ps || t in qs;
    assert forall t :: t in ss + us <==> t in ss || t in us;
  }

  /** The functions return something else from now on: `later` has their answers by position. */
  function Reread(cs: seq<Cond>, later: seq<real>): (es: seq<Cond>)
    ensures |es| == |cs|
    ensures forall i :: 0 <= i < |cs| ==> es[i] == cs[i].(fn := es[i].fn) && (cs[i].fn.None? ==> es[i].fn.None?)
  {
    seq(|cs|, i requires 0 <= i < |cs| =>
      if i < |later| && cs[i].fn.Some? then cs[i].(fn := Some(later[i])) else cs[i])
  }

  function Updated(c: Cond, configID: nat, value: real, trigger: bool): (r: Cond)
    ensures c.Sane() ==> r.Sane()
  {
    if c.configID != configID then c else c.(value := value, hasValue := true, reset := trigger)
  }

  /** The outcome of one check and the condition it leaves behind. */
  function CheckOne(c: Cond): (r: (bool, Cond))
  {
    if c.Current().None? then (false, c)
    else if c.reset then (false, c.(reset := false))
    else (c.Met(), c)
  }

  function CheckAll(cs: seq<Cond>): (r: (bool, seq<Cond>))
    ensures |r.1| == |cs|
  {
    if cs == [] then (true, [])
    else
      var (ok, c) := CheckOne(cs[0]);
      if !ok then (false, [c] + cs[1..])
      else
        var (rest, tail) := CheckAll(cs[1..]);
        (rest, [c] + tail)
  }

  function CheckAny(cs: seq<Cond>): (r: (bool, seq<Cond>))
    ensures |r.1| == |cs|
  {
    if cs == [] then (false, [])
    else
      var (ok, c) := CheckOne(cs[0]);
      if ok then (true, [c] + cs[1..])
      else
        var (rest, tail) := CheckAny(cs[1..]);
        (rest, [c] + tail)
  }

  function CheckGroup(all: bool, cs: seq<Cond>): (r: (bool, seq<Cond>))
    ensures |r.1| == |cs|
  {
    if all then CheckAll(cs) else CheckAny(cs)
  }

  /** `check` called `m` times, keeping what it leaves behind. */
  function After(all: bool, cs: seq<Cond>, m: nat): (r: seq<Cond>)
    ensures |r| == |cs|
    decreases m
  {
    if m == 0 then cs else After(all, CheckGroup(all, cs).1, m - 1)
  }

  /** The outcome of the check number `m`, counting from 0. */
  predicate Outcome(all: bool, cs: seq<Cond>, m: nat)
  {
    CheckGroup(all, After(all, cs, m)).0
  }

  predicate AllSane(cs: seq<Cond>)
  {
    forall i :: 0 <= i < |cs| ==> cs[i].Sane()
  }

  predicate AllMet(cs: seq<Cond>)
  {
    forall i :: 0 <= i < |cs| ==> cs[i].Met()
  }

  /** Whether a condition is met does not depend on its pending reset. */
  lemma ResetsDoNotMatter(cs: seq<Cond>, ds: seq<Cond>)
    requires |cs| == |ds|
    requires forall i :: 0 <= i < |cs| ==> ds[i] == cs[i] || ds[i] == cs[i].(reset := false)
    ensures forall i :: 0 <= i < |cs| ==> ds[i].Met() == cs[i].Met()
  {
  }

  /** How many resets are pending. */
  function Pending(cs: seq<Cond>): nat
  {
    if cs == [] then 0 else (if cs[0].reset then 1 else 0) + Pending(cs[1..])
  }

  // ---------------------------------------------------------------- all conditions

  /** The first condition that is not both met and free of resets, or the length. */
  function FirstRefusal(cs: seq<Cond>): (i: nat)
    ensures i <= |cs|
    ensures i < |cs| ==> !cs[i].Met() || cs[i].reset
    ensures forall j :: 0 <= j < i ==> cs[j].Met() && !cs[j].reset
  {
    if cs == [] || !cs[0].Met() || cs[0].reset then 0 else 1 + FirstRefusal(cs[1..])
  }

  function ClearedAt(cs: seq<Cond>, i: nat): (r: seq<Cond>)
    ensures |r| == |cs|
  {
    if i < |cs| then cs[i := cs[i].(reset := false)] else cs
  }

  lemma TailIsSane(cs: seq<Cond>)
    requires AllSane(cs) && cs != []
    ensures cs[0].Sane() && AllSane(cs[1..])
  {
    assert forall j :: 0 <= j < |cs| - 1 ==> cs[1..][j] == cs[j + 1];
  }

  lemma CheckOneMeaning(c: Cond)
    requires c.Sane()
    ensures CheckOne(c).0 <==> c.Met() && !c.reset
    ensures CheckOne(c).1 == c.(reset := false)
  {
  }

  lemma ClearedAtCons(cs: seq<Cond>, i: nat)
    requires cs != []
    ensures ClearedAt(cs, 0) == [cs[0].(reset := false)] + cs[1..]
    ensures ClearedAt(cs, i + 1) == [cs[0]] + ClearedAt(cs[1..], i)
  {
  }

  /** One check of all conditions stops at the first that refuses and uses up its reset. */
  lemma {:induction false} CheckAllMeaning(cs: seq<Cond>)
    requires AllSane(cs)
    ensures CheckAll(cs) == (FirstRefusal(cs) == |cs|, ClearedAt(cs, FirstRefusal(cs)))
    decreases |cs|
  {
    if cs != [] {
      TailIsSane(cs);
      CheckAllMeaning(cs[1..]);
      CheckOneMeaning(cs[0]);
      ClearedAtCons(cs, FirstRefusal(cs[1..]));
    }
  }

  lemma {:induction false} PendingDrops(cs: seq<Cond>, i: nat)
    requires i < |cs|
    ensures Pending(ClearedAt(cs, i)) == Pending(cs) - if cs[i].reset then 1 else 0
    decreases i
  {
    if i > 0 {
      PendingDrops(cs[1..], i - 1);
      assert ClearedAt(cs, i)[1..] == ClearedAt(cs[1..], i - 1);
    } else {
      assert ClearedAt(cs, 0)[1..] == cs[1..];
    }
  }

  lemma {:induction false} NonePending(cs: seq<Cond>)
    ensures Pending(cs) == 0 <==> forall i :: 0 <= i < |cs| ==> !cs[i].reset
    decreases |cs|
  {
    if cs != [] {
      NonePending(cs[1..]);
      assert cs == [cs[0]] + cs[1..];
    }
  }

  lemma FirstOutcome(cs: seq<Cond>)
    ensures FirstRefusal(cs) == |cs| <==> AllMet(cs) && Pending(cs) == 0
  {
    NonePending(cs);
  }

  /** What one check leaves: as many conditions are met, and one reset less is pending. */
  lemma OneResetLess(cs: seq<Cond>, ds: seq<Cond>)
    requires AllSane(cs) && ds == ClearedAt(cs, FirstRefusal(cs))
    ensures AllSane(ds) && AllMet(ds) == AllMet(cs)
    ensures AllMet(cs) ==> Pending(ds) == if Pending(cs) == 0 then 0 else Pending(cs) - 1
  {
    ResetsDoNotMatter(cs, ds);
    FirstOutcome(cs);
    if FirstRefusal(cs) < |cs| {
      PendingDrops(cs, FirstRefusal(cs));
    }
  }

  /** Re-arming: when every condition is met and `k` resets are pending, exactly `k` checks
      fail and every later one succeeds; when some condition is not met none succeeds. */
  lemma {:induction false} AllSettles(cs: seq<Cond>, m: nat)
    requires AllSane(cs)
    ensures Outcome(true, cs, m) <==> AllMet(cs) && Pending(cs) <= m
    decreases m
  {
    CheckAllMeaning(cs);
    if m == 0 {
      FirstOutcome(cs);
    } else {
      var ds := ClearedAt(cs, FirstRefusal(cs));
      OneResetLess(cs, ds);
      AllSettles(ds, m - 1);
    }
  }

  // ---------------------------------------------------------------- any condition

  /** The first condition that is met with no reset pending, or the length. */
  function FirstReady(cs: seq<Cond>): (i: nat)
    ensures i <= |cs|
    ensures i < |cs| ==> cs[i].Met() && !cs[i].reset
    ensures forall j :: 0 <= j < i ==> !(cs[j].Met() && !cs[j].reset)
  {
    if cs == [] || (cs[0].Met() && !cs[0].reset) then 0 else 1 + FirstReady(cs[1..])
  }

  /** The first condition that is met, or the length. */
  function FirstMet(cs: seq<Cond>): (i: nat)
    ensures i <= |cs|
    ensures i < |cs| ==> cs[i].Met()
    ensures forall j :: 0 <= j < i ==> !cs[j].Met()
  {
    if cs == [] || cs[0].Met() then 0 else 1 + FirstMet(cs[1..])
  }

  function Cleared(cs: seq<Cond>, upTo: nat): (r: seq<Cond>)
    ensures |r| == |cs|
  {
    seq(|cs|, i requires 0 <= i < |cs| => if i < upTo then cs[i].(reset := false) else cs[i])
  }

  lemma ClearedCons(cs: seq<Cond>, i: nat)
    requires cs != []
    ensures Cleared(cs, 0) == cs
    ensures Cleared(cs, i + 1) == [cs[0].(reset := false)] + Cleared(cs[1..], i)
  {
  }

  /** One check of any condition stops at the first ready one and uses up every reset
      before it. */
  lemma {:induction false} CheckAnyMeaning(cs: seq<Cond>)
    requires AllSane(cs)
    ensures CheckAny(cs).0 <==> FirstReady(cs) < |cs|
    ensures CheckAny(cs).1 == Cleared(cs, FirstReady(cs))
    decreases |cs|
  {
    if cs != [] {
      TailIsSane(cs);
      CheckAnyMeaning(cs[1..]);
      CheckOneMeaning(cs[0]);
      ClearedCons(cs, FirstReady(cs[1..]));
      assert [cs[0]] + cs[1..] == cs;
    }
  }

  /** After one check the outcome no longer depends on resets: it says whether any condition
      is met.  The first check may still miss those that are pending. */
  lemma {:induction false} AnySettles(cs: seq<Cond>, m: nat)
    requires AllSane(cs)
    ensures Outcome(false, cs, m) <==>
            exists i :: 0 <= i < |cs| && cs[i].Met() && (m == 0 ==> !cs[i].reset)
    decreases m
  {
    CheckAnyMeaning(cs);
    if m > 0 {
      var ds := CheckAny(cs).1;
      AnySettles(ds, m - 1);
      var i := FirstReady(cs);
      assert ds == Cleared(cs, i);
      ResetsDoNotMatter(cs, ds);
      if i < |cs| {
        assert ds[i].Met() && !ds[i].reset;
      }
    }
  }

  /** Logging an activated any-condition checks its children again, right after the check
      that succeeded, and reports the first that succeeds.  If the users' functions answer as
      they did in the check, this second pass uses up no reset, but it blames the first condition that is met, which is the one that caused
      the activation exactly when no condition met before it had a pending reset. */
  lemma LoggingConsumesNothing(cs: seq<Cond>)
    requires AllSane(cs) && CheckAny(cs).0
    ensures var ds := CheckAny(cs).1;
            && CheckAny(ds) == (true, ds)
            && FirstReady(ds) == FirstMet(cs)
            && (FirstReady(ds) == FirstReady(cs)
                <==> forall j :: 0 <= j < FirstReady(cs) && cs[j].reset ==> !cs[j].Met())
  {
    CheckAnyMeaning(cs);
    var i := FirstReady(cs);
    var ds := Cleared(cs, i);
    CheckAnyMeaning(ds);
    ClearedReady(cs, i);
    assert Cleared(ds, FirstReady(ds)) == ds;
  }

  /** Once the resets before the first ready condition are gone, "ready" is "met". */
  lemma ClearedReady(cs: seq<Cond>, i: nat)
    requires i == FirstReady(cs) < |cs|
    ensures FirstReady(Cleared(cs, i)) == FirstMet(cs) <= i
  {
    var ds := Cleared(cs, i);
    var f, r := FirstMet(cs), FirstReady(ds);
    LeastMet(cs, i, f);
    AtCleared(cs, i, f, ds);
    LeastReady(ds, f, r);
    AtCleared(cs, i, r, ds);
    LeastMet(cs, r, f);
  }

  lemma AtCleared(cs: seq<Cond>, i: nat, k: nat, ds: seq<Cond>)
    requires k < |cs| && ds == Cleared(cs, i)
    ensures ds[k].Met() == cs[k].Met() && ds[k].reset == (k >= i && cs[k].reset)
  {
  }

  lemma LeastMet(cs: seq<Cond>, k: nat, f: nat)
    requires k < |cs| && cs[k].Met() && f == FirstMet(cs)
    ensures f <= k
  {
  }

  lemma LeastReady(cs: seq<Cond>, k: nat, r: nat)
    requires k < |cs| && cs[k].Met() && !cs[k].reset && r == FirstReady(cs)
    ensures r <= k
  {
  }

  /** If the functions answer differently, the second pass uses up a reset exactly if one is
      pending behind the activating condition and before the first that is then ready. */
  lemma LoggingWithOtherAnswers(cs: seq<Cond>, later: seq<real>)
    requires AllSane(cs) && CheckAny(cs).0
    ensures var es := Reread(CheckAny(cs).1, later);
            && (CheckAny(es).0 <==> FirstReady(es) < |es|)
            && (CheckAny(es).1 == es <==> forall j :: FirstReady(cs) < j < FirstReady(es) ==> !es[j].reset)
  {
    CheckAnyMeaning(cs);
    var i := FirstReady(cs);
    var es := Reread(Cleared(cs, i), later);
    CheckAnyMeaning(es);
    NoneCleared(es, FirstReady(es));
  }

  lemma NoneCleared(es: seq<Cond>, n: nat)
    requires n <= |es|
    ensures Cleared(es, n) == es <==> forall j :: 0 <= j < n ==> !es[j].reset
  {
    if Cleared(es, n) == es {
      forall j | 0 <= j < n
        ensures !es[j].reset
      {
        assert Cleared(es, n)[j] == es[j];
      }
    }
  }

  /** The first condition activates by its function, which then answers differently: the log
      names nothing and uses up the reset of the second. */
  lemma LogMayUseUpAReset()
    ensures var a := Cond(1, Higher, [0.0], [], 7, 1.0, 0.0, false, false, Some(5.0));
            var b := Cond(2, Higher, [0.0], [], 7, 1.0, 5.0, true, true, None);
            var es := Reread(CheckAny([a, b]).1, [-5.0]);
            CheckAny([a, b]).0 && !CheckAny(es).0 && es[1].reset && !CheckAny(es).1[1].reset
  {
    var a := Cond(1, Higher, [0.0], [], 7, 1.0, 0.0, false, false, Some(5.0));
    var b := Cond(2, Higher, [0.0], [], 7, 1.0, 5.0, true, true, None);
    assert a.Met() && FirstReady([a, b]) == 0;
    CheckAnyMeaning([a, b]);
    assert Cleared([a, b], 0) == [a, b];
    var es := Reread([a, b], [-5.0]);
    var c := a.(fn := Some(-5.0));
    assert es == [c, b];
    assert !c.Met() by { assert 0.0 in [0.0]; }
    assert es[1..] == [b];
    CheckAnyMeaning(es);
    assert FirstReady(es) == 2;
  }

  /** Two conditions are met, the first has just been updated with a trigger: the second one
      activates, and the log names the first. */
  lemma LogMayBlameTheWrongCondition()
    ensures var a := Cond(1, Higher, [0.0], [], 7, 1.0, 5.0, true, true, None);
            var b := a.(id := 2, reset := false);
            CheckAny([a, b]).0 && FirstReady([a, b]) == 1 && FirstReady(CheckAny([a, b]).1) == 0
  {
    var a := Cond(1, Higher, [0.0], [], 7, 1.0, 5.0, true, true, None);
    var b := a.(id := 2, reset := false);
    assert 5.0 * 1.0 == 5.0;
    assert b.Met() && a.Met();
    assert [a, b][1..] == [b];
    LoggingConsumesNothing([a, b]);
  }
}
