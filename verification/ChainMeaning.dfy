/** What one uninterrupted stretch of playing amounts to, without recursion over the links. */
module ChainMeaning {
  import opened Basics
  import opened ActionChain

  /** No action is running and nothing is pending. */
  predicate Idle(c: Chain)
  {
    c.Shaped() && (forall j :: 0 <= j < |c.running| ==> !c.running[j]) && c.timers == []
  }

  /** Action `i` has to wait before the pass can go on. */
  predicate Suspends(c: Chain, i: nat)
    requires c.Shaped() && i < |c.kinds|
  {
    match c.kinds[i]
    case Lambda => false
    case Delay(_) => true
    case Alert(ms) => !SendsNow(c.last[i], ms, c.Clock())
  }

  /** How long a suspending action asks the timer to wait. */
  function Interval(c: Chain, i: nat): u32
    requires c.Shaped() && i < |c.kinds|
  {
    match c.kinds[i]
    case Lambda => 0
    case Delay(ms) => ms
    case Alert(ms) => Sub32(NextSlot(c.last[i], ms, c.Clock()), c.Clock())
  }

  /** The slot that action `i` is charged to when it is played. */
  function Slot(c: Chain, i: nat): u32
    requires c.Shaped() && i < |c.kinds|
  {
    if c.kinds[i].Alert? then NextSlot(c.last[i], c.kinds[i].ms, c.Clock()) else c.Clock()
  }

  /** The first suspending action at or after `i`, or the length of the list. */
  function StopAt(c: Chain, i: nat): (j: nat)
    requires c.Shaped() && i <= |c.kinds|
    ensures i <= j <= |c.kinds|
    ensures j < |c.kinds| ==> Suspends(c, j)
    ensures forall k :: i <= k < j ==> !Suspends(c, k)
    decreases |c.kinds| - i
  {
    if i == |c.kinds| || Suspends(c, i) then i else StopAt(c, i + 1)
  }

  /** The effects of actions `i..j`, all of them now. */
  function Effects(c: Chain, i: nat, j: nat): (e: seq<Effect>)
    requires c.Shaped() && i <= j <= |c.kinds|
    ensures |e| == j - i
  {
    seq(j - i, k requires 0 <= k < j - i => Effect(i + k, Slot(c, i + k), c.now))
  }

  function NewLast(c: Chain, i: nat, j: nat): (s: seq<u32>)
    requires c.Shaped() && i <= j <= |c.kinds|
    ensures |s| == |c.kinds|
  {
    seq(|c.kinds|, k requires 0 <= k < |c.kinds| =>
      if i <= k <= j && c.kinds[k].Alert? then Slot(c, k) else c.last[k])
  }

  function Armed(c: Chain, j: nat): seq<Item>
    requires c.Shaped() && j <= |c.kinds|
  {
    if j < |c.kinds| && Interval(c, j) != DONT_RUN then [Item(j, Add32(c.Clock(), Interval(c, j)))] else []
  }

  /** Where a pass entering at `i` comes to rest. */
  function Rest(c: Chain, i: nat): (r: Chain)
    requires c.Shaped() && i <= |c.kinds|
  {
    var j := StopAt(c, i);
    Chain(c.kinds,
          if j < |c.kinds| then c.running[j := true] else c.running,
          NewLast(c, i, j),
          c.timers + Armed(c, j),
          c.trace + Effects(c, i, j),
          c.now)
  }

  /** Playing action after action through the links is the same as jumping to the first
      action that suspends: everything before it takes effect, in order, at once. */
  lemma {:induction false} PlayRunsToFirstSuspension(c: Chain, i: nat)
    requires c.Shaped() && i <= |c.kinds|
    requires forall j :: i <= j < |c.kinds| ==> !c.running[j]
    ensures PlayFrom(c, i) == Rest(c, i)
    decreases |c.kinds| - i
  {
    if i == |c.kinds| || Suspends(c, i) {
      assert Effects(c, i, i) == [];
      assert c.trace + [] == c.trace && c.timers + [] == c.timers;
      assert PlayFrom(c, i).last == NewLast(c, i, i);
    } else {
      var d := Passed(c, i);
      PassesThrough(c, i);
      PlayRunsToFirstSuspension(d, i + 1);
      SameRest(c, d, i);
    }
  }

  /** The chain after a non-suspending action `i` has taken effect and handed over. */
  function Passed(c: Chain, i: nat): (d: Chain)
    requires c.Shaped() && i < |c.kinds|
    ensures d.Shaped() && d.kinds == c.kinds
  {
    var last := if c.kinds[i].Alert? then c.last[i := Slot(c, i)] else c.last;
    c.(last := last, trace := c.trace + [Effect(i, Slot(c, i), c.now)])
  }

  lemma PassesThrough(c: Chain, i: nat)
    requires c.Shaped() && i < |c.kinds| && !c.running[i] && !Suspends(c, i)
    ensures PlayFrom(c, i) == PlayFrom(Passed(c, i), i + 1)
  {
    assert c.running[i := true][i := false] == c.running;
  }

  lemma {:induction false} SameStop(c: Chain, d: Chain, i: nat, m: nat)
    requires c.Shaped() && i < m <= |c.kinds| && d == Passed(c, i)
    ensures StopAt(d, m) == StopAt(c, m)
    decreases |c.kinds| - m
  {
    if m < |c.kinds| {
      assert Suspends(d, m) == Suspends(c, m);
      if !Suspends(c, m) {
        SameStop(c, d, i, m + 1);
      }
    }
  }

  lemma SameRest(c: Chain, d: Chain, i: nat)
    requires c.Shaped() && i < |c.kinds| && !Suspends(c, i) && d == Passed(c, i)
    ensures Rest(d, i + 1) == Rest(c, i)
  {
    SameStop(c, d, i, i + 1);
    var j := StopAt(c, i);
    assert j == StopAt(d, i + 1);
    assert forall k :: i < k < |c.kinds| ==> Slot(d, k) == Slot(c, k);
    assert Effects(c, i, j) == [Effect(i, Slot(c, i), c.now)] + Effects(d, i + 1, j);
    assert d.trace + Effects(d, i + 1, j) == c.trace + Effects(c, i, j);
    assert NewLast(d, i + 1, j) == NewLast(c, i, j);
  }
}
