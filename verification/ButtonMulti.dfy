/** Multi-click recognition over every run of samples, in both modes. */
module ButtonMulti {
  import opened Basics
  import opened Flags
  import opened ButtonModel
  import opened ButtonRuns

  /** The falling edges among the samples. */
  function FallCount(b: Btn, xs: seq<Reading>): nat
  {
    if xs == [] then 0
    else FallCount(b, xs[..|xs| - 1]) + if Falls(b, xs, |xs| - 1) then 1 else 0
  }

  /** At which samples MULTI is reported. */
  function Multis(b: Btn, xs: seq<Reading>): (ms: seq<bool>)
    ensures |ms| == |xs|
  {
    if xs == [] then [] else Multis(b, xs[..|xs| - 1]) + [ClickRun(b, xs).1]
  }

  lemma {:induction false} MultisAreReported(b: Btn, xs: seq<Reading>, i: nat)
    requires Clean(b) && i < |xs|
    ensures Multis(b, xs)[i] <==> Multi in Reported(b, xs, i)
    decreases |xs|
  {
    ReportedMeaning(b, xs, i);
    if i < |xs| - 1 {
      var front := xs[..|xs| - 1];
      assert front[..i + 1] == xs[..i + 1];
      MultisAreReported(b, front, i);
      ReportedMeaning(b, front, i);
    } else {
      assert xs[..i + 1] == xs;
    }
  }

  /** How many samples reported MULTI. */
  function Trues(ms: seq<bool>): nat
  {
    if ms == [] then 0 else Trues(ms[..|ms| - 1]) + if ms[|ms| - 1] then 1 else 0
  }

  function MultiCount(b: Btn, xs: seq<Reading>): nat
  {
    Trues(Multis(b, xs))
  }

  // ---------------------------------------------------------------- without reload

  /** Some falling edges, by sample number, all read at most `delayMulti` after `anchor`. */
  datatype Group = Group(anchor: u32, edges: seq<nat>)

  predicate InWindow(b: Btn, xs: seq<Reading>, g: Group)
  {
    forall k :: 0 <= k < |g.edges| ==>
      g.edges[k] < |xs| && Falls(b, xs, g.edges[k]) && Sub32(xs[g.edges[k]].at, g.anchor) <= b.cfg.delayMulti
  }

  function Flat(gs: seq<Group>): seq<nat>
  {
    if gs == [] then [] else Flat(gs[..|gs| - 1]) + gs[|gs| - 1].edges
  }

  predicate Increasing(s: seq<nat>)
  {
    forall i, j :: 0 <= i < j < |s| ==> s[i] < s[j]
  }

  /** A complete group: `numberMulti` edges, and MULTI is reported at the last of them. */
  predicate Complete(b: Btn, xs: seq<Reading>, ms: seq<bool>, g: Group)
    requires |ms| == |xs|
  {
    && |g.edges| == b.cfg.numberMulti > 0 && InWindow(b, xs, g)
    && ms[g.edges[|g.edges| - 1]]
  }

  predicate AllComplete(b: Btn, xs: seq<Reading>, ms: seq<bool>, gs: seq<Group>)
    requires |ms| == |xs|
  {
    forall k :: 0 <= k < |gs| ==> Complete(b, xs, ms, gs[k])
  }

  predicate Ordered(es: seq<nat>, n: nat)
  {
    Increasing(es) && forall k :: 0 <= k < |es| ==> es[k] < n
  }

  /** `gs` are the clicks recognised so far and `open` the edges counted towards the next. */
  predicate Grouped(b: Btn, xs: seq<Reading>, ms: seq<bool>, gs: seq<Group>, open: Group)
    requires |ms| == |xs|
  {
    && AllComplete(b, xs, ms, gs) && InWindow(b, xs, open)
    && |open.edges| < b.cfg.numberMulti
    && Ordered(Flat(gs) + open.edges, |xs|)
    && |gs| == Trues(ms)
  }

  lemma LongerRun(b: Btn, xs: seq<Reading>, x: Reading, ms: seq<bool>, m: bool, gs: seq<Group>, open: Group)
    requires |ms| == |xs| && AllComplete(b, xs, ms, gs) && InWindow(b, xs, open)
    ensures AllComplete(b, xs + [x], ms + [m], gs) && InWindow(b, xs + [x], open)
  {
    forall k | 0 <= k < |xs|
      ensures Falls(b, xs + [x], k) == Falls(b, xs, k)
    {
    }
    forall k | 0 <= k < |gs|
      ensures Complete(b, xs + [x], ms + [m], gs[k])
    {
      assert Complete(b, xs, ms, gs[k]);
    }
  }

  /** Sample `x` does not fall: the groups stay as they are. */
  lemma NoEdge(b: Btn, xs: seq<Reading>, x: Reading, ms: seq<bool>, gs: seq<Group>, open: Group)
    requires |ms| == |xs| && Grouped(b, xs, ms, gs, open)
    ensures Grouped(b, xs + [x], ms + [false], gs, open)
  {
    LongerRun(b, xs, x, ms, false, gs, open);
    assert (ms + [false])[..|ms|] == ms;
  }

  /** The window is too old: the edges counted so far are forgotten. */
  lemma Forget(b: Btn, xs: seq<Reading>, ms: seq<bool>, gs: seq<Group>, open: Group, anchor: u32)
    requires |ms| == |xs| && Grouped(b, xs, ms, gs, open)
    ensures Grouped(b, xs, ms, gs, Group(anchor, []))
  {
    var all := Flat(gs) + open.edges;
    assert forall k :: 0 <= k < |Flat(gs)| ==> Flat(gs)[k] == all[k];
    assert Flat(gs) + [] == Flat(gs);
  }

  /** Sample `x` falls inside the window: the edge joins the open group and may complete it. */
  lemma OneMoreEdge(b: Btn, xs: seq<Reading>, x: Reading, ms: seq<bool>, gs: seq<Group>, open: Group)
    returns (hs: seq<Group>, next: Group)
    requires |ms| == |xs| && Grouped(b, xs, ms, gs, open)
    requires Falls(b, xs + [x], |xs|) && Sub32(x.at, open.anchor) <= b.cfg.delayMulti
    ensures var full := |open.edges| + 1 >= b.cfg.numberMulti;
            && Grouped(b, xs + [x], ms + [full], hs, next)
            && |next.edges| == (if full then 0 else |open.edges| + 1)
            && next.anchor == (if full then x.at else open.anchor)
  {
    var full := |open.edges| + 1 >= b.cfg.numberMulti;
    var ys, ns := xs + [x], ms + [full];
    LongerRun(b, xs, x, ms, full, gs, open);
    assert ns[..|ms|] == ms;
    var grown := Group(open.anchor, open.edges + [|xs|]);
    assert InWindow(b, ys, grown);
    var all := Flat(gs) + open.edges;
    assert Ordered(all + [|xs|], |ys|);
    assert Flat(gs) + grown.edges == all + [|xs|];
    if full {
      hs, next := gs + [grown], Group(x.at, []);
      assert hs[..|gs|] == gs;
      assert Flat(hs) + [] == all + [|xs|];
      assert Complete(b, ys, ns, grown);
    } else {
      hs, next := gs, grown;
    }
  }

  lemma {:induction false} CountStaysBelow(b: Btn, xs: seq<Reading>)
    requires !b.cfg.reload && b.clicks.count < b.cfg.numberMulti < 256
    ensures ClickRun(b, xs).0.count < b.cfg.numberMulti
    decreases |xs|
  {
    if xs != [] {
      CountStaysBelow(b, xs[..|xs| - 1]);
    }
  }

  /** One falling edge, whether or not it restarts the window. */
  lemma EdgeStep(b: Btn, xs: seq<Reading>, x: Reading, ms: seq<bool>, gs: seq<Group>, open: Group)
    returns (hs: seq<Group>, next: Group, fired: bool)
    requires |ms| == |xs| && Grouped(b, xs, ms, gs, open)
    requires Falls(b, xs + [x], |xs|) && !b.cfg.reload && b.cfg.numberMulti < 256
    ensures ClickPass(b.cfg, Clicks(|open.edges|, open.anchor), true, x.at) == (Clicks(|next.edges|, next.anchor), fired)
    ensures Grouped(b, xs + [x], ms + [fired], hs, next)
  {
    var kept := open;
    if Sub32(x.at, open.anchor) > b.cfg.delayMulti {
      Forget(b, xs, ms, gs, open, x.at);
      kept := Group(x.at, []);
      assert Sub32(x.at, x.at) == 0;
    }
    hs, next := OneMoreEdge(b, xs, x, ms, gs, kept);
    fired := |kept.edges| + 1 >= b.cfg.numberMulti;
  }

  /** Without `reload`: after every run the count is below `numberMulti`; every MULTI consumes
      exactly `numberMulti` falling edges of its own, all inside one window of `delayMulti`. */
  lemma {:induction false} MultiConsumesItsEdges(b: Btn, xs: seq<Reading>) returns (gs: seq<Group>, open: Group)
    requires !b.cfg.reload && 0 == b.clicks.count < b.cfg.numberMulti < 256
    ensures Grouped(b, xs, Multis(b, xs), gs, open)
    ensures ClickRun(b, xs).0 == Clicks(|open.edges|, open.anchor)
    decreases |xs|
  {
    if xs == [] {
      gs, open := [], Group(b.clicks.anchor, []);
    } else {
      var front, x := xs[..|xs| - 1], xs[|xs| - 1];
      var ms := Multis(b, front);
      gs, open := MultiConsumesItsEdges(b, front);
      assert xs == front + [x];
      if Falls(b, xs, |front|) {
        var fired;
        gs, open, fired := EdgeStep(b, front, x, ms, gs, open);
      } else {
        NoEdge(b, front, x, ms, gs, open);
      }
    }
  }

  /** Two edges of one window that are less than 2^32 - `delayMulti` ms apart in real time `ts`
      are at most `delayMulti` apart, across clock wraps too: only a pause of almost a whole
      round of the clock can pass for a short one. */
  lemma EdgesOfAClickAreClose(b: Btn, xs: seq<Reading>, ts: seq<nat>, g: Group, i: nat, j: nat)
    requires InWindow(b, xs, g) && i < |g.edges| && j < |g.edges| && |ts| == |xs|
    requires forall k :: 0 <= k < |xs| ==> xs[k].at == ts[k] % U32
    requires 0 <= ts[g.edges[j]] - ts[g.edges[i]] < U32 - b.cfg.delayMulti
    ensures ts[g.edges[j]] - ts[g.edges[i]] <= b.cfg.delayMulti
  {
    var early, late := ts[g.edges[i]], ts[g.edges[j]];
    assert Sub32(xs[g.edges[i]].at, g.anchor) <= b.cfg.delayMulti && Sub32(xs[g.edges[j]].at, g.anchor) <= b.cfg.delayMulti;
    CloseReadings(early, late, g.anchor, b.cfg.delayMulti);
  }

  lemma CloseReadings(early: nat, late: nat, anchor: u32, d: u32)
    requires Sub32(early % U32, anchor) <= d && Sub32(late % U32, anchor) <= d && 0 <= late - early < U32 - d
    ensures late - early <= d
  {
    WithinOneRound(late, early);
    Subtraction(late % U32, early % U32);
    Subtraction(late % U32, anchor);
    Subtraction(early % U32, anchor);
  }

  lemma {:induction false} FlatLength(b: Btn, xs: seq<Reading>, ms: seq<bool>, gs: seq<Group>)
    requires |ms| == |xs| && AllComplete(b, xs, ms, gs)
    ensures |Flat(gs)| == |gs| * b.cfg.numberMulti
    ensures forall k :: 0 <= k < |Flat(gs)| ==> Flat(gs)[k] < |xs| && Falls(b, xs, Flat(gs)[k])
    decreases |gs|
  {
    if gs != [] {
      var n := |gs| - 1;
      FlatLength(b, xs, ms, gs[..n]);
      assert Complete(b, xs, ms, gs[n]);
      assert |gs| * b.cfg.numberMulti == n * b.cfg.numberMulti + b.cfg.numberMulti;
    }
  }

  /** Distinct falling edges among the first `n` samples are no more than those counted. */
  lemma {:induction false} DistinctEdgesFit(b: Btn, xs: seq<Reading>, es: seq<nat>, n: nat)
    requires n <= |xs| && Ordered(es, n)
    requires forall e :: e in es ==> e < |xs| && Falls(b, xs, e)
    ensures |es| <= FallCount(b, xs[..n])
    decreases n
  {
    if es != [] {
      var m := |es| - 1;
      var last := es[m];
      assert last in es && xs[..n][..n - 1] == xs[..n - 1];
      assert Falls(b, xs[..n], n - 1) == Falls(b, xs, n - 1);
      if last == n - 1 {
        DistinctEdgesFit(b, xs, es[..m], n - 1);
      } else {
        DistinctEdgesFit(b, xs, es, n - 1);
      }
    }
  }

  /** MULTI is never reported more often than the falling edges pay for. */
  lemma MultiIsPaidFor(b: Btn, xs: seq<Reading>)
    requires Ready(b) && !b.cfg.reload && b.cfg.numberMulti > 0
    ensures MultiCount(b, xs) * b.cfg.numberMulti + After(b, xs).clicks.count <= FallCount(b, xs)
    ensures After(b, xs).clicks.count < b.cfg.numberMulti
  {
    AfterMeaning(b, xs);
    var gs, open := MultiConsumesItsEdges(b, xs);
    FlatLength(b, xs, Multis(b, xs), gs);
    var all := Flat(gs) + open.edges;
    forall e | e in all
      ensures e < |xs| && Falls(b, xs, e)
    {
      assert e in Flat(gs) || e in open.edges;
    }
    DistinctEdgesFit(b, xs, all, |xs|);
    assert xs[..|xs|] == xs;
  }

  // ---------------------------------------------------------------- with reload

  /** The clock at the last falling edge. */
  function LastFall(b: Btn, xs: seq<Reading>): u32
    requires FallCount(b, xs) > 0
  {
    if Falls(b, xs, |xs| - 1) then xs[|xs| - 1].at else LastFall(b, xs[..|xs| - 1])
  }

  /** Each sample is a falling edge or comes at most `delayMulti` after the last one. */
  predicate Burst(b: Btn, xs: seq<Reading>)
  {
    xs != [] ==>
      var front := xs[..|xs| - 1];
      && Burst(b, front)
      && (Falls(b, xs, |xs| - 1) || FallCount(b, front) == 0
          || Sub32(xs[|xs| - 1].at, LastFall(b, front)) <= b.cfg.delayMulti)
  }

  /** A count of `n` kept in one byte. */
  function Byte(n: nat): (r: nat)
    ensures r < 256
  {
    if n < 256 then n else Byte(n - 256)
  }

  lemma {:induction false} ByteNext(n: nat)
    ensures Byte(n + 1) == (Byte(n) + 1) % 256
    decreases n
  {
    if n >= 256 {
      ByteNext(n - 256);
    }
  }

  /** During a burst nothing is reported; the edges are counted modulo 256. */
  lemma {:induction false} BurstIsCounted(b: Btn, xs: seq<Reading>)
    requires b.cfg.reload && b.clicks.count == 0 && Burst(b, xs)
    ensures ClickRun(b, xs).0.count == Byte(FallCount(b, xs))
    ensures FallCount(b, xs) > 0 ==> ClickRun(b, xs).0.anchor == LastFall(b, xs)
    ensures MultiCount(b, xs) == 0
    decreases |xs|
  {
    if xs != [] {
      var front := xs[..|xs| - 1];
      BurstIsCounted(b, front);
      ByteNext(FallCount(b, front));
      assert Sub32(xs[|front|].at, xs[|front|].at) == 0;
      assert Multis(b, xs)[..|front|] == Multis(b, front);
    }
  }

  /** With `reload`: a burst reports nothing until the first sample that is late, and there
      it reports MULTI exactly once or not at all; then the count is zero again.  Because the
      count is one byte, the report depends on the number of edges modulo 256: it is right
      for every burst of fewer than 256 edges, and a burst of 256 is never reported. */
  lemma BurstIsJudgedOnce(b: Btn, xs: seq<Reading>, x: Reading)
    requires Clean(b) && b.clicks.count == 0 && b.cfg.reload && 0 < b.cfg.numberMulti < 256 && Burst(b, xs)
    requires FallCount(b, xs) > 0 && !Burst(b, xs + [x])
    ensures MultiCount(b, xs) == 0
    ensures MultiCount(b, xs + [x]) == if Byte(FallCount(b, xs)) >= b.cfg.numberMulti then 1 else 0
    ensures FallCount(b, xs) < 256 ==> (MultiCount(b, xs + [x]) == 1 <==> FallCount(b, xs) >= b.cfg.numberMulti)
    ensures FallCount(b, xs) == 256 ==> MultiCount(b, xs + [x]) == 0
    ensures After(b, xs + [x]).clicks.count == 0
  {
    var ys := xs + [x];
    assert ys[..|xs|] == xs;
    BurstIsCounted(b, xs);
    AfterMeaning(b, ys);
    assert Multis(b, ys)[..|xs|] == Multis(b, xs);
  }

  /** The samples cut into bursts: the sizes of those that a late sample has ended, and of the
      one that is still open. */
  function Bursts(b: Btn, xs: seq<Reading>): (r: (seq<nat>, nat))
    ensures r.1 <= FallCount(b, xs)
  {
    if xs == [] then ([], 0)
    else
      var front := xs[..|xs| - 1];
      var (ended, open) := Bursts(b, front);
      if Falls(b, xs, |xs| - 1) then (ended, open + 1)
      else if open > 0 && Sub32(xs[|xs| - 1].at, LastFall(b, front)) > b.cfg.delayMulti then (ended + [open], 0)
      else (ended, open)
  }

  function Sum(ns: seq<nat>): nat
  {
    if ns == [] then 0 else Sum(ns[..|ns| - 1]) + ns[|ns| - 1]
  }

  /** How many bursts have a size that reaches `n` when it is kept in one byte. */
  function Large(sizes: seq<nat>, n: nat): nat
  {
    if sizes == [] then 0 else Large(sizes[..|sizes| - 1], n) + if Byte(sizes[|sizes| - 1]) >= n then 1 else 0
  }

  /** The burst that is still open, as the click detector sees it. */
  predicate OpenBurst(b: Btn, xs: seq<Reading>, c: Clicks)
  {
    && c.count == Byte(Bursts(b, xs).1)
    && (Bursts(b, xs).1 > 0 ==> c.anchor == LastFall(b, xs))
  }

  /** One pass of the click detector in terms of the open burst: it fires exactly when the
      sample is late and the burst is large enough. */
  lemma BurstPass(cfg: Config, c: Clicks, falls: bool, at: u32, open: nat, last: u32)
    requires cfg.reload && cfg.numberMulti > 0 && c.count == Byte(open) && (open > 0 ==> c.anchor == last)
    ensures var late := !falls && open > 0 && Sub32(at, last) > cfg.delayMulti;
            var (d, fired) := ClickPass(cfg, c, falls, at);
            && (fired <==> late && Byte(open) >= cfg.numberMulti)
            && d.count == (if falls then Byte(open + 1) else if late then 0 else Byte(open))
            && (falls ==> d.anchor == at) && (!falls ==> d.anchor == c.anchor)
  {
    ByteNext(open);
    assert Sub32(at, at) == 0;
  }

  /** With `reload`, over every run and from any released or held state: every falling edge
      belongs to exactly one burst, and MULTI is reported exactly once for each ended burst
      whose size modulo 256 reaches `numberMulti`, and not at all for any other. */
  lemma {:induction false} MultisAreLargeBursts(b: Btn, xs: seq<Reading>)
    requires b.clicks.count == 0 && b.cfg.reload && b.cfg.numberMulti > 0
    ensures OpenBurst(b, xs, ClickRun(b, xs).0)
    ensures MultiCount(b, xs) == Large(Bursts(b, xs).0, b.cfg.numberMulti)
    ensures FallCount(b, xs) == Sum(Bursts(b, xs).0) + Bursts(b, xs).1
    decreases |xs|
  {
    if xs != [] {
      var front, x := xs[..|xs| - 1], xs[|xs| - 1];
      MultisAreLargeBursts(b, front);
      var (ended, open) := Bursts(b, front);
      BurstPass(b.cfg, ClickRun(b, front).0, Falls(b, xs, |front|), x.at, open, if open > 0 then LastFall(b, front) else 0);
      assert Multis(b, xs)[..|front|] == Multis(b, front);
      assert (ended + [open])[..|ended|] == ended;
    }
  }

  /** Where the report comes: at the sample that ends the burst. */
  lemma MultiEndsItsBurst(b: Btn, xs: seq<Reading>, x: Reading, ys: seq<Reading>)
    requires Clean(b) && b.clicks.count == 0 && b.cfg.reload && b.cfg.numberMulti > 0 && ys == xs + [x]
    ensures var (ended, open) := Bursts(b, xs);
            Multi in Reported(b, ys, |xs|) <==> Bursts(b, ys).0 == ended + [open] && Byte(open) >= b.cfg.numberMulti
  {
    LastReport(b, ys);
    FiresAtTheEnd(b, xs, x, ys);
    OneMoreSample(b, xs, x, ys);
  }

  lemma LastReport(b: Btn, ys: seq<Reading>)
    requires Clean(b) && ys != []
    ensures Multi in Reported(b, ys, |ys| - 1) <==> ClickRun(b, ys).1
  {
    assert ys[..|ys|] == ys;
    ReportedMeaning(b, ys, |ys| - 1);
  }

  lemma FiresAtTheEnd(b: Btn, xs: seq<Reading>, x: Reading, ys: seq<Reading>)
    requires b.clicks.count == 0 && b.cfg.reload && b.cfg.numberMulti > 0 && ys == xs + [x]
    ensures var open := Bursts(b, xs).1;
            ClickRun(b, ys).1 <==>
            !Falls(b, ys, |xs|) && open > 0 && Sub32(x.at, LastFall(b, xs)) > b.cfg.delayMulti && Byte(open) >= b.cfg.numberMulti
  {
    var open := Bursts(b, xs).1;
    assert ys[..|xs|] == xs;
    MultisAreLargeBursts(b, xs);
    BurstPass(b.cfg, ClickRun(b, xs).0, Falls(b, ys, |xs|), x.at, open, if open > 0 then LastFall(b, xs) else 0);
  }

  lemma OneMoreSample(b: Btn, xs: seq<Reading>, x: Reading, ys: seq<Reading>)
    requires ys == xs + [x]
    ensures var (ended, open) := Bursts(b, xs);
            Bursts(b, ys).0 == ended + [open] <==>
            !Falls(b, ys, |xs|) && open > 0 && Sub32(x.at, LastFall(b, xs)) > b.cfg.delayMulti
  {
    assert ys[..|xs|] == xs;
    var (ended, open) := Bursts(b, xs);
    assert |ended + [open]| == |ended| + 1;
  }
}
