/** Multi-clicks without reload, from the side of the user: which clicks are recognised. */
module ButtonClicks {
  import opened Basics
  import opened Flags
  import opened ButtonModel
  import opened ButtonRuns
  import opened ButtonMulti

  /** The readings cut into windows, from their times and levels alone: where the present window
      starts and how many falling edges lie in it. */
  datatype Window = Window(start: u32, edges: nat)

  /** The window with one more falling edge; one that comes too late starts a window of its own. */
  function Joined(w: Window, at: u32, length: u32): Window
  {
    if Sub32(at, w.start) <= length then Window(w.start, w.edges + 1) else Window(at, 1)
  }

  /** The window after one more reading; a full one is closed and the next starts with its last edge. */
  function NextWindow(cfg: Config, w: Window, falls: bool, at: u32): Window
  {
    if !falls then w
    else if Joined(w, at, cfg.delayMulti).edges == cfg.numberMulti then Window(at, 0)
    else Joined(w, at, cfg.delayMulti)
  }

  function WindowAfter(b: Btn, xs: seq<Reading>): Window
  {
    if xs == [] then Window(b.clicks.anchor, 0)
    else
      var n := |xs| - 1;
      NextWindow(b.cfg, WindowAfter(b, xs[..n]), Falls(b, xs, n), xs[n].at)
  }

  /** One pass of the click detector in terms of the window. */
  lemma WindowPass(cfg: Config, w: Window, falls: bool, at: u32)
    requires !cfg.reload && w.edges < cfg.numberMulti < 256
    ensures var next := NextWindow(cfg, w, falls, at);
            var full := falls && Joined(w, at, cfg.delayMulti).edges == cfg.numberMulti;
            next.edges < cfg.numberMulti && ClickPass(cfg, Clicks(w.edges, w.start), falls, at) == (Clicks(next.edges, next.start), full)
  {
  }

  lemma {:induction false} DetectorFollowsWindows(b: Btn, xs: seq<Reading>)
    requires !b.cfg.reload && 0 == b.clicks.count < b.cfg.numberMulti < 256
    ensures WindowAfter(b, xs).edges < b.cfg.numberMulti
    ensures ClickRun(b, xs).0 == Clicks(WindowAfter(b, xs).edges, WindowAfter(b, xs).start)
    ensures xs != [] ==>
              var n := |xs| - 1;
              (ClickRun(b, xs).1 <==>
               Falls(b, xs, n) && Joined(WindowAfter(b, xs[..n]), xs[n].at, b.cfg.delayMulti).edges == b.cfg.numberMulti)
    decreases |xs|
  {
    if xs != [] {
      var front := xs[..|xs| - 1];
      DetectorFollowsWindows(b, front);
      WindowPass(b.cfg, WindowAfter(b, front), Falls(b, xs, |front|), xs[|front|].at);
    }
  }

  /** Without reload, over every run: MULTI is reported at a sample if and only if this is the
      last of `numberMulti` falling edges of its window. */
  lemma MultiIsTheLastEdgeOfItsWindow(b: Btn, xs: seq<Reading>, i: nat)
    requires Clean(b) && !b.cfg.reload && 0 == b.clicks.count < b.cfg.numberMulti < 256 && i < |xs|
    ensures Multi in Reported(b, xs, i) <==>
            Falls(b, xs, i) && Joined(WindowAfter(b, xs[..i]), xs[i].at, b.cfg.delayMulti).edges == b.cfg.numberMulti
  {
    var ys := xs[..i + 1];
    assert ys[..i] == xs[..i] && Falls(b, ys, i) == Falls(b, xs, i);
    ReportedMeaning(b, xs, i);
    DetectorFollowsWindows(b, ys);
  }

  lemma OneSample(b: Btn, xs: seq<Reading>, k: nat)
    requires k < |xs|
    ensures FallCount(b, xs[..k + 1]) == FallCount(b, xs[..k]) + if Falls(b, xs, k) then 1 else 0
    ensures WindowAfter(b, xs[..k + 1]) == NextWindow(b.cfg, WindowAfter(b, xs[..k]), Falls(b, xs, k), xs[k].at)
  {
    assert xs[..k + 1][..k] == xs[..k] && Falls(b, xs[..k + 1], k) == Falls(b, xs, k);
  }

  /** All falling edges behind sample `i` up to `j` come at most `delayMulti` after it. */
  predicate Prompt(b: Btn, xs: seq<Reading>, i: nat, j: nat)
    requires i <= j < |xs|
  {
    forall k :: i < k <= j && Falls(b, xs, k) ==> Sub32(xs[k].at, xs[i].at) <= b.cfg.delayMulti
  }

  /** While the window of edge `i` fills, every prompt falling edge counts. */
  lemma {:induction false} PromptEdgesCount(b: Btn, xs: seq<Reading>, i: nat, j: nat)
    requires i <= j < |xs| && Falls(b, xs, i) && Prompt(b, xs, i, j)
    requires Sub32(xs[i].at, WindowAfter(b, xs[..i]).start) > b.cfg.delayMulti
    requires FallCount(b, xs[..j + 1]) < FallCount(b, xs[..i]) + b.cfg.numberMulti
    ensures FallCount(b, xs[..j + 1]) > FallCount(b, xs[..i])
    ensures WindowAfter(b, xs[..j + 1]) == Window(xs[i].at, FallCount(b, xs[..j + 1]) - FallCount(b, xs[..i]))
    decreases j
  {
    OneSample(b, xs, j);
    if i < j {
      PromptEdgesCount(b, xs, i, j - 1);
    }
  }

  lemma LastEdgeFills(b: Btn, xs: seq<Reading>, i: nat, j: nat)
    requires i <= j < |xs| && Falls(b, xs, i) && Falls(b, xs, j) && Prompt(b, xs, i, j)
    requires Sub32(xs[i].at, WindowAfter(b, xs[..i]).start) > b.cfg.delayMulti
    requires FallCount(b, xs[..j + 1]) == FallCount(b, xs[..i]) + b.cfg.numberMulti
    ensures Joined(WindowAfter(b, xs[..j]), xs[j].at, b.cfg.delayMulti).edges == b.cfg.numberMulti
  {
    OneSample(b, xs, j);
    if i < j {
      PromptEdgesCount(b, xs, i, j - 1);
    }
  }

  /** So every fast click is recognised: if edge `i` starts a window and edge `j` is the
      `numberMulti`-th falling edge from it on, all of them at most `delayMulti` after `i`, then
      MULTI is reported at `j`. */
  lemma FastClicksAreRecognised(b: Btn, xs: seq<Reading>, i: nat, j: nat)
    requires Clean(b) && !b.cfg.reload && 0 == b.clicks.count < b.cfg.numberMulti < 256
    requires i <= j < |xs| && Falls(b, xs, i) && Falls(b, xs, j) && Prompt(b, xs, i, j)
    requires Sub32(xs[i].at, WindowAfter(b, xs[..i]).start) > b.cfg.delayMulti
    requires FallCount(b, xs[..j + 1]) == FallCount(b, xs[..i]) + b.cfg.numberMulti
    ensures Multi in Reported(b, xs, j)
  {
    LastEdgeFills(b, xs, i, j);
    MultiIsTheLastEdgeOfItsWindow(b, xs, j);
  }

  /** A double click 100 ms apart, with a window of 500 ms. */
  lemma DoubleClick(b: Btn)
    requires Clean(b) && b.prevState && b.clicks == Clicks(0, 0)
    requires !b.cfg.reload && b.cfg.numberMulti == 2 && b.cfg.delayMulti == 500
    ensures Multi in Reported(b, [Reading(1000, false), Reading(1050, true), Reading(1100, false)], 2)
  {
    var xs := [Reading(1000, false), Reading(1050, true), Reading(1100, false)];
    assert xs[..0] == [];
    OneSample(b, xs, 0);
    OneSample(b, xs, 1);
    OneSample(b, xs, 2);
    FastClicksAreRecognised(b, xs, 0, 2);
  }
}
