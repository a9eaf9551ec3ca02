/**
 * The counter animations.  Each counter drives one display from 0 to a target
 * over a duration, optionally after a delay, one animation frame at a time.
 * The exponential curve `1 - 2^(-10 t)` is floating point and is a parameter
 * here (`curve`); the boundary case that `easeOutExpo` handles explicitly,
 * `t === 1`, is modelled exactly.
 */
module Counters {
  import opened Catalogue

  /**
   * One counter: its target, its duration, the delay of its start after the
   * routine that starts it, and whether its frame callback waits for that start
   * (the counters with a delay have that check; the others do not).
   */
  datatype Counter = Counter(target: nat, durationMs: nat, delayMs: nat, waitsForStart: bool)

  const CiscoPercentage: Counter := Counter(22, 1500, 0, false)
  const AnnualProduction: Counter := Counter(14, 2000, 600, true)
  const Tonnes: Counter := Counter(195000, 2500, 800, true)
  const Families: Counter := Counter(540000, 2000, 0, false)
  const CostReduction: Counter := Counter(35, 1800, 500, true)
  const Co2: Counter := Counter(78000, 2200, 1000, true)

  /**
   * The counters `animateCounter` starts, in order: none unless both
   * `#contador` and `#ciscoPercentage` are on the page; the production counter
   * only when `#productionCounter` is.
   */
  function ProblemCounters(hasCounter: bool, hasCisco: bool, hasProduction: bool): (cs: seq<Counter>)
    ensures cs == [] <==> !(hasCounter && hasCisco)
    ensures cs != [] ==> |cs| == 2 + (if hasProduction then 1 else 0)
    ensures cs != [] ==> cs[0] == CiscoPercentage && cs[|cs| - 1] == Tonnes
    ensures cs != [] && hasProduction ==> cs[1] == AnnualProduction
    ensures AnnualProduction in cs <==> hasCounter && hasCisco && hasProduction
  {
    if !hasCounter || !hasCisco then []
    else [CiscoPercentage] + (if hasProduction then [AnnualProduction] else []) + [Tonnes]
  }

  /** The order in which `animateImpactCounters` considers its counters. */
  const ImpactOrder: seq<Counter> := [Families, CostReduction, Co2]

  function Count(b: bool): nat { if b then 1 else 0 }

  /**
   * The counters `animateImpactCounters` starts: each one whose display is on
   * the page, each once, in the order families, cost reduction, CO2.
   */
  function ImpactCounterJobs(hasFamilies: bool, hasCostReduction: bool, hasCo2: bool): (cs: seq<Counter>)
    ensures Families in cs <==> hasFamilies
    ensures CostReduction in cs <==> hasCostReduction
    ensures Co2 in cs <==> hasCo2
    ensures |cs| == Count(hasFamilies) + Count(hasCostReduction) + Count(hasCo2)
    ensures forall i, j :: 0 <= i < j < |cs| ==> IndexOf(ImpactOrder, cs[i]) < IndexOf(ImpactOrder, cs[j])
  {
    (if hasFamilies then [Families] else [])
    + (if hasCostReduction then [CostReduction] else [])
    + (if hasCo2 then [Co2] else [])
  }

  /**
   * `easeOutExpo`, with the curve for `t != 1` left abstract.  Whatever the
   * curve gives, the eased value at the end of the animation is exactly 1.
   */
  function EaseOutExpo(t: real, curve: real -> real): (e: real)
    ensures t == 1.0 ==> e == 1.0
  {
    if t == 1.0 then 1.0 else curve(t)
  }

  function Min(a: real, b: real): real { if a < b then a else b }

  /** The time the counter starts moving, given the time its routine ran. */
  function Start(c: Counter, calledAt: real): real { calledAt + c.delayMs as real }

  /** The time from which every frame shows the target. */
  function End(c: Counter, calledAt: real): real { Start(c, calledAt) + c.durationMs as real }

  /** What one frame callback does: wait, or show a value and say whether to ask for another frame. */
  datatype Tick = Wait | Show(value: int, again: bool)

  /**
   * One frame at time `now`: before the start (for a counter that checks it)
   * nothing is shown; otherwise `progress = min(elapsed / duration, 1)`, the
   * display shows `floor(target * ease(progress))`, and another frame is
   * requested while `progress < 1`.
   */
  function Step(c: Counter, calledAt: real, now: real, curve: real -> real): (t: Tick)
    requires c.durationMs > 0
    ensures t.Wait? <==> c.waitsForStart && now < Start(c, calledAt)
    ensures t.Show? ==> (t.again <==> now < End(c, calledAt))
    ensures t.Show? && !t.again ==> t.value == c.target
  {
    if c.waitsForStart && now < Start(c, calledAt) then Wait
    else
      var elapsed := now - Start(c, calledAt);
      var progress := Min(elapsed / c.durationMs as real, 1.0);
      DivBelowOne(elapsed, c.durationMs as real);
      Show((c.target as real * EaseOutExpo(progress, curve)).Floor, progress < 1.0)
  }

  lemma DivBelowOne(x: real, d: real)
    requires d > 0.0
    ensures x / d < 1.0 <==> x < d
  {
    if x / d < 1.0 {
      assert x == (x / d) * d;
    } else {
      assert x == (x / d) * d;
    }
  }

  /**
   * The values shown over a run of frames, skipping frames that only wait:
   * at most one per frame, none while every frame waits, and the target last
   * when the last frame is at or after the end time.
   */
  function Shown(c: Counter, calledAt: real, frames: seq<real>, curve: real -> real): (vs: seq<int>)
    requires c.durationMs > 0
    ensures |vs| <= |frames|
    ensures (forall i :: 0 <= i < |frames| ==> c.waitsForStart && frames[i] < Start(c, calledAt)) ==> vs == []
    ensures 0 < |frames| && End(c, calledAt) <= frames[|frames| - 1] ==>
      0 < |vs| && vs[|vs| - 1] == c.target
    decreases |frames|
  {
    if frames == [] then []
    else
      var last := Step(c, calledAt, frames[|frames| - 1], curve);
      Shown(c, calledAt, frames[..|frames| - 1], curve) + if last.Show? then [last.value] else []
  }

  /**
   * The per-frame recursion driven by the host's frame times `frames`: the
   * callback runs on each frame until one shows the final value, and no frame
   * after that is used.
   */
  method Animate(c: Counter, calledAt: real, frames: seq<real>, curve: real -> real)
    returns (shown: seq<int>, used: nat)
    requires c.durationMs > 0
    ensures used <= |frames|
    ensures shown == Shown(c, calledAt, frames[..used], curve)
    ensures forall i :: 0 <= i < used - 1 ==> frames[i] < End(c, calledAt)
    ensures used < |frames| ==> 0 < used && End(c, calledAt) <= frames[used - 1]
    ensures 0 < used && End(c, calledAt) <= frames[used - 1] ==>
      0 < |shown| && shown[|shown| - 1] == c.target
  {
    shown, used := [], 0;
    var running := true;
    while running && used < |frames|
      invariant used <= |frames|
      invariant shown == Shown(c, calledAt, frames[..used], curve)
      invariant forall i :: 0 <= i < used - 1 ==> frames[i] < End(c, calledAt)
      invariant 0 < used ==> (running <==> frames[used - 1] < End(c, calledAt))
      invariant used == 0 ==> running
      invariant 0 < used && End(c, calledAt) <= frames[used - 1] ==>
        0 < |shown| && shown[|shown| - 1] == c.target
      decreases |frames| - used
    {
      var tick := Step(c, calledAt, frames[used], curve);
      assert frames[..used + 1][..used] == frames[..used];
      if tick.Show? {
        shown := shown + [tick.value];
        running := tick.again;
      }
      used := used + 1;
    }
  }

  /** Sampled at the end, the tonnes counter shows its target, 195000. */
  lemma TonnesFinalValue(calledAt: real, now: real, curve: real -> real)
    requires End(Tonnes, calledAt) <= now
    ensures Step(Tonnes, calledAt, now, curve) == Show(195000, false)
  {
  }
}
