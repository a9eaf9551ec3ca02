/**
 * The staggered reveal schedules.  Each routine hands every element it
 * reveals to `setTimeout` with a delay computed from the element's position;
 * a plan is the list of those (element, delay) pairs in scheduling order.
 */
module Stagger {

  /** Step between consecutive elements of a generic section. */
  const GenericStaggerMs: nat := 100
  /** Delay of the gallery subtitle; the title is revealed at once. */
  const SubtitleDelayMs: nat := 200
  /** Delay of the first gallery tile, and the step between tiles. */
  const TileBaseMs: nat := 400
  const TileStaggerMs: nat := 150
  /** Wait before the fallback looks for visible tiles, and its step between tiles. */
  const FallbackWaitMs: nat := 3000
  const FallbackStaggerMs: nat := 100

  /** What an element of a plan is: found by its role and its position among the matches. */
  datatype Target =
    | Title                   // '#galeria .section-title'
    | Subtitle                // '#galeria .section-subtitle'
    | Tile(index: nat)        // '.galeria-item', marked 'visible'
    | ForcedTile(index: nat)  // '.galeria-item', marked 'visible' and 'force-visible'
    | Animatable(index: nat)  // '.fade-in, .slide-up, .slide-left, .slide-right' of a section

  datatype Reveal = Reveal(target: Target, delayMs: nat)

  function GenericDelay(index: nat): nat { index * GenericStaggerMs }
  function TileDelay(index: nat): nat { TileBaseMs + index * TileStaggerMs }
  function FallbackDelay(index: nat): nat { FallbackWaitMs + index * FallbackStaggerMs }

  /** Reveals are scheduled in strictly increasing order of delay. */
  predicate Ascending(plan: seq<Reveal>) {
    forall i, j :: 0 <= i < j < |plan| ==> plan[i].delayMs < plan[j].delayMs
  }

  /** `animateGenericSection`: the `i`-th animatable element of the section at `i * 100` ms. */
  method AnimateGenericSection(count: nat) returns (plan: seq<Reveal>)
    ensures |plan| == count
    ensures forall i :: 0 <= i < count ==> plan[i] == Reveal(Animatable(i), GenericDelay(i))
    ensures Ascending(plan)
  {
    plan := [];
    var index := 0;
    while index < count
      invariant index <= count && |plan| == index
      invariant forall i :: 0 <= i < index ==> plan[i] == Reveal(Animatable(i), GenericDelay(i))
    {
      plan := plan + [Reveal(Animatable(index), GenericDelay(index))];
      index := index + 1;
    }
  }

  /** The title at once and the subtitle after 200 ms, each only when it is on the page. */
  function Heading(hasTitle: bool, hasSubtitle: bool): seq<Reveal> {
    (if hasTitle then [Reveal(Title, 0)] else [])
    + (if hasSubtitle then [Reveal(Subtitle, SubtitleDelayMs)] else [])
  }

  /** A plan whose `i`-th delay is `base + i * step`, for a positive step, is ascending. */
  lemma EvenlySpacedAscending(plan: seq<Reveal>, base: nat, step: nat)
    requires step > 0
    requires forall i :: 0 <= i < |plan| ==> plan[i].delayMs == base + i * step
    ensures Ascending(plan)
  {
    forall i, j | 0 <= i < j < |plan|
      ensures plan[i].delayMs < plan[j].delayMs
    {
      StepGrows(i, j, step);
    }
  }

  lemma StepGrows(i: nat, j: nat, step: nat)
    requires i < j && 0 < step
    ensures i * step < j * step
    decreases j - i
  {
    if i + 1 < j {
      StepGrows(i + 1, j, step);
    }
  }

  /** Joining two ascending plans, the first ending before the second begins, is ascending. */
  lemma AscendingConcat(p: seq<Reveal>, q: seq<Reveal>, bound: nat)
    requires Ascending(p) && Ascending(q)
    requires forall i :: 0 <= i < |p| ==> p[i].delayMs < bound
    requires forall j :: 0 <= j < |q| ==> bound <= q[j].delayMs
    ensures Ascending(p + q)
  {
  }

  /**
   * `animateGalleryItems`: the heading, then the `i`-th tile at
   * `400 + i * 150` ms, so title, subtitle and tiles appear in that order.
   */
  method AnimateGalleryItems(hasTitle: bool, hasSubtitle: bool, tileCount: nat)
    returns (plan: seq<Reveal>)
    ensures |plan| == |Heading(hasTitle, hasSubtitle)| + tileCount
    ensures plan[..|Heading(hasTitle, hasSubtitle)|] == Heading(hasTitle, hasSubtitle)
    ensures forall i :: 0 <= i < tileCount ==>
      plan[|Heading(hasTitle, hasSubtitle)| + i] == Reveal(Tile(i), TileDelay(i))
    ensures Ascending(plan)
  {
    var heading := Heading(hasTitle, hasSubtitle);
    var tiles := [];
    var index := 0;
    while index < tileCount
      invariant index <= tileCount && |tiles| == index
      invariant forall i :: 0 <= i < index ==> tiles[i] == Reveal(Tile(i), TileDelay(i))
    {
      tiles := tiles + [Reveal(Tile(index), TileDelay(index))];
      index := index + 1;
    }
    HeadingBeforeTiles(hasTitle, hasSubtitle);
    EvenlySpacedAscending(tiles, TileBaseMs, TileStaggerMs);
    AscendingConcat(heading, tiles, TileBaseMs);
    plan := heading + tiles;
    Appended(heading, tiles);
  }

  /** The two halves of a joined plan. */
  lemma Appended(p: seq<Reveal>, q: seq<Reveal>)
    ensures (p + q)[..|p|] == p
    ensures forall j :: 0 <= j < |q| ==> (p + q)[|p| + j] == q[j]
  {
    assert (p + q)[..|p|] == p;
  }

  /** The heading is ascending and ends before the first tile. */
  lemma HeadingBeforeTiles(hasTitle: bool, hasSubtitle: bool)
    ensures Ascending(Heading(hasTitle, hasSubtitle))
    ensures forall i :: 0 <= i < |Heading(hasTitle, hasSubtitle)| ==>
      Heading(hasTitle, hasSubtitle)[i].delayMs < TileBaseMs
  {
  }

  /** Whether any tile already shows the 'visible' state. */
  predicate AnyVisible(visible: seq<bool>) {
    exists i :: 0 <= i < |visible| && visible[i]
  }

  /**
   * `forceGalleryVisibility`: 3000 ms after mount, if there are tiles and none
   * of them is visible, force the `i`-th tile visible at a further `i * 100` ms;
   * otherwise schedule nothing.
   */
  method ForceGalleryVisibility(visible: seq<bool>) returns (plan: seq<Reveal>)
    ensures plan == [] <==> |visible| == 0 || AnyVisible(visible)
    ensures plan != [] ==>
      |plan| == |visible| &&
      forall i :: 0 <= i < |visible| ==> plan[i] == Reveal(ForcedTile(i), FallbackDelay(i))
    ensures Ascending(plan)
  {
    plan := [];
    if |visible| > 0 {
      var hasVisibleItems := exists i :: 0 <= i < |visible| && visible[i];
      if !hasVisibleItems {
        var index := 0;
        while index < |visible|
          invariant index <= |visible| && |plan| == index
          invariant forall i :: 0 <= i < index ==> plan[i] == Reveal(ForcedTile(i), FallbackDelay(i))
        {
          plan := plan + [Reveal(ForcedTile(index), FallbackDelay(index))];
          index := index + 1;
        }
      }
    }
  }
}
