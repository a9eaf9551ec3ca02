/**
 * Section activation: the dispatcher from a section id to its entry routine
 * (`triggerSectionAnimations`), the registry of observed sections
 * (`sectionsRef`), and the intersection callback that turns a batch of
 * observer entries into a current section and a list of dispatched routines.
 */
module Activation {
  import opened Catalogue
  import opened Navigation

  /** Delay before the particles of the "problema" section are created. */
  const ParticlesDelayMs: nat := 1200

  /** Delay before the transformation line is marked active. */
  const TransformLineDelayMs: nat := 1000

  /** The routine a section runs when it becomes active. */
  datatype Routine =
    | GalleryReveal                       // animateGalleryItems
    | CountersAndParticles(particlesAfterMs: nat) // animateCounter, then createParticles
    | TransformLine(afterMs: nat)          // activate #transformLine
    | ImpactCounters                      // animateImpactCounters
    | CostCounters                        // animateCostCounters, which only logs
    | GenericReveal                       // animateGenericSection

  /** The ids the dispatcher gives a routine of their own; every other id gets GenericReveal. */
  const SpecialisedIds: seq<string> := ["galeria", "problema", "transformacion", "impacto", "costos"]

  /** The section a specialised routine belongs to. */
  function Owner(r: Routine): (id: string)
    requires !r.GenericReveal?
    ensures id in SpecialisedIds
  {
    match r
    case GalleryReveal => "galeria"
    case CountersAndParticles(_) => "problema"
    case TransformLine(_) => "transformacion"
    case ImpactCounters => "impacto"
    case CostCounters => "costos"
  }

  /** `triggerSectionAnimations`: the routine for a section id. */
  function Dispatch(id: string): (r: Routine)
    ensures r.GenericReveal? <==> id !in SpecialisedIds
    ensures !r.GenericReveal? ==> Owner(r) == id
    ensures r.CountersAndParticles? ==> r.particlesAfterMs == ParticlesDelayMs
    ensures r.TransformLine? ==> r.afterMs == TransformLineDelayMs
  {
    match id
    case "galeria" => GalleryReveal
    case "problema" => CountersAndParticles(ParticlesDelayMs)
    case "transformacion" => TransformLine(TransformLineDelayMs)
    case "impacto" => ImpactCounters
    case "costos" => CostCounters
    case "economia-circular" => GenericReveal
    case _ => GenericReveal
  }

  /** The routine of each of the eight sections, in page order. */
  lemma DispatchTable()
    ensures Dispatch(SectionIds[0]) == GenericReveal            // hero
    ensures Dispatch(SectionIds[1]) == CountersAndParticles(ParticlesDelayMs)
    ensures Dispatch(SectionIds[2]) == TransformLine(TransformLineDelayMs)
    ensures Dispatch(SectionIds[3]) == GalleryReveal
    ensures Dispatch(SectionIds[4]) == ImpactCounters
    ensures Dispatch(SectionIds[5]) == CostCounters
    ensures Dispatch(SectionIds[6]) == GenericReveal            // proceso
    ensures Dispatch(SectionIds[7]) == GenericReveal            // economia-circular
  {
  }

  /** An observed DOM element: its identity and its `id` attribute. */
  datatype Element = Element(handle: nat, id: string)

  /** `sectionsRef.current`: the eight section elements, registered in page order. */
  const Registry: seq<Element> := [
    Element(0, "hero"), Element(1, "problema"), Element(2, "transformacion"), Element(3, "galeria"),
    Element(4, "impacto"), Element(5, "costos"), Element(6, "proceso"), Element(7, "economia-circular")
  ]

  /** The `k`-th registered element is section `k`, with the `k`-th section id. */
  lemma RegistryShape()
    ensures |Registry| == SectionCount
    ensures forall k :: 0 <= k < SectionCount ==> Registry[k] == Element(k, SectionIds[k])
  {
  }

  /** One IntersectionObserver entry, reduced to what the callback reads. */
  datatype Entry = Entry(isIntersecting: bool, target: Element)

  /** An entry the callback acts on: intersecting, with a registered target. */
  predicate Activates(e: Entry) {
    e.isIntersecting && e.target in Registry
  }

  /** The navigation fields together with the routines dispatched so far. */
  datatype Tracked = Tracked(view: View, dispatched: seq<Routine>)

  /** The callback's body for one entry. */
  function OnEntry(t: Tracked, e: Entry): (u: Tracked)
    requires Inv(t.view)
    ensures Inv(u.view)
    ensures u.view.popup == t.view.popup && u.view.galleryIndex == t.view.galleryIndex
    ensures Activates(e) ==>
      && Registry[u.view.section] == e.target
      && e.target !in Registry[..u.view.section]
      && u.dispatched == t.dispatched + [Dispatch(e.target.id)]
    ensures !Activates(e) ==> u == t
  {
    if e.isIntersecting then
      var sectionIndex := IndexOf(Registry, e.target);
      if sectionIndex != -1 && sectionIndex >= 0 then
        Tracked(t.view.(section := sectionIndex), t.dispatched + [Dispatch(e.target.id)])
      else t
    else t
  }

  /**
   * The targets of the entries of a batch the callback acts on, in batch
   * order: all registered, and none exactly when no entry acts.
   */
  function Acting(es: seq<Entry>): (ts: seq<Element>)
    ensures |ts| <= |es|
    ensures forall i :: 0 <= i < |ts| ==> ts[i] in Registry
    ensures ts == [] <==> forall i :: 0 <= i < |es| ==> !Activates(es[i])
    ensures 0 < |es| && Activates(es[|es| - 1]) ==> 0 < |ts| && ts[|ts| - 1] == es[|es| - 1].target
    decreases |es|
  {
    if es == [] then []
    else
      var init := es[..|es| - 1];
      var ts := Acting(init);
      assert forall i :: 0 <= i < |init| ==> init[i] == es[i];
      ts + if Activates(es[|es| - 1]) then [es[|es| - 1].target] else []
  }

  /**
   * `u` is `t` after the callback acted on the targets `ts`: their routines
   * appended in order, the last of them current, or nothing changed.
   */
  predicate Replays(t: Tracked, u: Tracked, ts: seq<Element>) {
    && u.view.popup == t.view.popup && u.view.galleryIndex == t.view.galleryIndex
    && |u.dispatched| == |t.dispatched| + |ts|
    && u.dispatched[..|t.dispatched|] == t.dispatched
    && (forall i :: 0 <= i < |ts| ==> u.dispatched[|t.dispatched| + i] == Dispatch(ts[i].id))
    && (ts != [] ==> 0 <= u.view.section < |Registry| && Registry[u.view.section] == ts[|ts| - 1])
    && (ts == [] ==> u == t)
  }

  /**
   * `entries.forEach(...)`: the callback over a whole batch, in order.  It
   * dispatches the routine of every acting target, in batch order, after the
   * routines dispatched before; the last acting target becomes the current
   * section; a batch in which nothing acts changes nothing (`Replays`).
   */
  function OnEntries(t: Tracked, es: seq<Entry>): (u: Tracked)
    requires Inv(t.view)
    ensures Inv(u.view)
    ensures Replays(t, u, Acting(es))
    decreases |es|
  {
    if es == [] then t
    else
      var init := es[..|es| - 1];
      var e := es[|es| - 1];
      var mid := OnEntries(t, init);
      ActingSnoc(es);
      ReplaysSnoc(t, mid, Acting(init), e);
      OnEntry(mid, e)
  }

  /** One more entry extends the replayed targets by its own when it acts. */
  lemma ReplaysSnoc(t: Tracked, mid: Tracked, ts: seq<Element>, e: Entry)
    requires Inv(mid.view) && Replays(t, mid, ts)
    ensures Replays(t, OnEntry(mid, e), ts + if Activates(e) then [e.target] else [])
  {
    if Activates(e) {
      ReplaysActing(t, mid, ts, e, OnEntry(mid, e));
    } else {
      assert ts + [] == ts;
    }
  }

  lemma ReplaysActing(t: Tracked, mid: Tracked, ts: seq<Element>, e: Entry, u: Tracked)
    requires Replays(t, mid, ts)
    requires u.view.popup == mid.view.popup && u.view.galleryIndex == mid.view.galleryIndex
    requires 0 <= u.view.section < |Registry| && Registry[u.view.section] == e.target
    requires u.dispatched == mid.dispatched + [Dispatch(e.target.id)]
    ensures Replays(t, u, ts + [e.target])
  {
    AppendedDispatch(t.dispatched, mid.dispatched, ts, e.target);
  }

  lemma ActingSnoc(es: seq<Entry>)
    requires es != []
    ensures Acting(es) == Acting(es[..|es| - 1]) + if Activates(es[|es| - 1]) then [es[|es| - 1].target] else []
  {
  }

  /** Appending the routine of one more target to a dispatch list that matches the targets so far. */
  lemma AppendedDispatch(d: seq<Routine>, m: seq<Routine>, ts: seq<Element>, x: Element)
    requires |m| == |d| + |ts| && m[..|d|] == d
    requires forall i :: 0 <= i < |ts| ==> m[|d| + i] == Dispatch(ts[i].id)
    ensures (m + [Dispatch(x.id)])[..|d|] == d
    ensures forall i :: 0 <= i < |ts + [x]| ==> (m + [Dispatch(x.id)])[|d| + i] == Dispatch((ts + [x])[i].id)
  {
    assert (m + [Dispatch(x.id)])[..|d|] == m[..|d|];
  }

  /** An entry for the `k`-th registered section makes it current and dispatches its routine. */
  lemma ActivateSection(t: Tracked, k: nat, e: Entry)
    requires Inv(t.view) && k < SectionCount
    requires e.isIntersecting && e.target == Registry[k]
    ensures OnEntry(t, e) == Tracked(t.view.(section := k), t.dispatched + [Dispatch(SectionIds[k])])
  {
    RegistryShape();
    assert Registry[k] in Registry;
  }

  /**
   * There is no once-only guard: the same section entering twice dispatches
   * its routine twice.
   */
  lemma RepeatedEntryDispatchesTwice(t: Tracked, e: Entry)
    requires Inv(t.view) && Activates(e)
    ensures OnEntries(t, [e, e]).dispatched == t.dispatched + [Dispatch(e.target.id), Dispatch(e.target.id)]
  {
    assert Acting([e, e]) == [e.target, e.target] by {
      assert [e][..0] == [] && [e, e][..1] == [e];
      ActingSnoc([e]);
      ActingSnoc([e, e]);
    }
    var u := OnEntries(t, [e, e]);
    var ts := Acting([e, e]);
    assert Replays(t, u, ts);
    assert ts[0] == e.target && ts[1] == e.target;
    TwoAppended(t.dispatched, u.dispatched, Dispatch(e.target.id));
  }

  lemma TwoAppended(d: seq<Routine>, m: seq<Routine>, x: Routine)
    requires |m| == |d| + 2 && m[..|d|] == d && m[|d|] == x && m[|d| + 1] == x
    ensures m == d + [x, x]
  {
    assert m == m[..|d|] + [m[|d|], m[|d| + 1]];
  }

  /** The callback over a batch is the callback over all but the last entry, then the last. */
  lemma OnEntriesPrefix(t: Tracked, es: seq<Entry>, n: nat)
    requires Inv(t.view) && n < |es|
    ensures OnEntries(t, es[..n + 1]) == OnEntry(OnEntries(t, es[..n]), es[n])
  {
    assert es[..n + 1][..n] == es[..n];
  }
}
