# Section navigation and animation core of the coffee-husk presentation page

This project is a Dafny model of the state machine inside the page component
`src/App.tsx`. The page is a long scrolling presentation with eight sections.
The model covers:

- **Navigation state.** The component keeps three fields: `currentSection`,
  `popupImage` (the image shown in the gallery overlay, or `null`) and
  `currentGalleryIndex`.
- **Keyboard handler.** With the overlay open, ArrowRight and ArrowLeft page
  through the nine gallery images and wrap around at both ends; Escape closes
  the overlay. With the overlay closed, the arrow keys page through the eight
  sections, stopping at the first and the last.
- **Overlay operations.** Opening an image by id and closing the overlay.
- **Intersection callback.** An observer entry that intersects and whose
  element is registered makes that section current and runs its entry
  routine.
- **Section dispatcher.** Maps a section id to its entry routine.
- **Reveal schedules.** The staggered `setTimeout` delays of the reveal
  routines, including the gallery's fallback reveal.
- **Counters.** The per-frame step of the counter animations.
- **Calculator.** Turns tonnes of coffee husk into square metres.

Modules:

- `Catalogue` (catalogue.dfy): the gallery catalogue, the section ids, and
  `IndexOf`, which models JavaScript's `indexOf`.
- `Navigation` (navigation.dfy): the navigation fields as a value `View`,
  the invariant `Inv`, and the pure transitions `KeyDown`, `Open` and
  `Close`.
- `Activation` (activation.dfy): the `Routine` datatype, `Dispatch`, the
  section registry, and the intersection callback as a fold over a batch of
  entries.
- `Stagger` (stagger.dfy): the reveal plans.
- `Counters` (counters.dfy): counter constants, the frame step and the frame
  loop.
- `Calculator` (calculator.dfy): the calculator, over exact reals.
- `AppState` (app.dfy): class `App`. It holds the component's fields and its
  handlers as methods that update them in place. Each method follows the
  source's own steps, including the exact test
  `popupImage && galleryImages.includes(popupImage)`. Each navigation and
  observer handler is proved to produce the pure transition of the same name
  (`ClosePopup` gives `Close`, `OpenGalleryPopup` gives `Open`, `HandleKeyDown`
  gives `KeyDown`, `OnIntersect` gives `OnEntries`). The two calculator methods
  are proved to store the calculator's result and to leave the navigation
  fields alone, so every method keeps `Valid()`.

The invariant is the following. The section index is in `[0, 8)`. The gallery
index is in `[0, 9)`. When an image is shown, it is the image at the gallery
index. The constructor sets it up and every handler keeps it. It is slightly
stronger than "the overlay is closed, or the index is in range and shows the
image": the gallery index stays in range while the overlay is closed too,
because the component only ever assigns valid indices to it.

Decisions where the code and its design description disagree (the model
follows the code):

- **No once-only guard.** The code does not check whether a section was
  activated before. Every intersecting, registered entry dispatches its
  routine again (`Activation.RepeatedEntryDispatchesTwice`).
- **Closing keeps the index.** `closePopup` only clears `popupImage`. The
  gallery index keeps its value.
- **One calculator.** The code has only the husk-to-square-metres
  calculation. There is no second, "urban" variant.

`handleKeyDown` is registered once, with an empty dependency list. At run time
it therefore reads the values of `popupImage`, `currentSection` and
`currentGalleryIndex` from the first render (a stale closure). The model
deliberately treats the handler as a transition over the *current* fields,
as the code is written.

## Model

| member | source | states |
|---|---|---|
| Catalogue.IndexOf | src/App.tsx:64 | `indexOf`: -1 exactly when the element is absent; otherwise an in-range position holding the element, with no earlier occurrence |
| Catalogue.CatalogueShape | src/App.tsx:15-25 | nine gallery images, none of them empty; eight section ids |
| Catalogue.GalleryDistinct | src/App.tsx:15-25 | no image occurs twice in the catalogue |
| Catalogue.IndexOfDistinct | src/App.tsx:398 | in a sequence without repeats, `indexOf` of the `k`-th element is `k` |
| Catalogue.GalleryIndexOf | src/App.tsx:398 | the position of the `k`-th gallery image is `k` |
| Navigation.OverlayOpenIffPopup | src/App.tsx:89 | under the invariant, the handler's test `popupImage && galleryImages.includes(popupImage)` holds exactly when an image is set |
| Navigation.GalleryNext | src/App.tsx:95 | the next index stays in `[0, 9)`: it is `i + 1`, or 0 after the last image |
| Navigation.GalleryPrev | src/App.tsx:100 | the previous index stays in `[0, 9)`: it is `i - 1`, or 8 before the first image |
| Navigation.GalleryWraps | src/App.tsx:95-100 | next of 8 is 0, and previous of 0 is 8 |
| Navigation.GalleryRoundTrip | src/App.tsx:95-100 | `prev(next(i)) == i` and `next(prev(i)) == i` |
| Navigation.SectionNext | src/App.tsx:110 | the next section stays in `[0, 8)`: it is `s + 1`, or 7 when `s` is the last section |
| Navigation.SectionPrev | src/App.tsx:117 | the previous section stays in `[0, 8)`: it is `s - 1`, or 0 when `s` is the first section |
| Navigation.Close | src/App.tsx:410-412 | closing clears the image, keeps the section and the gallery index, and keeps the invariant |
| Navigation.Open | src/App.tsx:397-404 | an id in the catalogue is shown at its first position and the section is kept; an unknown id leaves the whole state unchanged; the invariant is kept |
| Navigation.KeyDown | src/App.tsx:86-124 | keeps the invariant and suppresses exactly the keys it handles. With the overlay open: Right and Left page circularly, Escape closes, and the section is unchanged. With it closed: Down/Right and Up/Left page clamped and request a scroll to the new section, and the gallery fields are unchanged. Other keys change nothing |
| Navigation.GalleryKey | src/App.tsx:93-106 | the overlay branch keeps the invariant and the section and requests no scroll |
| Navigation.PageKey | src/App.tsx:108-122 | the section branch keeps the invariant and the gallery fields |
| Navigation.Press | src/App.tsx:86-124 | any number of presses of a key keeps the invariant |
| Navigation.PressRight | src/App.tsx:93-97 | with the overlay open, `n` presses of ArrowRight give index `(i + n) mod 9`; the overlay stays open and the section is unchanged |
| Navigation.PressLeft | src/App.tsx:98-102 | with the overlay open, `n` presses of ArrowLeft give index `(i - n) mod 9`; the overlay stays open and the section is unchanged |
| Navigation.GalleryCycle | src/App.tsx:93-97 | with the overlay open, `n` presses of ArrowRight return to the starting state exactly when `n` is a multiple of 9 |
| Navigation.RightThenLeft | src/App.tsx:93-102 | `n` presses of ArrowLeft undo `n` presses of ArrowRight |
| Navigation.PressDown | src/App.tsx:108-114 | with the overlay closed, `n` presses of ArrowDown reach section `min(s + n, 7)` and change nothing else |
| Navigation.PressUp | src/App.tsx:115-121 | with the overlay closed, `n` presses of ArrowUp reach section `max(s - n, 0)` and change nothing else |
| Navigation.PagingClamps | src/App.tsx:108-122 | "previous" from section 0 and "next" from section 7 leave the state unchanged |
| Navigation.CloseIdempotent | src/App.tsx:410-412 | closing twice is the same as closing once |
| Navigation.OpenAt | src/App.tsx:397-404 | opening the `k`-th image sets the index to `k` and shows that image |
| Navigation.OpenThenEscape | src/App.tsx:103-106 | Escape after opening image `k` closes the overlay, keeps index `k` and keeps the section |
| Activation.Owner | src/App.tsx:134-157 | every specialised routine belongs to one of the five specialised section ids |
| Activation.Dispatch | src/App.tsx:134-160 | an id gets the generic routine exactly when it is not one of the five specialised ids; otherwise it gets the routine whose owner it is. The particle delay is 1200 ms and the transform-line delay is 1000 ms |
| Activation.DispatchTable | src/App.tsx:134-160 | the routine of each of the eight sections: hero, proceso and economia-circular get the generic routine |
| Activation.RegistryShape | src/App.tsx:479-1037 | the `k`-th registered element is section `k`, with the `k`-th section id |
| Activation.OnEntry | src/App.tsx:62-69 | an intersecting, registered entry makes its registry position the current section and appends its routine; any other entry changes nothing; the gallery fields and the invariant are kept |
| Activation.Acting | src/App.tsx:62-69 | the targets the callback acts on, in batch order: all registered, at most one per entry, none exactly when no entry intersects with a registered target, and the last entry's target last when that entry acts |
| Activation.OnEntries | src/App.tsx:61-70 | (`Replays` of the acting targets) the routine of every acting target is dispatched, in batch order, after the earlier dispatches; the last acting target becomes the current section; a batch acting on nothing changes nothing; the invariant and the gallery fields are kept |
| Activation.ActivateSection | src/App.tsx:61-70 | an intersecting entry for the `k`-th registered section sets the section to `k` and dispatches that section's routine |
| Activation.RepeatedEntryDispatchesTwice | src/App.tsx:61-70 | the same section entering twice dispatches its routine twice |
| Stagger.AnimateGenericSection | src/App.tsx:365-372 | element `i` is revealed at `i * 100` ms, for every element, in strictly increasing delay order |
| Stagger.AnimateGalleryItems | src/App.tsx:163-198 | the title (if present) is revealed at 0 ms, then the subtitle (if present) at 200 ms, then tile `i` at `400 + i * 150` ms; the whole plan is strictly ascending |
| Stagger.ForceGalleryVisibility | src/App.tsx:434-456 | nothing is forced exactly when there are no tiles or some tile is already visible; otherwise tile `i` is forced visible at `3000 + i * 100` ms, for every tile, in ascending order |
| Counters.ProblemCounters | src/App.tsx:200-275 | nothing starts unless both the tonnes and the percentage displays exist; otherwise the percentage counter starts first, the production counter second exactly when its display exists, and the tonnes counter last, with nothing else |
| Counters.ImpactCounterJobs | src/App.tsx:277-351 | each impact counter starts exactly when its display exists, once, in the order families, cost reduction, CO2 |
| Counters.EaseOutExpo | src/App.tsx:374-376 | whatever the exponential curve gives, `easeOutExpo(1)` is exactly 1 |
| Counters.Step | src/App.tsx:212-222 | a frame waits exactly when the counter checks its start and the start has not come; a frame that shows a value asks for another exactly while `now` is before start + duration; the last value shown is the target |
| Counters.Shown | src/App.tsx:232-247 | a run of frames shows at most one value per frame; nothing while every frame is still waiting for the start; the target last when the last frame is at or after the end time |
| Counters.Animate | src/App.tsx:257-272 | the frame loop shows exactly the values of the frames it used; it keeps going on every frame before the end time; it stops only on the first frame at or after the end time, and then the last value shown is the target |
| Counters.TonnesFinalValue | src/App.tsx:253-268 | at or after its end time the tonnes counter shows 195000 and stops |
| Calculator.ParsedOrZero | src/App.tsx:415 | input that fails to parse (NaN) becomes 0; a parsed number is kept |
| Calculator.JsRound | src/App.tsx:417 | `Math.round` gives the integer `n` with `n - 0.5 <= x < n + 0.5`, so halves round up |
| Calculator.CalculateCiscoProduction | src/App.tsx:414-422 | `exact * 9 == tonnes * 1000`; `rounded` is a multiple of 1000 and satisfies `rounded - 500 <= exact < rounded + 500` |
| Calculator.RoundedIsNearestThousand | src/App.tsx:417 | `rounded` is the only multiple of 1000 that close to `exact`, so it is the nearest thousand, with ties going up |
| Calculator.InitialInput | src/App.tsx:10-11 | the initial input of 196 tonnes gives 196000/9 square metres, rounded to 22000 |
| Calculator.UnparsableInput | src/App.tsx:415-418 | input that does not parse gives 0 for both outputs |
| AppState.App.constructor | src/App.tsx:6-11 | initial fields: section 0, no image, gallery index 0, calculator result (0, 0); the invariant holds |
| AppState.App.ClosePopup | src/App.tsx:410-412 | the fields become `Close` of the old fields, and the invariant is kept |
| AppState.App.OpenGalleryPopup | src/App.tsx:397-404 | the fields become `Open` of the old fields, and the invariant is kept |
| AppState.App.HandleKeyDown | src/App.tsx:86-124 | the source's handler, run in place, produces exactly `KeyDown` of the old fields, including the suppress flag and the scroll request |
| AppState.App.OnIntersect | src/App.tsx:61-70 | the observer callback, run over a batch, produces exactly `OnEntries` of the old fields, with the dispatched routines in order |
| AppState.App.HandleCiscoInputChange | src/App.tsx:425-428 | the stored result is the calculator applied to the parsed input, with 0 when parsing fails; the navigation fields and the invariant are kept |
| AppState.App.CalculateInitial | src/App.tsx:430-432 | the mount effect stores the result for the initial input `'196'`: 196000/9 square metres, rounded to 22000; the navigation fields and the invariant are kept |

## Left out

- DOM work: `querySelector`, `classList`, style writes, and the element
  behind `scrollIntoView`. A scroll shows up only as the section id that
  `KeyDown` asks to scroll to (`Outcome.scrollTo`).
- The parallax scroll handler (src/App.tsx:41-52). It is a style write.
- Observer geometry: the `threshold` and `rootMargin` options
  (src/App.tsx:55-59). The model receives entries already marked as
  intersecting or not.
- Time: `setTimeout` and `requestAnimationFrame` are host scheduling. Delays
  are data in the reveal plans and in `Routine`. The frame times a counter
  sees are an input sequence.
- Counters.Step: the exponential curve `1 - 2^(-10 t)` is floating point, so
  it is an abstract parameter `curve`. Only its boundary `easeOutExpo(1) == 1`
  is modelled exactly.
- Display formatting: `toLocaleString('es-CO')` is a library call, and the
  `+` and `%` suffixes are presentation. Counter values are integers.
- `createParticles`. It uses `Math.random` and creates DOM elements. Its
  1200 ms delay is kept in the `CountersAndParticles` routine.
- `animateCostCounters` only logs, so its routine `CostCounters` has no effect.
- The text field `ciscoInput` is not kept. `HandleCiscoInputChange` takes the
  parsed value and stores only the result.
- Input parsing: `parseFloat` is a library call. The calculator takes its
  result, with `None` standing for NaN.
- Calculator.CalculateCiscoProduction: uses exact reals, not IEEE doubles.
  Floating-point rounding and the result of parsing "Infinity" are not
  modelled.
- Markup and assets: the JSX, the image `onError` fallbacks, `console.log`
  and `getPopupCaption`, which returns a constant.
- `isLoaded` and the mount/unmount effects that attach and detach the
  listeners (src/App.tsx:27-39). The calculator's mount effect
  (src/App.tsx:430-432) is the method `CalculateInitial`. The constructor
  gives the state before any effect has run.
- React's asynchronous state batching. The model applies each setter
  immediately. In the intersection callback, the last acting entry of a batch
  decides the section, which is also what batching yields.
- The stale closure of `handleKeyDown` (src/App.tsx:126), as described above.
