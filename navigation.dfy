/**
 * The navigation state of the page and its pure transitions: keyboard paging
 * (`handleKeyDown`), opening and closing the gallery overlay.  The class in
 * app.dfy runs these transitions in place; everything proved here carries
 * over to it.
 */
module Navigation {
  import opened Wrappers
  import opened Catalogue

  /** The keys the handler distinguishes; every other key is `OtherKey`. */
  datatype Key = ArrowRight | ArrowLeft | ArrowUp | ArrowDown | Escape | OtherKey

  /**
   * A snapshot of the three navigation fields of the component:
   * `currentSection`, `popupImage` and `currentGalleryIndex`.
   */
  datatype View = View(section: int, popup: Option<string>, galleryIndex: int)

  /** The initial values of the three fields. */
  const Initial: View := View(0, None, 0)

  /**
   * The invariant every operation keeps: the section and the gallery index are
   * in range, and an open overlay shows the image at the gallery index.
   */
  predicate Inv(v: View) {
    && 0 <= v.section < SectionCount
    && 0 <= v.galleryIndex < GallerySize
    && (v.popup.Some? ==> GalleryImages[v.galleryIndex] == v.popup.value)
  }

  /** JavaScript truthiness of `popupImage`: neither `null` nor the empty string. */
  predicate Truthy(p: Option<string>) {
    p.Some? && p.value != ""
  }

  /** The condition under which the handler pages the gallery. */
  predicate OverlayOpen(v: View) {
    Truthy(v.popup) && v.popup.value in GalleryImages
  }

  /** On every state that satisfies the invariant, the overlay is open exactly when an image is set. */
  lemma OverlayOpenIffPopup(v: View)
    requires Inv(v)
    ensures OverlayOpen(v) <==> v.popup.Some?
  {
    CatalogueShape();
  }

  /** ArrowRight in the gallery: one step forward, wrapping from the last image to the first. */
  function GalleryNext(i: int): (j: int)
    requires 0 <= i < GallerySize
    ensures 0 <= j < GallerySize
    ensures j == i + 1 || (i == GallerySize - 1 && j == 0)
  {
    (i + 1) % GallerySize
  }

  /** ArrowLeft in the gallery: one step back, wrapping from the first image to the last. */
  function GalleryPrev(i: int): (j: int)
    requires 0 <= i < GallerySize
    ensures 0 <= j < GallerySize
    ensures j == i - 1 || (i == 0 && j == GallerySize - 1)
  {
    if i == 0 then GallerySize - 1 else i - 1
  }

  lemma GalleryWraps()
    ensures GalleryNext(GallerySize - 1) == 0 && GalleryPrev(0) == GallerySize - 1
  {
  }

  /** Previous undoes next, and next undoes previous. */
  lemma GalleryRoundTrip(i: int)
    requires 0 <= i < GallerySize
    ensures GalleryPrev(GalleryNext(i)) == i
    ensures GalleryNext(GalleryPrev(i)) == i
  {
  }

  /** `Math.min(currentSection + 1, sectionIds.length - 1)`. */
  function SectionNext(s: int): (t: int)
    requires 0 <= s < SectionCount
    ensures 0 <= t < SectionCount
    ensures t == s + 1 || (s == LastSection && t == s)
  {
    if s + 1 < LastSection then s + 1 else LastSection
  }

  /** `Math.max(currentSection - 1, 0)`. */
  function SectionPrev(s: int): (t: int)
    requires 0 <= s < SectionCount
    ensures 0 <= t < SectionCount
    ensures t == s - 1 || (s == 0 && t == 0)
  {
    if s - 1 > 0 then s - 1 else 0
  }

  /** What one key press produces: the new fields, whether the default action is suppressed, and the section scrolled to. */
  datatype Outcome = Outcome(next: View, prevented: bool, scrollTo: Option<string>)

  /** The keys the handler acts on (and suppresses): with an image shown, the gallery keys; otherwise the four arrows. */
  predicate Handles(v: View, k: Key) {
    if v.popup.Some? then k == ArrowRight || k == ArrowLeft || k == Escape
    else k == ArrowRight || k == ArrowLeft || k == ArrowUp || k == ArrowDown
  }

  /** `closePopup`: clear the image and nothing else. */
  function Close(v: View): (w: View)
    requires Inv(v)
    ensures Inv(w) && w.popup == None
    ensures w.section == v.section && w.galleryIndex == v.galleryIndex
  {
    v.(popup := None)
  }

  /** `openGalleryPopup(id)`: show `id` if it is in the catalogue; otherwise do nothing. */
  function Open(v: View, id: string): (w: View)
    requires Inv(v)
    ensures Inv(w) && w.section == v.section
    ensures id in GalleryImages ==>
      w.popup == Some(id) && GalleryImages[w.galleryIndex] == id && id !in GalleryImages[..w.galleryIndex]
    ensures id !in GalleryImages ==> w == v
  {
    var imageIndex := IndexOf(GalleryImages, id);
    if imageIndex != -1 then v.(galleryIndex := imageIndex, popup := Some(id)) else v
  }

  /**
   * The keyboard handler, as a transition over the current fields.  The
   * handler tests `popupImage && galleryImages.includes(popupImage)`; on every
   * state satisfying the invariant that is `popup.Some?` (OverlayOpenIffPopup),
   * which is the test used here.  App.HandleKeyDown runs the handler's own test.
   */
  function KeyDown(v: View, k: Key): (o: Outcome)
    requires Inv(v)
    ensures Inv(o.next)
    ensures o.prevented <==> Handles(v, k)
    ensures !o.prevented ==> o.next == v && o.scrollTo == None
    // with the overlay open, only the gallery fields move
    ensures v.popup.Some? ==> o.next.section == v.section && o.scrollTo == None
    ensures v.popup.Some? && k == ArrowRight ==>
      o.next.galleryIndex == GalleryNext(v.galleryIndex) && o.next.popup.Some?
    ensures v.popup.Some? && k == ArrowLeft ==>
      o.next.galleryIndex == GalleryPrev(v.galleryIndex) && o.next.popup.Some?
    ensures v.popup.Some? && k == Escape ==> o.next == Close(v)
    // with the overlay closed, only the section moves, and the page scrolls to it
    ensures v.popup.None? ==> o.next.popup == v.popup && o.next.galleryIndex == v.galleryIndex
    ensures v.popup.None? && (k == ArrowDown || k == ArrowRight) ==>
      o.next.section == SectionNext(v.section)
    ensures v.popup.None? && (k == ArrowUp || k == ArrowLeft) ==>
      o.next.section == SectionPrev(v.section)
    ensures v.popup.None? && o.prevented ==> o.scrollTo == Some(SectionIds[o.next.section])
  {
    if v.popup.Some? then GalleryKey(v, k) else PageKey(v, k)
  }

  /** The overlay branch of the handler: page the gallery circularly, or close it on Escape. */
  function GalleryKey(v: View, k: Key): (o: Outcome)
    requires Inv(v) && v.popup.Some?
    ensures Inv(o.next) && o.next.section == v.section && o.scrollTo == None
  {
    if k == ArrowRight then
      var nextIndex := GalleryNext(v.galleryIndex);
      Outcome(v.(galleryIndex := nextIndex, popup := Some(GalleryImages[nextIndex])), true, None)
    else if k == ArrowLeft then
      var prevIndex := GalleryPrev(v.galleryIndex);
      Outcome(v.(galleryIndex := prevIndex, popup := Some(GalleryImages[prevIndex])), true, None)
    else if k == Escape then
      Outcome(Close(v), true, None)
    else
      Outcome(v, false, None)
  }

  /**
   * The branch without an overlay: ArrowDown or ArrowRight pages forward,
   * ArrowUp or ArrowLeft pages back, clamped at both ends, and the page
   * scrolls to the new section.
   */
  function PageKey(v: View, k: Key): (o: Outcome)
    requires Inv(v) && v.popup.None?
    ensures Inv(o.next) && o.next.popup == v.popup && o.next.galleryIndex == v.galleryIndex
  {
    if k == ArrowDown || k == ArrowRight then
      var nextSection := SectionNext(v.section);
      Outcome(v.(section := nextSection), true, Some(SectionIds[nextSection]))
    else if k == ArrowUp || k == ArrowLeft then
      var prevSection := SectionPrev(v.section);
      Outcome(v.(section := prevSection), true, Some(SectionIds[prevSection]))
    else
      Outcome(v, false, None)
  }

  /** The state after pressing `k` `n` times in a row. */
  function Press(v: View, k: Key, n: nat): (w: View)
    requires Inv(v)
    ensures Inv(w)
    decreases n
  {
    if n == 0 then v else Press(KeyDown(v, k).next, k, n - 1)
  }

  /** Stepping the index by `d` modulo 9 and then by `m - d` is stepping it by `m`. */
  lemma ModShift(i: int, j: int, d: int, m: int)
    requires j == (i + d) % GallerySize
    ensures (j + (m - d)) % GallerySize == (i + m) % GallerySize
  {
    var q := (i + d) / GallerySize;
    assert j == i + d - GallerySize * q;
  }

  lemma ModBack(i: int, n: int)
    requires 0 <= i < GallerySize
    ensures ((i + n) % GallerySize - n) % GallerySize == i
  {
    var q := (i + n) / GallerySize;
    assert (i + n) % GallerySize == i + n - GallerySize * q;
    assert (i + n) % GallerySize - n == i - GallerySize * q;
  }

  lemma ModCycle(i: int, n: int)
    requires 0 <= i < GallerySize
    ensures (i + n) % GallerySize == i <==> n % GallerySize == 0
  {
    var q := (i + n) / GallerySize;
    assert (i + n) % GallerySize == i + n - GallerySize * q;
    assert n == GallerySize * (n / GallerySize) + n % GallerySize;
  }

  /** With the overlay open, `n` presses of ArrowRight advance the index by `n` modulo 9. */
  lemma {:induction false} PressRight(v: View, n: nat)
    requires Inv(v) && v.popup.Some?
    ensures Press(v, ArrowRight, n).galleryIndex == (v.galleryIndex + n) % GallerySize
    ensures Press(v, ArrowRight, n).popup.Some?
    ensures Press(v, ArrowRight, n).section == v.section
    decreases n
  {
    if n > 0 {
      var j := GalleryNext(v.galleryIndex);
      var w := KeyDown(v, ArrowRight).next;
      assert w.galleryIndex == j && w.popup.Some? && w.section == v.section;
      assert Press(v, ArrowRight, n) == Press(w, ArrowRight, n - 1);
      PressRight(w, n - 1);
      ModShift(v.galleryIndex, j, 1, n);
    }
  }

  /** With the overlay open, `n` presses of ArrowLeft move the index back by `n` modulo 9. */
  lemma {:induction false} PressLeft(v: View, n: nat)
    requires Inv(v) && v.popup.Some?
    ensures Press(v, ArrowLeft, n).galleryIndex == (v.galleryIndex - n) % GallerySize
    ensures Press(v, ArrowLeft, n).popup.Some?
    ensures Press(v, ArrowLeft, n).section == v.section
    decreases n
  {
    if n > 0 {
      var j := GalleryPrev(v.galleryIndex);
      var w := KeyDown(v, ArrowLeft).next;
      assert w.galleryIndex == j && w.popup.Some? && w.section == v.section;
      assert Press(v, ArrowLeft, n) == Press(w, ArrowLeft, n - 1);
      PressLeft(w, n - 1);
      ModShift(v.galleryIndex, j, -1, 0 - n);
    }
  }

  /** Two states with an open overlay are equal once their section and gallery index agree. */
  lemma SameOverlay(a: View, b: View)
    requires Inv(a) && Inv(b) && a.popup.Some? && b.popup.Some?
    requires a.section == b.section && a.galleryIndex == b.galleryIndex
    ensures a == b
  {
  }

  /** With the overlay open, ArrowRight pressed `n` times comes back to the starting image exactly when `n` is a multiple of 9. */
  lemma GalleryCycle(v: View, n: nat)
    requires Inv(v) && v.popup.Some?
    ensures Press(v, ArrowRight, n) == v <==> n % GallerySize == 0
  {
    var w := Press(v, ArrowRight, n);
    PressRight(v, n);
    ModCycle(v.galleryIndex, n);
    if n % GallerySize == 0 {
      SameOverlay(w, v);
    }
  }

  /** `n` presses of ArrowLeft undo `n` presses of ArrowRight. */
  lemma RightThenLeft(v: View, n: nat)
    requires Inv(v) && v.popup.Some?
    ensures Press(Press(v, ArrowRight, n), ArrowLeft, n) == v
  {
    var w := Press(v, ArrowRight, n);
    PressRight(v, n);
    var u := Press(w, ArrowLeft, n);
    PressLeft(w, n);
    ModBack(v.galleryIndex, n);
    assert u.galleryIndex == v.galleryIndex && u.section == v.section;
    SameOverlay(u, v);
  }

  /** With the overlay closed, `n` presses of ArrowDown reach section `min(s + n, 7)` and leave the gallery alone. */
  lemma {:induction false} PressDown(v: View, n: nat)
    requires Inv(v) && v.popup.None?
    ensures Press(v, ArrowDown, n) ==
      v.(section := if v.section + n < LastSection then v.section + n else LastSection)
    decreases n
  {
    if n > 0 {
      PressDown(KeyDown(v, ArrowDown).next, n - 1);
    }
  }

  /** With the overlay closed, `n` presses of ArrowUp reach section `max(s - n, 0)` and leave the gallery alone. */
  lemma {:induction false} PressUp(v: View, n: nat)
    requires Inv(v) && v.popup.None?
    ensures Press(v, ArrowUp, n) ==
      v.(section := if v.section - n > 0 then v.section - n else 0)
    decreases n
  {
    if n > 0 {
      PressUp(KeyDown(v, ArrowUp).next, n - 1);
    }
  }

  /** Paging clamps at both ends: previous from the first section and next from the last change nothing. */
  lemma PagingClamps(v: View)
    requires Inv(v) && v.popup.None?
    ensures v.section == 0 ==> KeyDown(v, ArrowUp).next == v && KeyDown(v, ArrowLeft).next == v
    ensures v.section == LastSection ==>
      KeyDown(v, ArrowDown).next == v && KeyDown(v, ArrowRight).next == v
  {
  }

  /** Closing twice is closing once. */
  lemma CloseIdempotent(v: View)
    requires Inv(v)
    ensures Close(Close(v)) == Close(v)
  {
  }

  /** Opening the `k`-th image puts the gallery index at `k`. */
  lemma OpenAt(v: View, k: nat)
    requires Inv(v) && k < GallerySize
    ensures Open(v, GalleryImages[k]) == v.(galleryIndex := k, popup := Some(GalleryImages[k]))
  {
    GalleryIndexOf(k);
  }

  /** Escape after opening an image closes the overlay and keeps the section and the image's index. */
  lemma OpenThenEscape(v: View, k: nat)
    requires Inv(v) && k < GallerySize
    ensures KeyDown(Open(v, GalleryImages[k]), Escape).next ==
      v.(galleryIndex := k, popup := None)
  {
    OpenAt(v, k);
  }
}
