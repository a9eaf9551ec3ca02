/**
 * The fixed tables the component is built from: the gallery catalogue, the
 * ordered section ids used for keyboard paging, and JavaScript's
 * `Array.prototype.indexOf`, which the component uses to find an image in the
 * catalogue and a section in the registry.
 */
module Catalogue {

  /** The gallery catalogue in display order; its order defines next/previous. */
  const GalleryImages: seq<string> := [
    "galeria_1.jpg", "galeria_2.jpg", "galeria_3.jpg",
    "galeria_4.jpg", "galeria_5.jpg", "galeria_6.jpg",
    "galeria_7.jpg", "galeria_8.jpg", "galeria_9.jpg"
  ]

  const GallerySize: nat := 9

  /** The section ids the keyboard handler pages through, top to bottom. */
  const SectionIds: seq<string> := [
    "hero", "problema", "transformacion", "galeria",
    "impacto", "costos", "proceso", "economia-circular"
  ]

  const SectionCount: nat := 8

  /** The index of the last section, `sectionIds.length - 1`. */
  const LastSection: nat := SectionCount - 1

  predicate Distinct<T(==)>(s: seq<T>) {
    forall i, j :: 0 <= i < j < |s| ==> s[i] != s[j]
  }

  /**
   * `s.indexOf(x)`: the position of the first occurrence of `x` in `s`,
   * or -1 when `x` does not occur.
   */
  function IndexOf<T(==)>(s: seq<T>, x: T): (r: int)
    ensures -1 <= r < |s|
    ensures r == -1 <==> x !in s
    ensures 0 <= r ==> s[r] == x && x !in s[..r]
  {
    if |s| == 0 then -1
    else if s[0] == x then 0
    else
      var r := IndexOf(s[1..], x);
      assert s[1..][..if r < 0 then 0 else r] == s[1..if r < 0 then 1 else r + 1];
      if r == -1 then -1 else r + 1
  }

  /** In a sequence without repeats, `indexOf` inverts indexing. */
  lemma IndexOfDistinct<T>(s: seq<T>, k: nat)
    requires Distinct(s) && k < |s|
    ensures IndexOf(s, s[k]) == k
  {
  }

  lemma CatalogueShape()
    ensures |GalleryImages| == GallerySize && |SectionIds| == SectionCount
    ensures forall k :: 0 <= k < GallerySize ==> GalleryImages[k] != ""
  {
  }

  /** No image appears twice in the catalogue, so every image has one position. */
  lemma GalleryDistinct()
    ensures Distinct(GalleryImages)
  {
    forall i, j | 0 <= i < j < |GalleryImages|
      ensures GalleryImages[i] != GalleryImages[j]
    {
      assert GalleryImages[i][8] != GalleryImages[j][8];
    }
  }

  /** The position of the `k`-th image is `k`. */
  lemma GalleryIndexOf(k: nat)
    requires k < GallerySize
    ensures IndexOf(GalleryImages, GalleryImages[k]) == k
  {
    GalleryDistinct();
    IndexOfDistinct(GalleryImages, k);
  }
}
