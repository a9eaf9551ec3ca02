/**
 * The component's state, updated in place by its event handlers.  Each
 * handler runs the source's own steps and is proved to produce the pure
 * transition of the same name in Navigation and Activation, so every
 * property proved there holds of the running component.
 */
module AppState {
  import opened Wrappers
  import opened Catalogue
  import opened Navigation
  import opened Activation
  import opened Calculator

  class App {
    var currentSection: int
    var popupImage: Option<string>
    var currentGalleryIndex: int
    var calculatorResult: Production

    /** The navigation fields as a value. */
    function Fields(): View
      reads this
    {
      View(currentSection, popupImage, currentGalleryIndex)
    }

    predicate Valid()
      reads this
    {
      Inv(Fields())
    }

    /** The initial values of the component's state. */
    constructor ()
      ensures Valid() && Fields() == Initial
      ensures calculatorResult == Production(0.0, 0)
    {
      currentSection := 0;
      popupImage := None;
      currentGalleryIndex := 0;
      calculatorResult := Production(0.0, 0);
    }

    /** `closePopup`. */
    method ClosePopup()
      requires Valid()
      modifies this
      ensures Valid() && Fields() == Close(old(Fields()))
      ensures calculatorResult == old(calculatorResult)
    {
      popupImage := None;
    }

    /** `openGalleryPopup(imagePath)`. */
    method OpenGalleryPopup(imagePath: string)
      requires Valid()
      modifies this
      ensures Valid() && Fields() == Open(old(Fields()), imagePath)
      ensures calculatorResult == old(calculatorResult)
    {
      var imageIndex := IndexOf(GalleryImages, imagePath);
      if imageIndex != -1 {
        currentGalleryIndex := imageIndex;
        popupImage := Some(imagePath);
      }
    }

    /**
     * `handleKeyDown`, run on the current fields.  Returns whether the key's
     * default action was suppressed and the section scrolled to, if any.
     */
    method HandleKeyDown(key: Key) returns (prevented: bool, scrollTo: Option<string>)
      requires Valid()
      modifies this
      ensures Valid()
      ensures Outcome(Fields(), prevented, scrollTo) == KeyDown(old(Fields()), key)
      ensures calculatorResult == old(calculatorResult)
    {
      OverlayOpenIffPopup(Fields());
      prevented, scrollTo := false, None;
      if Truthy(popupImage) && popupImage.value in GalleryImages {
        var currentIndex := currentGalleryIndex;
        if key == ArrowRight {
          prevented := true;
          var nextIndex := (currentIndex + 1) % |GalleryImages|;
          currentGalleryIndex := nextIndex;
          popupImage := Some(GalleryImages[nextIndex]);
        } else if key == ArrowLeft {
          prevented := true;
          var prevIndex := if currentIndex == 0 then |GalleryImages| - 1 else currentIndex - 1;
          currentGalleryIndex := prevIndex;
          popupImage := Some(GalleryImages[prevIndex]);
        } else if key == Escape {
          prevented := true;
          ClosePopup();
        }
      } else {
        if key == ArrowDown || (key == ArrowRight && !Truthy(popupImage)) {
          prevented := true;
          var nextSection := if currentSection + 1 < |SectionIds| - 1 then currentSection + 1 else |SectionIds| - 1;
          if nextSection < |SectionIds| {
            currentSection := nextSection;
            scrollTo := Some(SectionIds[nextSection]);
          }
        } else if key == ArrowUp || (key == ArrowLeft && !Truthy(popupImage)) {
          prevented := true;
          var prevSection := if currentSection - 1 > 0 then currentSection - 1 else 0;
          if prevSection >= 0 {
            currentSection := prevSection;
            scrollTo := Some(SectionIds[prevSection]);
          }
        }
      }
    }

    /**
     * The IntersectionObserver callback over one batch of entries.  Returns
     * the routines `triggerSectionAnimations` dispatched, in order.
     */
    method OnIntersect(entries: seq<Entry>) returns (dispatched: seq<Routine>)
      requires Valid()
      modifies this
      ensures Valid()
      ensures Tracked(Fields(), dispatched) == OnEntries(Tracked(old(Fields()), []), entries)
      ensures calculatorResult == old(calculatorResult)
    {
      dispatched := [];
      var done := 0;
      while done < |entries|
        invariant done <= |entries|
        invariant Valid() && calculatorResult == old(calculatorResult)
        invariant Tracked(Fields(), dispatched) == OnEntries(Tracked(old(Fields()), []), entries[..done])
      {
        var entry := entries[done];
        ghost var before := Tracked(Fields(), dispatched);
        if entry.isIntersecting {
          var sectionIndex := IndexOf(Registry, entry.target);
          if sectionIndex != -1 && sectionIndex >= 0 {
            currentSection := sectionIndex;
            dispatched := dispatched + [Dispatch(entry.target.id)];
          }
        }
        assert Tracked(Fields(), dispatched) == OnEntry(before, entry);
        OnEntriesPrefix(Tracked(old(Fields()), []), entries, done);
        done := done + 1;
      }
      assert entries[..done] == entries;
    }

    /** `handleCiscoInputChange`, given what `parseFloat` made of the new text. */
    method HandleCiscoInputChange(parsed: Option<real>)
      requires Valid()
      modifies this`calculatorResult
      ensures Valid() && Fields() == old(Fields())
      ensures calculatorResult == CalculateCiscoProduction(ParsedOrZero(parsed))
    {
      calculatorResult := CalculateCiscoProduction(ParsedOrZero(parsed));
    }

    /**
     * The mount effect that runs the calculator once on the initial input
     * `'196'`, which `parseFloat` reads as 196.
     */
    method CalculateInitial()
      requires Valid()
      modifies this`calculatorResult
      ensures Valid() && Fields() == old(Fields())
      ensures calculatorResult == CalculateCiscoProduction(ParsedOrZero(Some(InitialTonnes)))
      ensures calculatorResult == Production(196000.0 / 9.0, 22000)
    {
      calculatorResult := CalculateCiscoProduction(ParsedOrZero(Some(InitialTonnes)));
      InitialInput();
    }
  }
}
