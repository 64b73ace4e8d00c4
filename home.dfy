/**
 * The page-level state of the home page (client/src/pages/Home.tsx) that
 * the boot and reveal logic changes: the `bootComplete` and `skillsLoaded`
 * flags, the scroll listener that sets `skillsLoaded`, the open folder of
 * the project explorer, and the values reported to the optional
 * `onLoadingChange` callback. The typewriter is in module Typewriter.
 *
 * The DOM lookup and the layout measurement of the skills section are
 * parameters of `OnScroll`; pixel coordinates are `real`, since the test
 * only compares them.
 */
module Home {
  import opened Wrappers

  /** The test in `handleScroll`: the skills section exists and some of it
      lies between the top of the viewport and its height. */
  predicate SectionVisible(present: bool, top: real, bottom: real, viewportHeight: real) {
    present && top <= viewportHeight && bottom >= 0.0
  }

  /** `activeFolder === folderName ? null : folderName` */
  function Toggle(active: Option<string>, name: string): (r: Option<string>)
    ensures r == None || r == Some(name)
    ensures r == Some(name) <==> active != Some(name)
  {
    if active == Some(name) then None else Some(name)
  }

  /** Toggling a folder twice closes it when it was not the open folder,
      and leaves it open when it was. */
  lemma ToggleTwice(active: Option<string>, name: string)
    ensures Toggle(Toggle(active, name), name) == if active == Some(name) then active else None
  {
  }

  class HomePage {
    /** `bootComplete` */
    var bootComplete: bool
    /** `skillsLoaded` */
    var skillsLoaded: bool
    /** Whether `handleScroll` is registered on the window. */
    var scrollListening: bool
    /** `activeFolder`, `None` for `null` */
    var activeFolder: Option<string>
    /** The values passed to `onLoadingChange`, in order. */
    var loadingReports: seq<bool>

    /** The scroll listener is registered exactly until the skills are
        revealed, and the page never reports itself as loading. */
    ghost predicate Valid()
      reads this
    {
      scrollListening == !skillsLoaded && loadingReports == [false]
    }

    /** The two flags only ever go from false to true. */
    twostate predicate FlagsOnlyRise()
      reads this
    {
      (old(bootComplete) ==> bootComplete) && (old(skillsLoaded) ==> skillsLoaded)
    }

    /** The mount effect: report "not loading", start the boot timer and
        register the scroll listener. */
    constructor Mount()
      ensures Valid()
      ensures !bootComplete && !skillsLoaded && scrollListening
      ensures activeFolder == None && loadingReports == [false]
    {
      bootComplete, skillsLoaded, scrollListening := false, false, true;
      activeFolder := None;
      loadingReports := [false];
    }

    /** The 2500 ms boot timer fires. */
    method BootTimerFired()
      requires Valid()
      modifies this
      ensures Valid() && FlagsOnlyRise()
      ensures bootComplete
      ensures skillsLoaded == old(skillsLoaded) && scrollListening == old(scrollListening)
      ensures activeFolder == old(activeFolder) && loadingReports == old(loadingReports)
    {
      bootComplete := true;
    }

    /** A scroll event, with the skills section's presence and position.
        Delivered only while the listener is registered; the first one that
        finds the section visible reveals the skills and removes the
        listener. */
    method OnScroll(present: bool, top: real, bottom: real, viewportHeight: real)
      requires Valid()
      modifies this
      ensures Valid() && FlagsOnlyRise()
      ensures skillsLoaded == (old(skillsLoaded) || SectionVisible(present, top, bottom, viewportHeight))
      ensures bootComplete == old(bootComplete)
      ensures activeFolder == old(activeFolder) && loadingReports == old(loadingReports)
    {
      if scrollListening && SectionVisible(present, top, bottom, viewportHeight) {
        skillsLoaded := true;
        scrollListening := false;
      }
    }

    /** `toggleFolder(name)` */
    method ToggleFolder(name: string)
      requires Valid()
      modifies this
      ensures Valid() && FlagsOnlyRise()
      ensures activeFolder == Toggle(old(activeFolder), name)
      ensures bootComplete == old(bootComplete) && skillsLoaded == old(skillsLoaded)
      ensures scrollListening == old(scrollListening) && loadingReports == old(loadingReports)
    {
      activeFolder := Toggle(activeFolder, name);
    }
  }
}
