/**
 * The scroll handlers of script.js:56-75 and script.js:170-171: the header
 * style, the back-to-top control and the active navigation link, each a
 * function of the vertical offset `scrollY` read for one scroll event.
 */
module Scroll {
  import opened Wrappers
  import opened ClassList

  /** The header is styled as scrolled past this offset. */
  const HeaderThreshold := 100
  /** The back-to-top control is shown past this offset. */
  const BackToTopThreshold := 500
  /** A section becomes current this far before its top reaches the viewport top. */
  const SectionLead := 200

  const Scrolled := "scrolled"
  const Show := "show"
  const Active := "active"

  /** `header.classList.toggle('scrolled', scrollY > 100)`. */
  function HeaderClasses(header: Classes, scrollY: int): (r: Classes)
    ensures Scrolled in r <==> scrollY > HeaderThreshold
    ensures r - {Scrolled} == header - {Scrolled}
  {
    Force(header, Scrolled, scrollY > HeaderThreshold)
  }

  /** `backToTop.classList.toggle('show', scrollY > 500)`. */
  function BackToTopClasses(button: Classes, scrollY: int): (r: Classes)
    ensures Show in r <==> scrollY > BackToTopThreshold
    ensures r - {Show} == button - {Show}
  {
    Force(button, Show, scrollY > BackToTopThreshold)
  }

  /** Only the latest offset matters to either control: earlier events leave no trace. */
  lemma ThresholdsForgetHistory(header: Classes, button: Classes, y1: int, y2: int)
    ensures HeaderClasses(HeaderClasses(header, y1), y2) == HeaderClasses(header, y2)
    ensures BackToTopClasses(BackToTopClasses(button, y1), y2) == BackToTopClasses(button, y2)
  {
  }

  /** A `section[id]` element: its id and its `offsetTop`, in document order. */
  datatype Section = Section(id: string, offsetTop: int)

  /** The scan's test for one section: `scrollY >= offsetTop - 200`. */
  predicate Reached(s: Section, scrollY: int) {
    scrollY >= s.offsetTop - SectionLead
  }

  /**
   * The position of the last section, in document order, that the offset
   * has reached; None when no section is reached.
   */
  function LastReached(sections: seq<Section>, scrollY: int): (r: Option<nat>)
    ensures r.None? <==> forall i :: 0 <= i < |sections| ==> !Reached(sections[i], scrollY)
    ensures r.Some? ==> r.value < |sections| && Reached(sections[r.value], scrollY)
    ensures r.Some? ==> forall j :: r.value < j < |sections| ==> !Reached(sections[j], scrollY)
    decreases |sections|
  {
    if |sections| == 0 then None
    else if Reached(sections[|sections| - 1], scrollY) then Some(|sections| - 1)
    else LastReached(sections[..|sections| - 1], scrollY)
  }

  /** The id the scan settles on: that of the last reached section, or "" for none. */
  function CurrentId(sections: seq<Section>, scrollY: int): (r: string)
    ensures (forall i :: 0 <= i < |sections| ==> !Reached(sections[i], scrollY)) ==> r == ""
    ensures r != "" ==> exists i :: 0 <= i < |sections| && Reached(sections[i], scrollY) && sections[i].id == r
  {
    match LastReached(sections, scrollY)
    case Some(i) => sections[i].id
    case None => ""
  }

  /** The current id is that of the reached section with no reached section after it. */
  lemma CurrentIdIsLastReached(sections: seq<Section>, scrollY: int)
    ensures forall i :: 0 <= i < |sections| && Reached(sections[i], scrollY)
                        && (forall j :: i < j < |sections| ==> !Reached(sections[j], scrollY))
                        ==> CurrentId(sections, scrollY) == sections[i].id
  {
    LastReachedUnique(sections, scrollY);
  }

  /**
   * The loop of the active-link handler: start from "" and let every
   * reached section, in document order, overwrite the current id.
   */
  method ScanCurrent(sections: seq<Section>, scrollY: int) returns (current: string)
    ensures current == CurrentId(sections, scrollY)
    ensures (forall i :: 0 <= i < |sections| ==> !Reached(sections[i], scrollY)) ==> current == ""
    ensures forall i :: 0 <= i < |sections| && Reached(sections[i], scrollY)
                        && (forall j :: i < j < |sections| ==> !Reached(sections[j], scrollY))
                        ==> current == sections[i].id
  {
    current := "";
    var i := 0;
    while i < |sections|
      invariant 0 <= i <= |sections|
      invariant current == CurrentId(sections[..i], scrollY)
    {
      assert sections[..i + 1][..i] == sections[..i];
      if Reached(sections[i], scrollY) {
        current := sections[i].id;
      }
      i := i + 1;
    }
    assert sections[..|sections|] == sections;
    LastReachedUnique(sections, scrollY);
  }

  /** Any reached section with none reached after it is the one LastReached names. */
  lemma LastReachedUnique(sections: seq<Section>, scrollY: int)
    ensures forall i :: 0 <= i < |sections| && Reached(sections[i], scrollY)
                        && (forall j :: i < j < |sections| ==> !Reached(sections[j], scrollY))
                        ==> LastReached(sections, scrollY) == Some(i)
  {
  }

  /** A `.nav-link` anchor: its `href` attribute and its class set. */
  datatype NavLink = NavLink(href: string, classes: Classes)

  /**
   * The second loop of the active-link handler: each link carries `active`
   * exactly when its href is `#` followed by the current id; nothing else
   * about any link changes.
   */
  function Highlight(links: seq<NavLink>, current: string): (r: seq<NavLink>)
    ensures |r| == |links|
    ensures forall i :: 0 <= i < |r| ==> r[i].href == links[i].href
    ensures forall i :: 0 <= i < |r| ==> (Active in r[i].classes <==> links[i].href == "#" + current)
    ensures forall i :: 0 <= i < |r| ==> r[i].classes - {Active} == links[i].classes - {Active}
  {
    seq(|links|, i requires 0 <= i < |links| =>
      NavLink(links[i].href, Force(links[i].classes, Active, links[i].href == "#" + current)))
  }

  /** The whole active-link handler for one scroll event. */
  function ActiveLinks(links: seq<NavLink>, sections: seq<Section>, scrollY: int): (r: seq<NavLink>)
    ensures |r| == |links|
    ensures forall i :: 0 <= i < |r| ==> r[i].href == links[i].href
    ensures forall i :: 0 <= i < |r| ==> r[i].classes - {Active} == links[i].classes - {Active}
    ensures (forall i :: 0 <= i < |sections| ==> !Reached(sections[i], scrollY))
            ==> forall i :: 0 <= i < |r| ==> (Active in r[i].classes <==> links[i].href == "#")
    ensures forall i :: 0 <= i < |r| ==> (Active in r[i].classes <==> links[i].href == "#" + CurrentId(sections, scrollY))
  {
    Highlight(links, CurrentId(sections, scrollY))
  }

  /** Highlighting forgets any earlier highlighting: only the latest current id matters. */
  lemma HighlightForgetsHistory(links: seq<NavLink>, c1: string, c2: string)
    ensures Highlight(Highlight(links, c1), c2) == Highlight(links, c2)
  {
    var a := Highlight(Highlight(links, c1), c2);
    var b := Highlight(links, c2);
    assert |a| == |b|;
    forall i | 0 <= i < |a|
      ensures a[i] == b[i]
    {
      assert a[i].classes == b[i].classes;
    }
  }

  /**
   * With no section reached, the active links are exactly those whose href
   * is the bare "#".
   */
  lemma NoSectionReached(links: seq<NavLink>, sections: seq<Section>, scrollY: int)
    requires forall i :: 0 <= i < |sections| ==> !Reached(sections[i], scrollY)
    ensures forall i :: 0 <= i < |links| ==>
      (Active in ActiveLinks(links, sections, scrollY)[i].classes <==> links[i].href == "#")
  {
  }

  /** When no two links share an href, at most one link is active. */
  lemma AtMostOneActive(links: seq<NavLink>, current: string)
    requires forall i, j :: 0 <= i < j < |links| ==> links[i].href != links[j].href
    ensures forall i, j :: 0 <= i < |links| && 0 <= j < |links|
                        && Active in Highlight(links, current)[i].classes
                        && Active in Highlight(links, current)[j].classes
                        ==> i == j
  {
  }

  /**
   * Sections at tops 0, 800 and 1600: offset 0 already reaches the first
   * (0 >= 0 - 200), 850 the second and 1650 the third, and an offset above
   * every lead reaches none.
   */
  lemma ThreeSectionExample()
    ensures CurrentId([Section("home", 0), Section("about", 800), Section("skills", 1600)], 0) == "home"
    ensures CurrentId([Section("home", 0), Section("about", 800), Section("skills", 1600)], 850) == "about"
    ensures CurrentId([Section("home", 0), Section("about", 800), Section("skills", 1600)], 1650) == "skills"
    ensures CurrentId([Section("home", 0), Section("about", 800), Section("skills", 1600)], -201) == ""
  {
    var s := [Section("home", 0), Section("about", 800), Section("skills", 1600)];
    assert s[..2] == [Section("home", 0), Section("about", 800)];
    assert s[..2][..1] == [Section("home", 0)];
    assert LastReached(s[..2][..1], 0) == Some(0);
    assert LastReached(s, 0) == LastReached(s[..2], 0) == Some(0);
  }
}
