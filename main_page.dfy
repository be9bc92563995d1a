/** The site-wide script js/main.js: the events slider, the sticky header,
    in-page anchor links, submit-time form validation and the
    animate-on-scroll check. The navigation menu and dropdown it also drives
    are `Widgets.NavMenu` and `Widgets.Dropdown`. */
module MainPage {
  import opened Text
  import Email
  import Forms
  import Widgets

  /** How many slides fit the window: one on phones, two on tablets, three
      on desktops. */
  function SlidesPerView(width: int): (r: int)
    ensures 1 <= r <= 3
    ensures r == 1 <==> width < 768
    ensures r == 3 <==> width >= Widgets.MobileBreakpoint
  {
    if width < 768 then 1 else if width < Widgets.MobileBreakpoint then 2 else 3
  }

  /** A wider window never shows fewer slides. */
  lemma SlidesPerViewMonotone(w1: int, w2: int)
    requires w1 <= w2
    ensures SlidesPerView(w1) <= SlidesPerView(w2)
  {
  }

  /** `Math.max(0, slides.length - slidesPerView)`: the last index at which a
      full view of slides still fits. */
  function MaxIndex(count: int, perView: int): (r: int)
    ensures r >= 0 && r >= count - perView
    ensures r == 0 || r == count - perView
  {
    if count - perView > 0 then count - perView else 0
  }

  /** The slider over `count` slides: the closure variable `currentIndex`,
      the slides per view the last layout used, and the two buttons'
      `disabled` flags. */
  class Slider {
    const count: int
    var currentIndex: int
    var perView: int
    var prevDisabled: bool
    var nextDisabled: bool

    /** The index lies in [0, maxIndex] of the last layout, and each button is
        disabled exactly at its end of that range. */
    ghost predicate Valid()
      reads this
    {
      && count > 0
      && 1 <= perView <= 3
      && 0 <= currentIndex <= MaxIndex(count, perView)
      && prevDisabled == (currentIndex == 0)
      && nextDisabled == (currentIndex == MaxIndex(count, perView))
    }

    /** The slider is set up only when slides exist; it starts at index 0
        and is laid out at once. */
    constructor (count: int, width: int)
      requires count > 0
      ensures Valid() && this.count == count
      ensures currentIndex == 0 && perView == SlidesPerView(width)
    {
      this.count := count;
      currentIndex := 0;
      var spv := SlidesPerView(width);
      perView := spv;
      prevDisabled := true;
      nextDisabled := 0 == MaxIndex(count, spv);
    }

    /** `updateSlider`: the layout follows the window, an index beyond the
        new maxIndex is clamped down to it, and the buttons are refreshed. */
    method UpdateSlider(width: int)
      requires count > 0 && currentIndex >= 0
      modifies this
      ensures Valid()
      ensures perView == SlidesPerView(width)
      ensures currentIndex == if old(currentIndex) > MaxIndex(count, perView)
        then MaxIndex(count, perView) else old(currentIndex)
    {
      var spv := SlidesPerView(width);
      perView := spv;
      var maxIndex := MaxIndex(count, spv);
      if currentIndex > maxIndex {
        currentIndex := maxIndex;
      }
      prevDisabled := currentIndex == 0;
      nextDisabled := currentIndex == maxIndex;
    }

    /** The prev button: only an index above 0 moves back one. */
    method Prev(width: int)
      requires Valid()
      modifies this
      ensures Valid()
      ensures old(currentIndex) == 0 ==> currentIndex == 0 && perView == old(perView)
      ensures old(currentIndex) > 0 ==> perView == SlidesPerView(width)
      ensures old(currentIndex) > 0 ==>
        currentIndex == if old(currentIndex) - 1 > MaxIndex(count, perView)
          then MaxIndex(count, perView) else old(currentIndex) - 1
    {
      if currentIndex > 0 {
        currentIndex := currentIndex - 1;
        UpdateSlider(width);
      }
    }

    /** The next button: the index moves on only while a full view of
        slides still lies beyond it. A disabled button delivers no click, so
        the button is enabled; the window may have changed since the last
        layout, which is why the guard is still needed. */
    method Next(width: int)
      requires Valid()
      requires !nextDisabled
      modifies this
      ensures Valid()
      ensures var spv := SlidesPerView(width);
        if old(currentIndex) < count - spv then
          perView == spv && currentIndex == if old(currentIndex) + 1 > MaxIndex(count, spv)
            then MaxIndex(count, spv) else old(currentIndex) + 1
        else
          currentIndex == old(currentIndex) && perView == old(perView)
    {
      var spv := SlidesPerView(width);
      if currentIndex < count - spv {
        currentIndex := currentIndex + 1;
        UpdateSlider(width);
      }
    }
  }

  /** A click on next moves the index forward by exactly one when the window
      did not change since the last layout and a further slide exists. */
  lemma NextAdvancesByOne(count: int, index: int, width: int)
    requires count > 0 && 0 <= index <= MaxIndex(count, SlidesPerView(width))
    ensures index < count - SlidesPerView(width) <==> index < MaxIndex(count, SlidesPerView(width))
    ensures index < count - SlidesPerView(width) ==> index + 1 <= MaxIndex(count, SlidesPerView(width))
  {
  }

  /** The `.header` element: its `sticky` class, whether its transform hides
      it (`translateY(-100%)`), and the last scroll position seen. */
  class Header {
    const present: bool
    var sticky: bool
    var hidden: bool
    var lastScrollTop: int

    /** The header is only ever hidden while sticky. */
    ghost predicate Valid()
      reads this
    {
      hidden ==> sticky
    }

    constructor (present: bool)
      ensures Valid() && this.present == present
      ensures !sticky && !hidden && lastScrollTop == 0
    {
      this.present := present;
      sticky, hidden, lastScrollTop := false, false, 0;
    }

    /** `handleScroll`: past 100 pixels the header is sticky, and hidden
        while the page scrolls down; at or above 100 it is neither. On a page
        without a header the handler stops at its first class update, so
        nothing changes, not even the remembered position. */
    method HandleScroll(scrollTop: int)
      requires Valid()
      modifies this
      ensures Valid()
      ensures !present ==> sticky == old(sticky) && hidden == old(hidden) && lastScrollTop == old(lastScrollTop)
      ensures present ==> sticky == (scrollTop > 100)
      ensures present ==> hidden == (scrollTop > 100 && scrollTop > old(lastScrollTop))
      ensures present ==> lastScrollTop == scrollTop
    {
      if !present {
        return;
      }
      if scrollTop > 100 {
        sticky := true;
        if scrollTop > lastScrollTop {
          hidden := true;
        } else {
          hidden := false;
        }
      } else {
        sticky := false;
        hidden := false;
      }
      lastScrollTop := scrollTop;
    }
  }

  /** A click on an `a[href^="#"]` link; `targetExists` is whether
      `document.querySelector(href)` finds an element. A bare "#" does
      nothing; any other such link cancels the navigation, and when the
      target exists an open menu is closed before scrolling. */
  method AnchorClick(menu: Widgets.NavMenu, href: string, targetExists: bool) returns (prevented: bool)
    requires menu.Valid()
    modifies menu
    ensures menu.Valid()
    ensures prevented <==> href != "#"
    ensures menu.listActive == (old(menu.listActive) && !(prevented && targetExists))
  {
    if href == "#" {
      return false;
    }
    prevented := true;
    if targetExists {
      menu.CloseForNavigation();
    }
  }

  /** What the site-wide submit check asks of a `[required]` field: not
      blank after trimming, and an email input's raw value matching the loose
      regex. */
  predicate FieldPasses(f: Forms.Field) {
    !IsBlank(f.value) && !(f.emailInput && !Email.MatchesLoose(f.value))
  }

  /** The `error` class of a field and the `.error-message` elements that
      directly follow it, nearest first. */
  datatype FieldMarks = FieldMarks(errorClass: bool, notes: seq<string>)

  /** What the submit handler does to one required field's marks. */
  function SubmitMarks(f: Forms.Field, m: FieldMarks): FieldMarks
  {
    if IsBlank(f.value) then
      FieldMarks(true, if m.notes == [] then [Forms.RequiredText] else m.notes)
    else
      var rest := if m.notes == [] then [] else m.notes[1..];
      if f.emailInput && !Email.MatchesLoose(f.value) then FieldMarks(true, [Forms.EmailText] + rest)
      else FieldMarks(false, rest)
  }

  /** A field that carried at most one message still carries at most one
      after a submit; it carries one, and the `error` class, exactly when it
      fails the check. A blank field keeps a message it already had rather
      than gaining a second. */
  lemma SubmitMarksMeaning(f: Forms.Field, m: FieldMarks)
    requires |m.notes| <= 1
    ensures var r := SubmitMarks(f, m);
      && |r.notes| <= 1
      && (r.errorClass <==> !FieldPasses(f))
      && (r.notes != [] <==> !FieldPasses(f))
      && (IsBlank(f.value) && m.notes == [] ==> r.notes == [Forms.RequiredText])
      && (!IsBlank(f.value) && !FieldPasses(f) ==> r.notes == [Forms.EmailText])
  {
  }

  /** The marks of every field after a submit: a required field carries the
      `error` class exactly when it fails the check, and, when it carried at
      most one message before, carries one exactly when it fails; every
      other field keeps its marks. */
  function MarksAfterSubmit(fs: seq<Forms.Field>, ms: seq<FieldMarks>): (r: seq<FieldMarks>)
    requires |fs| == |ms|
    ensures |r| == |fs|
    ensures forall k :: 0 <= k < |fs| && !fs[k].required ==> r[k] == ms[k]
    ensures forall k :: 0 <= k < |fs| && fs[k].required ==> (r[k].errorClass <==> !FieldPasses(fs[k]))
    ensures forall k :: 0 <= k < |fs| && fs[k].required && |ms[k].notes| <= 1 ==>
      |r[k].notes| <= 1 && (r[k].notes != [] <==> !FieldPasses(fs[k]))
  {
    seq(|fs|, k requires 0 <= k < |fs| => if fs[k].required then SubmitMarks(fs[k], ms[k]) else ms[k])
  }

  predicate SubmitValid(fs: seq<Forms.Field>) {
    forall k :: 0 <= k < |fs| && fs[k].required ==> FieldPasses(fs[k])
  }

  /** A form as the site-wide script sees it. After a successful newsletter
      submit the form's content is replaced by the thank-you message. */
  class SubmitForm {
    var fields: seq<Forms.Field>
    var marks: seq<FieldMarks>
    const newsletter: bool
    var thanked: bool

    ghost predicate Valid()
      reads this
    {
      |marks| == |fields|
    }

    constructor (fields: seq<Forms.Field>, newsletter: bool)
      ensures Valid() && this.fields == fields && this.newsletter == newsletter && !thanked
      ensures forall k :: 0 <= k < |fields| ==> marks[k] == FieldMarks(false, [])
    {
      this.fields := fields;
      this.newsletter := newsletter;
      marks := seq(|fields|, _ => FieldMarks(false, []));
      thanked := false;
    }

    /** The submit handler. The submission is cancelled when a required
        field fails, or when the form is a newsletter form, which is then
        replaced by its thank-you message. */
    method Submit() returns (prevented: bool)
      requires Valid()
      modifies this
      ensures Valid()
      ensures prevented == (!SubmitValid(old(fields)) || newsletter)
      ensures SubmitValid(old(fields)) && newsletter ==> fields == [] && marks == [] && thanked
      ensures !(SubmitValid(old(fields)) && newsletter) ==>
        fields == old(fields) && marks == MarksAfterSubmit(old(fields), old(marks)) && thanked == old(thanked)
    {
      var valid := true;
      var k := 0;
      while k < |fields|
        invariant 0 <= k <= |fields|
        invariant fields == old(fields) && |marks| == |fields| && thanked == old(thanked)
        invariant forall j :: 0 <= j < |fields| ==>
          marks[j] == if j < k && fields[j].required then SubmitMarks(fields[j], old(marks[j])) else old(marks[j])
        invariant valid <==> forall j :: 0 <= j < k && fields[j].required ==> FieldPasses(fields[j])
      {
        var f := fields[k];
        if f.required {
          var m := marks[k];
          if IsBlank(f.value) {
            valid := false;
            if m.notes == [] {
              marks := marks[k := FieldMarks(true, [Forms.RequiredText])];
            } else {
              marks := marks[k := FieldMarks(true, m.notes)];
            }
          } else {
            var rest := if m.notes == [] then [] else m.notes[1..];
            if f.emailInput && !Email.MatchesLoose(f.value) {
              valid := false;
              marks := marks[k := FieldMarks(true, [Forms.EmailText] + rest)];
            } else {
              marks := marks[k := FieldMarks(false, rest)];
            }
          }
        }
        k := k + 1;
      }
      if !valid {
        prevented := true;
      } else if newsletter {
        prevented := true;
        fields, marks, thanked := [], [], true;
      } else {
        prevented := false;
      }
    }

    /** Typing in field k removes its `error` class and the message right
        after it. */
    method Input(k: nat)
      requires Valid() && k < |fields|
      modifies this
      ensures Valid() && fields == old(fields) && thanked == old(thanked)
      ensures marks == old(marks)[k := FieldMarks(false, if old(marks[k]).notes == [] then [] else old(marks[k]).notes[1..])]
      ensures |old(marks[k]).notes| <= 1 ==> marks[k] == FieldMarks(false, [])
    {
      var m := marks[k];
      marks := marks[k := FieldMarks(false, if m.notes == [] then [] else m.notes[1..])];
    }
  }

  /** The check in `checkIfInView`: the element's vertical extent
      [top, top + height] meets the window's [scrollY, scrollY + innerHeight]. */
  predicate InView(top: int, height: int, scrollY: int, innerHeight: int) {
    top + height >= scrollY && top <= scrollY + innerHeight
  }

  /** Position p lies in the extent [start, start + length]. */
  predicate Within(p: int, start: int, length: int) {
    start <= p <= start + length
  }

  /** For elements and windows of non-negative height, the check holds
      exactly when some vertical position lies in both extents. */
  lemma InViewIffOverlap(top: int, height: int, scrollY: int, innerHeight: int)
    requires height >= 0 && innerHeight >= 0
    ensures InView(top, height, scrollY, innerHeight) <==>
      exists p :: Within(p, top, height) && Within(p, scrollY, innerHeight)
  {
    if InView(top, height, scrollY, innerHeight) {
      var p := if top >= scrollY then top else scrollY;
      assert Within(p, top, height) && Within(p, scrollY, innerHeight);
    }
  }

  /** The elements that carried `animate-on-scroll` when the script ran
      (their offsets and heights) and their `animated` classes. */
  class ScrollAnimator {
    const tops: seq<int>
    const heights: seq<int>
    var animated: seq<bool>

    ghost predicate Valid()
      reads this
    {
      |tops| == |heights| == |animated|
    }

    constructor (tops: seq<int>, heights: seq<int>)
      requires |tops| == |heights|
      ensures Valid() && this.tops == tops && this.heights == heights
      ensures forall k :: 0 <= k < |tops| ==> !animated[k]
    {
      this.tops := tops;
      this.heights := heights;
      animated := seq(|tops|, _ => false);
    }

    /** `checkIfInView` on load and on every scroll: each element in view
        gains `animated`; none ever loses it. */
    method CheckIfInView(scrollY: int, innerHeight: int)
      requires Valid()
      modifies this
      ensures Valid()
      ensures forall k :: 0 <= k < |animated| ==>
        animated[k] == (old(animated[k]) || InView(tops[k], heights[k], scrollY, innerHeight))
      ensures forall k :: 0 <= k < |animated| && old(animated[k]) ==> animated[k]
    {
      var k := 0;
      while k < |animated|
        invariant 0 <= k <= |animated| == |old(animated)|
        invariant Valid()
        invariant forall j :: 0 <= j < |animated| ==>
          animated[j] == (old(animated[j]) || (j < k && InView(tops[j], heights[j], scrollY, innerHeight)))
      {
        if InView(tops[k], heights[k], scrollY, innerHeight) {
          animated := animated[k := true];
        }
        k := k + 1;
      }
    }
  }
}
