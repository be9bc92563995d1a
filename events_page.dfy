/** The events page script js/events.js: the grid/calendar view toggle, the
    event filter and the load-more button and no-results message that follow
    it, the gallery filter, the event type shown in the details modal, and
    the two load-more buttons. */
module EventsPage {
  import opened Nullable
  import opened Widgets

  /** The section id a view toggle button selects: `${view}-view`, the
      button's `data-view` text (as a template literal shows it) followed by
      "-view". */
  function SectionId(view: Option<string>): (r: string)
    ensures |r| >= 5 && r[|r| - 5..] == "-view"
    ensures r[..|r| - 5] == AttributeText(view)
  {
    AttributeText(view) + "-view"
  }

  /** The `.toggle-btn` buttons with their `data-view` attributes, and the
      `.view-section` elements with their ids and `active` classes. */
  class ViewToggle {
    const buttons: ButtonGroup
    const views: seq<Option<string>>
    const sectionIds: seq<string>
    var sectionActive: seq<bool>

    ghost predicate Valid()
      reads this, buttons
    {
      |buttons.active| == |views| && |sectionActive| == |sectionIds|
    }

    constructor (buttons: ButtonGroup, views: seq<Option<string>>, sectionIds: seq<string>, sectionActive: seq<bool>)
      requires |buttons.active| == |views| && |sectionActive| == |sectionIds|
      ensures Valid() && this.buttons == buttons && this.views == views
      ensures this.sectionIds == sectionIds && this.sectionActive == sectionActive
    {
      this.buttons := buttons;
      this.views := views;
      this.sectionIds := sectionIds;
      this.sectionActive := sectionActive;
    }

    /** A click on button b: b becomes the only active button, and exactly
        the sections whose id is `<view>-view` become active. */
    method Click(b: nat)
      requires Valid() && b < |views|
      modifies this, buttons
      ensures Valid()
      ensures forall k :: 0 <= k < |buttons.active| ==> (buttons.active[k] <==> k == b)
      ensures forall k :: 0 <= k < |sectionIds| ==> (sectionActive[k] <==> sectionIds[k] == SectionId(views[b]))
    {
      buttons.Activate(b);
      var target := SectionId(views[b]);
      var k := 0;
      while k < |sectionIds|
        invariant 0 <= k <= |sectionIds| == |sectionActive|
        invariant forall j :: 0 <= j < |buttons.active| ==> (buttons.active[j] <==> j == b)
        invariant |buttons.active| == |views|
        invariant forall j :: 0 <= j < k ==> (sectionActive[j] <==> sectionIds[j] == target)
      {
        if sectionIds[k] == target {
          sectionActive := sectionActive[k := true];
        } else {
          sectionActive := sectionActive[k := false];
        }
        k := k + 1;
      }
    }
  }

  /** With distinct section ids, a click leaves exactly one section active
      when one has the selected id, and none otherwise. */
  lemma OneSectionActive(ids: seq<string>, active: seq<bool>, target: string)
    requires |active| == |ids|
    requires forall j, k :: 0 <= j < k < |ids| ==> ids[j] != ids[k]
    requires forall k :: 0 <= k < |ids| ==> (active[k] <==> ids[k] == target)
    ensures AtMostOneActive(active)
    ensures (exists k :: 0 <= k < |ids| && active[k]) <==> target in ids
  {
    if target in ids {
      var k :| 0 <= k < |ids| && ids[k] == target;
      assert active[k];
    }
  }

  /** An `.event-card`'s `data-type` and `data-location` attributes. */
  datatype EventCard = EventCard(kind: Option<string>, location: Option<string>)

  /** A card passes when each filter is "all" or equals its attribute; a
      card without the attribute passes only "all". */
  predicate CardShown(typeFilter: string, locationFilter: string, card: EventCard) {
    && (typeFilter == "all" || card.kind == Some(typeFilter))
    && (locationFilter == "all" || card.location == Some(locationFilter))
  }

  /** How many cards are displayed as flex. */
  function FlexCount(display: seq<Display>): nat
  {
    if display == [] then 0 else (if display[0] == Flex then 1 else 0) + FlexCount(display[1..])
  }

  lemma {:induction false} FlexCountZero(display: seq<Display>)
    ensures FlexCount(display) == 0 <==> forall k :: 0 <= k < |display| ==> display[k] != Flex
  {
    if display != [] {
      FlexCountZero(display[1..]);
      assert forall k :: 1 <= k < |display| ==> display[k] == display[1..][k - 1];
    }
  }

  /** The events grid: each card's `style.display`, the load-more button's
      display (when the page has one) and the number of `.no-results`
      messages. The script creates a message only when none exists, so there
      is never more than one. */
  class EventGrid {
    const cards: seq<EventCard>
    var display: seq<Display>
    const hasLoadMore: bool
    var loadMoreDisplay: Display
    var noResults: nat

    ghost predicate Valid()
      reads this
    {
      |display| == |cards| && noResults <= 1
    }

    constructor (cards: seq<EventCard>, hasLoadMore: bool)
      ensures Valid() && this.cards == cards && this.hasLoadMore == hasLoadMore
      ensures forall k :: 0 <= k < |cards| ==> display[k] == Unset
      ensures loadMoreDisplay == Unset && noResults == 0
    {
      this.cards := cards;
      this.hasLoadMore := hasLoadMore;
      display := seq(|cards|, _ => Unset);
      loadMoreDisplay := Unset;
      noResults := 0;
    }

    /** `updateLoadMoreButton`: with no card displayed, the button is hidden
        and one no-results message exists; otherwise the button shows and
        the message is gone. A page without the button is left alone. */
    method UpdateLoadMoreButton()
      requires Valid()
      modifies this
      ensures Valid() && display == old(display)
      ensures !hasLoadMore ==> loadMoreDisplay == old(loadMoreDisplay) && noResults == old(noResults)
      ensures hasLoadMore && FlexCount(display) == 0 ==> loadMoreDisplay == Hidden && noResults == 1
      ensures hasLoadMore && FlexCount(display) != 0 ==> loadMoreDisplay == InlineBlock && noResults == 0
    {
      var visible := FlexCount(display);
      if !hasLoadMore {
        return;
      }
      if visible == 0 {
        loadMoreDisplay := Hidden;
        if noResults == 0 {
          noResults := 1;
        }
      } else {
        loadMoreDisplay := InlineBlock;
        if noResults > 0 {
          noResults := noResults - 1;
        }
      }
    }

    /** The filter button: every card is displayed as flex exactly when it
        passes the type and location filters (the date filter is read but
        has no effect), then the load-more state follows. */
    method FilterClick(typeFilter: string, locationFilter: string, dateFilter: string)
      requires Valid()
      modifies this
      ensures Valid()
      ensures forall k :: 0 <= k < |cards| ==>
        display[k] == if CardShown(typeFilter, locationFilter, cards[k]) then Flex else Hidden
      ensures !hasLoadMore ==> loadMoreDisplay == old(loadMoreDisplay) && noResults == old(noResults)
      ensures hasLoadMore ==>
        (loadMoreDisplay == Hidden <==> forall k :: 0 <= k < |cards| ==> !CardShown(typeFilter, locationFilter, cards[k]))
      ensures hasLoadMore ==> noResults == if loadMoreDisplay == Hidden then 1 else 0
    {
      var k := 0;
      while k < |cards|
        invariant 0 <= k <= |cards| && Valid()
        invariant forall j :: 0 <= j < k ==>
          display[j] == if CardShown(typeFilter, locationFilter, cards[j]) then Flex else Hidden
        invariant loadMoreDisplay == old(loadMoreDisplay) && noResults == old(noResults)
      {
        var showCard := true;
        if typeFilter != "all" && cards[k].kind != Some(typeFilter) {
          showCard := false;
        }
        if locationFilter != "all" && cards[k].location != Some(locationFilter) {
          showCard := false;
        }
        if showCard {
          display := display[k := Flex];
        } else {
          display := display[k := Hidden];
        }
        k := k + 1;
      }
      FlexCountZero(display);
      UpdateLoadMoreButton();
    }
  }

  /** A gallery item is shown when the filter is "all" or equals its
      `data-category`; a button and an item that both lack the attribute
      compare equal. */
  predicate GalleryShown(filter: Option<string>, category: Option<string>) {
    filter == Some("all") || category == filter
  }

  /** The `.gallery-filter .filter-btn` buttons with their `data-filter`
      attributes and the `.gallery-item` elements with their
      `data-category` attributes and displays. */
  class GalleryFilter {
    const buttons: ButtonGroup
    const filters: seq<Option<string>>
    const categories: seq<Option<string>>
    var display: seq<Display>

    ghost predicate Valid()
      reads this, buttons
    {
      |buttons.active| == |filters| && |display| == |categories|
    }

    constructor (buttons: ButtonGroup, filters: seq<Option<string>>, categories: seq<Option<string>>)
      requires |buttons.active| == |filters|
      ensures Valid() && this.buttons == buttons && this.filters == filters && this.categories == categories
      ensures forall k :: 0 <= k < |categories| ==> display[k] == Unset
    {
      this.buttons := buttons;
      this.filters := filters;
      this.categories := categories;
      display := seq(|categories|, _ => Unset);
    }

    /** A click on button b makes it the only active button and displays as
        block exactly the items its filter selects. */
    method Click(b: nat)
      requires Valid() && b < |filters|
      modifies this, buttons
      ensures Valid()
      ensures forall k :: 0 <= k < |buttons.active| ==> (buttons.active[k] <==> k == b)
      ensures forall k :: 0 <= k < |categories| ==>
        display[k] == if GalleryShown(filters[b], categories[k]) then Block else Hidden
    {
      buttons.Activate(b);
      var filter := filters[b];
      var k := 0;
      while k < |categories|
        invariant 0 <= k <= |categories| == |display|
        invariant |buttons.active| == |filters|
        invariant forall j :: 0 <= j < |buttons.active| ==> (buttons.active[j] <==> j == b)
        invariant forall j :: 0 <= j < k ==>
          display[j] == if GalleryShown(filter, categories[j]) then Block else Hidden
      {
        if filter == Some("all") || categories[k] == filter {
          display := display[k := Block];
        } else {
          display := display[k := Hidden];
        }
        k := k + 1;
      }
    }
  }

  /** The capital letters, in alphabetical order. */
  const Capitals: string := "ABCDEFGHIJKLMNOPQRSTUVWXYZ"

  /** `toUpperCase` on one character, for the ASCII letters: a lower-case
      letter becomes the capital at the same place in the alphabet, any
      other character is unchanged. */
  function UpperAscii(c: char): (u: char)
    ensures 'a' <= c <= 'z' ==> u == Capitals[c as int - 'a' as int]
    ensures !('a' <= c <= 'z') ==> u == c
    ensures !('a' <= u <= 'z')
  {
    if 'a' <= c <= 'z' then (c as int - 32) as char else c
  }

  /** The event type as the details modal shows it: a type starting with a
      lower-case letter starts with that letter's capital instead, and every
      other character is kept; the empty type stays empty. */
  function FormatType(t: string): (r: string)
    ensures |r| == |t|
    ensures t != [] && 'a' <= t[0] <= 'z' ==> r[0] == Capitals[t[0] as int - 'a' as int]
    ensures t != [] && !('a' <= t[0] <= 'z') ==> r[0] == t[0]
    ensures forall k :: 1 <= k < |t| ==> r[k] == t[k]
  {
    if t == [] then [] else [UpperAscii(t[0])] + t[1..]
  }

  /** Formatting a formatted type changes nothing: its first character is
      no longer a lower-case letter. */
  lemma FormatTypeIdempotent(t: string)
    ensures FormatType(FormatType(t)) == FormatType(t)
  {
    if t != [] {
      var r := FormatType(t);
      assert FormatType(r) == [UpperAscii(r[0])] + r[1..];
    }
  }

  const LoadingText: string := "Loading..."

  /** A load-more button (events: "No More Events", gallery:
      "No More Photos"): its text, `disabled` property, `disabled` class, and
      the number of pending one-second timers its clicks started. */
  class LoadMoreButton {
    const doneText: string
    var text: string
    var disabled: bool
    var disabledClass: bool
    var pending: nat

    /** The property and the class move together; a disabled button shows
        its final text, and an enabled one with a timer pending shows
        "Loading...". */
    ghost predicate Valid()
      reads this
    {
      && disabled == disabledClass
      && (disabled ==> text == doneText)
      && (!disabled && pending > 0 ==> text == LoadingText)
    }

    constructor (initialText: string, doneText: string)
      ensures Valid() && this.doneText == doneText && text == initialText
      ensures !disabled && pending == 0
    {
      this.doneText := doneText;
      text := initialText;
      disabled, disabledClass := false, false;
      pending := 0;
    }

    /** A click shows "Loading..." and starts a timer. A disabled button
        receives no clicks. */
    method Click()
      requires Valid()
      modifies this
      ensures Valid() && disabled == old(disabled)
      ensures !old(disabled) ==> text == LoadingText && pending == old(pending) + 1
      ensures old(disabled) ==> text == old(text) && pending == old(pending)
    {
      if disabled {
        return;
      }
      text := LoadingText;
      pending := pending + 1;
    }

    /** A timer fires: the button ends disabled with its final text. */
    method TimerFires()
      requires Valid() && pending > 0
      modifies this
      ensures Valid()
      ensures text == doneText && disabled && disabledClass && pending == old(pending) - 1
    {
      text := doneText;
      disabled := true;
      disabledClass := true;
      pending := pending - 1;
    }
  }
}
