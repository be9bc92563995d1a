/** The branches page script js/branches.js: the branch details modal, the
    dropdown links that jump to a branch card and highlight it. Its
    dropdown is `Widgets.Dropdown`, its menu `Widgets.NavMenu` and its card
    animation `Widgets.Reveal`. */
module BranchesPage {
  import opened Text
  import opened Nullable
  import Widgets

  datatype BranchEvent = BranchEvent(name: string, date: string)

  /** One record of the branch table. */
  datatype Branch = Branch(
    name: string, location: string, established: string, chairman: string,
    email: string, phone: string, address: string, meetingSchedule: string,
    members: string, events: seq<BranchEvent>, achievements: seq<string>)

  /** What the modal body shows, item by item, without its markup. */
  datatype ModalItem =
    | Heading(text: string)
    | Location(text: string)
    | Info(caption: string, text: string)
    | EventItem(name: string, date: string)
    | Achievement(text: string)

  /** The heading, the location and the six information items, in the
      order the modal shows them; the member count is not shown. */
  function Header(b: Branch): (r: seq<ModalItem>)
    ensures |r| == 8
  {
    [ Heading(b.name), Location(b.location),
      Info("Established:", b.established), Info("Chairman:", b.chairman),
      Info("Email:", b.email), Info("Phone:", b.phone),
      Info("Address:", b.address), Info("Meeting Schedule:", b.meetingSchedule) ]
  }

  /** The modal shows branch b: its header, then one item per event in the
      stored order, then one per achievement in the stored order. */
  ghost predicate ShowsBranch(items: seq<ModalItem>, b: Branch) {
    && |items| == 8 + |b.events| + |b.achievements|
    && items[..8] == Header(b)
    && (forall i :: 0 <= i < |b.events| ==>
          items[8 + i] == EventItem(b.events[i].name, b.events[i].date))
    && (forall j :: 0 <= j < |b.achievements| ==>
          items[8 + |b.events| + j] == Achievement(b.achievements[j]))
  }

  /** There is only one way to show a branch. */
  lemma ShowsBranchUnique(a: seq<ModalItem>, c: seq<ModalItem>, b: Branch)
    requires ShowsBranch(a, b) && ShowsBranch(c, b)
    ensures a == c
  {
    forall k | 0 <= k < |a|
      ensures a[k] == c[k]
    {
      if k < 8 {
        assert a[k] == a[..8][k] && c[k] == c[..8][k];
      } else if k < 8 + |b.events| {
        var i := k - 8;
        assert a[8 + i] == EventItem(b.events[i].name, b.events[i].date) == c[8 + i];
      } else {
        var j := k - 8 - |b.events|;
        assert a[8 + |b.events| + j] == Achievement(b.achievements[j]) == c[8 + |b.events| + j];
      }
    }
  }

  /** The content a detail button builds: the header, then the events and
      the achievements appended one by one. */
  method RenderBranch(b: Branch) returns (items: seq<ModalItem>)
    ensures ShowsBranch(items, b)
  {
    items := Header(b);
    var i := 0;
    while i < |b.events|
      invariant 0 <= i <= |b.events| && |items| == 8 + i
      invariant items[..8] == Header(b)
      invariant forall k :: 0 <= k < i ==> items[8 + k] == EventItem(b.events[k].name, b.events[k].date)
    {
      items := items + [EventItem(b.events[i].name, b.events[i].date)];
      i := i + 1;
    }
    var j := 0;
    while j < |b.achievements|
      invariant 0 <= j <= |b.achievements| && |items| == 8 + |b.events| + j
      invariant items[..8] == Header(b)
      invariant forall k :: 0 <= k < |b.events| ==> items[8 + k] == EventItem(b.events[k].name, b.events[k].date)
      invariant forall k :: 0 <= k < j ==> items[8 + |b.events| + k] == Achievement(b.achievements[k])
    {
      items := items + [Achievement(b.achievements[j])];
      j := j + 1;
    }
  }

  /** The `#branch-modal` element: the branch table it looks names up in,
      its body's content, its display, and the body's `overflow` style. */
  class BranchModal {
    const table: map<string, Branch>
    var content: seq<ModalItem>
    var display: Widgets.Display
    var bodyOverflow: string

    /** While the modal is shown the page does not scroll. */
    ghost predicate Valid()
      reads this
    {
      display == Widgets.Block ==> bodyOverflow == "hidden"
    }

    constructor (table: map<string, Branch>, content: seq<ModalItem>)
      ensures Valid() && this.table == table && this.content == content
      ensures display == Widgets.Unset && bodyOverflow == ""
    {
      this.table := table;
      this.content := content;
      display := Widgets.Unset;
      bodyOverflow := "";
    }

    /** A `.branch-details-btn` click, with the button's `data-branch`
        attribute: a branch in the table fills the modal with that branch
        and shows it, with scrolling turned off; any other name (a missing
        attribute looks up "null") changes nothing. */
    method DetailClick(branchId: Option<string>)
      requires Valid()
      modifies this
      ensures Valid()
      ensures AttributeText(branchId) in table ==>
        && ShowsBranch(content, table[AttributeText(branchId)])
        && display == Widgets.Block && bodyOverflow == "hidden"
      ensures AttributeText(branchId) !in table ==>
        content == old(content) && display == old(display) && bodyOverflow == old(bodyOverflow)
    {
      var key := AttributeText(branchId);
      if key in table {
        content := RenderBranch(table[key]);
        display := Widgets.Block;
        bodyOverflow := "hidden";
      }
    }

    /** The `.close-modal` click hides the modal and lets the page scroll
        again. */
    method CloseClick()
      requires Valid()
      modifies this
      ensures Valid() && content == old(content)
      ensures display == Widgets.Hidden && bodyOverflow == ""
    {
      display := Widgets.Hidden;
      bodyOverflow := "";
    }

    /** A click anywhere in the window closes the modal only when it landed
        on the modal's backdrop itself. */
    method WindowClick(onBackdrop: bool)
      requires Valid()
      modifies this
      ensures Valid() && content == old(content)
      ensures onBackdrop ==> display == Widgets.Hidden && bodyOverflow == ""
      ensures !onBackdrop ==> display == old(display) && bodyOverflow == old(bodyOverflow)
    {
      if onBackdrop {
        display := Widgets.Hidden;
        bodyOverflow := "";
      }
    }
  }

  /** The selector a dropdown link targets: an href with a '#' becomes '#'
      and the piece after its first '#'; one without is used as it is. */
  function HashTarget(href: string): string
  {
    if '#' in href then
      IndexOfFound(href, '#');
      "#" + Split(href, '#')[1]
    else href
  }

  /** The first piece of a split is the text before the first separator. */
  lemma SplitHead(s: string, c: char)
    ensures Split(s, c)[0] == s[..IndexOf(s, c)]
  {
  }

  /** A separator that occurs is found. */
  lemma IndexOfFound(s: string, c: char)
    requires c in s
    ensures IndexOf(s, c) < |s|
  {
    var w :| 0 <= w < |s| && s[w] == c;
    IndexOfFirst(s, c);
  }

  /** The second piece of a split is the text between the first separator
      and the next one or the end. */
  lemma SplitSecond(s: string, c: char)
    requires IndexOf(s, c) < |s|
    ensures |Split(s, c)| >= 2
    ensures var rest := s[IndexOf(s, c) + 1..]; Split(s, c)[1] == rest[..IndexOf(rest, c)]
  {
    var i := IndexOf(s, c);
    var rest := s[i + 1..];
    assert Split(s, c) == [s[..i]] + Split(rest, c);
    SplitHead(rest, c);
  }

  /** With a '#' in the href, the target is '#' followed by the text between
      the first '#' and the next '#' or the end. */
  lemma HashTargetMeaning(href: string)
    requires '#' in href
    ensures var i := IndexOf(href, '#');
      i < |href| && var rest := href[i + 1..];
      HashTarget(href) == "#" + rest[..IndexOf(rest, '#')]
  {
    var i := IndexOf(href, '#');
    IndexOfFound(href, '#');
    HashTargetAt(href, i);
  }

  /** The same, with the position of the first '#' given. */
  lemma HashTargetAt(href: string, i: nat)
    requires '#' in href && i == IndexOf(href, '#') && i < |href|
    ensures HashTarget(href) == "#" + href[i + 1..][..IndexOf(href[i + 1..], '#')]
  {
    HashTargetIsSecond(href);
    SplitSecond(href, '#');
  }

  lemma HashTargetIsSecond(href: string)
    requires '#' in href && IndexOf(href, '#') < |href|
    ensures HashTarget(href) == "#" + Split(href, '#')[1]
  {
  }

  /** '#' followed by text without a '#' is its own target. */
  lemma HashTargetFixed(piece: string)
    requires '#' !in piece
    ensures HashTarget("#" + piece) == "#" + piece
  {
    var r := "#" + piece;
    assert r[0] == '#';
    assert r[1..] == piece;
    HashTargetMeaning(r);
    assert IndexOf(piece, '#') == |piece|;
  }

  /** The target holds no '#' after its first character, so reducing it
      again leaves it as it is. */
  lemma HashTargetIdempotent(href: string)
    requires '#' in href
    ensures '#' !in HashTarget(href)[1..]
    ensures HashTarget(HashTarget(href)) == HashTarget(href)
  {
    HashTargetMeaning(href);
    var i := IndexOf(href, '#');
    var rest := href[i + 1..];
    var piece := rest[..IndexOf(rest, '#')];
    IndexOfFirst(rest, '#');
    assert HashTarget(href)[1..] == piece;
    assert '#' !in piece by {
      forall k | 0 <= k < |piece| ensures piece[k] != '#' {
        assert piece[k] == rest[k];
      }
    }
    HashTargetFixed(piece);
  }

  /** The page's elements that a dropdown link can land on, whether each is
      a `.branch-card`, and which carry the `highlight` class. */
  class BranchCards {
    const isCard: seq<bool>
    var highlight: seq<bool>

    ghost predicate Valid()
      reads this
    {
      |highlight| == |isCard|
    }

    constructor (isCard: seq<bool>, highlight: seq<bool>)
      requires |highlight| == |isCard|
      ensures Valid() && this.isCard == isCard && this.highlight == highlight
    {
      this.isCard := isCard;
      this.highlight := highlight;
    }

    /** A dropdown link click: an open menu closes; then, if the link's
        selector found an element (`target`), every branch card loses
        `highlight` and the target gains it. Elements that are not cards
        keep their class unless they are the target. */
    method Navigate(menu: Widgets.NavMenu?, target: Option<nat>)
      requires Valid()
      requires menu != null ==> menu.Valid()
      requires target.Some? ==> target.value < |highlight|
      modifies this, menu
      ensures Valid()
      ensures menu != null ==> menu.Valid() && !menu.listActive
      ensures target.None? ==> highlight == old(highlight)
      ensures target.Some? ==> forall k :: 0 <= k < |highlight| ==>
        highlight[k] == (k == target.value || (!isCard[k] && old(highlight[k])))
    {
      if menu != null {
        menu.CloseForNavigation();
      }
      if target.Some? {
        var k := 0;
        while k < |highlight|
          modifies this
          invariant 0 <= k <= |highlight| == |isCard|
          invariant forall j :: 0 <= j < |highlight| ==>
            highlight[j] == (if j < k && isCard[j] then false else old(highlight[j]))
        {
          if isCard[k] {
            highlight := highlight[k := false];
          }
          k := k + 1;
        }
        highlight := highlight[target.value := true];
      }
    }

    /** Two seconds later the target loses `highlight` again. */
    method HighlightExpires(t: nat)
      requires Valid() && t < |highlight|
      modifies this
      ensures Valid() && highlight == old(highlight)[t := false]
    {
      highlight := highlight[t := false];
    }
  }
}
