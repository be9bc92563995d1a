/** The membership page script js/membership.js: the graduation year
    options, the FAQ items with their plus/minus icons, the registration
    form's validation and the message shown above its submit row. */
module MembershipPage {
  import opened Text
  import opened Email
  import opened Forms

  /** The founding year of the polytechnic, the earliest graduation year
      offered. */
  const StartYear: int := 1979

  /** The years offered, newest first: from the current year down to
      `StartYear`; none when the current year is earlier. */
  function GraduationYears(currentYear: int): (r: seq<int>)
    ensures |r| == if currentYear >= StartYear then currentYear - StartYear + 1 else 0
    ensures forall i :: 0 <= i < |r| ==> r[i] == currentYear - i
  {
    var n := if currentYear >= StartYear then currentYear - StartYear + 1 else 0;
    seq(n, i => currentYear - i)
  }

  /** Every year from `StartYear` to the current year is offered exactly
      once, in strictly falling order, and no other year is. */
  lemma GraduationYearsMeaning(currentYear: int)
    ensures forall y :: y in GraduationYears(currentYear) <==> StartYear <= y <= currentYear
    ensures forall i, j :: 0 <= i < j < |GraduationYears(currentYear)| ==>
      GraduationYears(currentYear)[i] > GraduationYears(currentYear)[j]
    ensures currentYear >= StartYear ==>
      && GraduationYears(currentYear)[0] == currentYear
      && GraduationYears(currentYear)[|GraduationYears(currentYear)| - 1] == StartYear
  {
    var r := GraduationYears(currentYear);
    forall y | StartYear <= y <= currentYear ensures y in r {
      assert r[currentYear - y] == y;
    }
  }

  /** The `#graduationYear` select's options, as their values. */
  class YearSelect {
    var options: seq<int>

    constructor (options: seq<int>)
      ensures this.options == options
    {
      this.options := options;
    }
  }

  /** `populateGraduationYears`: one option per year is appended, counting
      down from the current year (the clock's reading, passed in); a page
      without the select is left alone. */
  method PopulateGraduationYears(select: YearSelect?, currentYear: int)
    modifies select
    ensures select != null ==> select.options == old(select.options) + GraduationYears(currentYear)
  {
    if select == null {
      return;
    }
    var year := currentYear;
    while year >= StartYear
      invariant year <= currentYear
      invariant year >= StartYear - 1 || year == currentYear
      invariant select.options == old(select.options) + GraduationYears(currentYear)[..currentYear - year]
      decreases year
    {
      assert GraduationYears(currentYear)[..currentYear - year + 1]
        == GraduationYears(currentYear)[..currentYear - year] + [year];
      select.options := select.options + [year];
      year := year - 1;
    }
    assert GraduationYears(currentYear)[..currentYear - year] == GraduationYears(currentYear);
  }

  /** The `.faq-item` elements' `active` class and their toggle icons'
      `fa-minus` and `fa-plus` classes. */
  class FaqIcons {
    var active: seq<bool>
    var minus: seq<bool>
    var plus: seq<bool>

    ghost predicate Valid()
      reads this
    {
      |minus| == |active| && |plus| == |active|
    }

    /** Item k shows the icon that matches its state. */
    ghost predicate Synced(k: nat)
      requires Valid() && k < |active|
      reads this
    {
      minus[k] == active[k] && plus[k] == !active[k]
    }

    constructor (active: seq<bool>, minus: seq<bool>, plus: seq<bool>)
      requires |minus| == |active| && |plus| == |active|
      ensures Valid() && this.active == active && this.minus == minus && this.plus == plus
    {
      this.active, this.minus, this.plus := active, minus, plus;
    }

    /** A question click toggles its own item only, and that item's icon is
        set to match: a minus when open, a plus when closed. Icons that
        matched before all match afterwards. */
    method Click(k: nat)
      requires Valid() && k < |active|
      modifies this
      ensures Valid()
      ensures active == old(active)[k := !old(active[k])]
      ensures minus == old(minus)[k := active[k]]
      ensures plus == old(plus)[k := !active[k]]
      ensures Synced(k)
      ensures (forall j :: 0 <= j < |active| ==> old(Synced(j))) ==>
        forall j :: 0 <= j < |active| ==> Synced(j)
    {
      active := active[k := !active[k]];
      if active[k] {
        plus := plus[k := false];
        minus := minus[k := true];
      } else {
        minus := minus[k := false];
        plus := plus[k := true];
      }
      forall j | 0 <= j < |active| && old(Synced(j))
        ensures Synced(j)
      {
      }
    }
  }

  /** `isValidEmail`: the strict e-mail pattern. */
  predicate IsValidEmail(s: string) {
    MatchesStrict(s)
  }

  /** An address passes exactly when it splits into a local part, a domain
      and a suffix, each non-empty and free of whitespace and '@', joined
      by an '@' and a '.'. */
  lemma IsValidEmailIff(s: string)
    ensures IsValidEmail(s) <==> WellFormedAddress(s)
  {
    MatchesStrictIff(s);
  }

  /** A character of `[0-9\s-()]`: a digit, whitespace, '-', '(' or ')'. */
  predicate PhoneChar(c: char) {
    IsDigit(c) || IsSpace(c) || c == '-' || c == '(' || c == ')'
  }

  /** `[0-9\s-()]{10,}`: at least ten phone characters, whatever they are. */
  predicate PhoneRun(t: string) {
    |t| >= 10 && forall k :: 0 <= k < |t| ==> PhoneChar(t[k])
  }

  /** The value split by `^\+?` at p: a '+' taken when p is 1, none when p
      is 0, and the rest a phone run. */
  predicate PhoneSplit(s: string, p: int) {
    0 <= p <= 1 && p <= |s| && (p == 1 ==> s[0] == '+') && PhoneRun(s[p..])
  }

  /** `isValidPhone`: `/^\+?[0-9\s-()]{10,}$/.test(s)`. */
  predicate IsValidPhone(s: string) {
    exists p :: 0 <= p <= 1 && PhoneSplit(s, p)
  }

  /** The value without its leading '+', if it has one. */
  function AfterPlus(s: string): (r: string)
    ensures |s| > 0 && s[0] == '+' ==> s == "+" + r
    ensures !(|s| > 0 && s[0] == '+') ==> r == s
  {
    if |s| > 0 && s[0] == '+' then s[1..] else s
  }

  /** A phone number passes exactly when, after one leading '+' is dropped,
      at least ten characters remain and each is a digit, whitespace, '-',
      '(' or ')'. */
  lemma IsValidPhoneIff(s: string)
    ensures IsValidPhone(s) <==> PhoneRun(AfterPlus(s))
  {
    if IsValidPhone(s) {
      var p :| 0 <= p <= 1 && PhoneSplit(s, p);
      if p == 0 && |s| > 0 {
        assert PhoneChar(s[0]);
      }
    }
    if PhoneRun(AfterPlus(s)) {
      if |s| > 0 && s[0] == '+' {
        assert PhoneSplit(s, 1);
      } else {
        assert PhoneSplit(s, 0);
      }
    }
  }

  /** The check counts characters, not digits: ten dashes pass, while nine
      digits do not. */
  lemma PhoneCountsCharacters()
    ensures IsValidPhone("----------") && DigitsOnly("----------") == []
    ensures !IsValidPhone("123456789")
  {
    assert PhoneSplit("----------", 0);
    assert DigitsOnly("----------") == [] by {
      DigitsOnlyEmptyIff("----------");
    }
    IsValidPhoneIff("123456789");
  }

  const EmailId: string := "email"
  const PhoneId: string := "phone"
  const SuccessText: string :=
    "Registration submitted successfully! We will review your application and contact you soon."

  /** The phone check on `#phone`: it runs only when the field exists and
      is not blank. */
  predicate PhoneFails(fs: seq<Field>) {
    var p := FirstWithId(fs, PhoneId);
    p < |fs| && !IsBlank(fs[p].value) && !IsValidPhone(fs[p].value)
  }

  /** The notes `validateForm` leaves: the required-field notes, then the
      `#email` note, then the `#phone` note. */
  function MembershipNotes(fs: seq<Field>): seq<ErrorNote>
  {
    RequiredNotes(fs)
      + NoteIf(StrictEmailFails(fs, FirstWithId(fs, EmailId)), FirstWithId(fs, EmailId), InvalidEmail)
      + NoteIf(PhoneFails(fs), FirstWithId(fs, PhoneId), InvalidPhone)
  }

  /** The registration form passes when no required field is blank and
      `#email` and `#phone`, where present and not blank, are well formed. */
  predicate MembershipValid(fs: seq<Field>) {
    && (forall k :: 0 <= k < |fs| ==> !MissingRequired(fs[k]))
    && !StrictEmailFails(fs, FirstWithId(fs, EmailId))
    && !PhoneFails(fs)
  }

  /** The fields that carry the `error` class after validation. */
  predicate MembershipFlagged(fs: seq<Field>, k: nat)
    requires k < |fs|
  {
    || MissingRequired(fs[k])
    || (k == FirstWithId(fs, EmailId) && StrictEmailFails(fs, k))
    || (k == FirstWithId(fs, PhoneId) && PhoneFails(fs))
  }

  /** The form passes exactly when validation leaves no note. */
  lemma MembershipValidIffNoNotes(fs: seq<Field>)
    ensures MembershipValid(fs) <==> MembershipNotes(fs) == []
  {
    RequiredNotesMeaning(fs);
  }

  /** A blank field gets at most the "required" note, never a format note. */
  lemma BlankFieldOnlyRequired(fs: seq<Field>, k: nat)
    requires k < |fs| && IsBlank(fs[k].value)
    ensures forall i :: 0 <= i < |MembershipNotes(fs)| && MembershipNotes(fs)[i].field == k ==>
      MembershipNotes(fs)[i].message == FieldRequired
    ensures Noted(MembershipNotes(fs), k) <==> fs[k].required
  {
    var e, p := FirstWithId(fs, EmailId), FirstWithId(fs, PhoneId);
    var extra := NoteIf(StrictEmailFails(fs, e), e, InvalidEmail) + NoteIf(PhoneFails(fs), p, InvalidPhone);
    Forms.BlankFieldOnlyRequired(fs, extra, k);
    assert MembershipNotes(fs) == RequiredNotes(fs) + extra;
  }

  /** `validateForm`: earlier notes and marks are removed, then each failed
      check adds its note and marks its field; the result is whether all
      passed. Only the fields that failed are marked afterwards. */
  method ValidateForm(form: FormState) returns (ok: bool)
    requires form.Valid()
    modifies form
    ensures form.Valid() && form.fields == old(form.fields)
    ensures form.notes == MembershipNotes(form.fields)
    ensures ok <==> MembershipValid(form.fields)
    ensures forall k :: 0 <= k < |form.fields| ==>
      form.flagged[k] == MembershipFlagged(form.fields, k)
  {
    form.ClearNotes();
    form.ClearMarks();
    ok := form.CheckRequired();
    var fs := form.fields;
    ghost var required, afterRequired := form.notes, form.flagged;
    assert [] + RequiredNotes(fs) == RequiredNotes(fs);
    var e, p := FirstWithId(fs, EmailId), FirstWithId(fs, PhoneId);
    var emailPassed := form.CheckEmail(e);
    ghost var afterEmail := form.flagged;
    ok := ok && emailPassed;
    var phonePassed := CheckPhone(form);
    ok := ok && phonePassed;
    assert MembershipNotes(fs) == required + NoteIf(!emailPassed, e, InvalidEmail)
      + NoteIf(!phonePassed, p, InvalidPhone);
    forall k | 0 <= k < |fs| ensures form.flagged[k] == MembershipFlagged(fs, k) {
      assert afterRequired[k] == MissingRequired(fs[k]);
      assert afterEmail[k] == (afterRequired[k] || (k == e && !emailPassed));
      assert form.flagged[k] == (afterEmail[k] || (k == p && !phonePassed));
    }
  }

  /** The phone check on `#phone`: a failure adds the phone note and marks
      the field. */
  method CheckPhone(form: FormState) returns (passed: bool)
    requires form.Valid()
    modifies form
    ensures form.Valid() && form.fields == old(form.fields)
    ensures passed <==> !PhoneFails(form.fields)
    ensures form.notes == old(form.notes) + NoteIf(!passed, FirstWithId(form.fields, PhoneId), InvalidPhone)
    ensures form.flagged == if passed then old(form.flagged) else old(form.flagged)[FirstWithId(form.fields, PhoneId) := true]
  {
    passed := true;
    var fs := form.fields;
    var p := FirstWithId(fs, PhoneId);
    if p < |fs| && !IsBlank(fs[p].value) {
      if !IsValidPhone(fs[p].value) {
        form.ShowError(p, InvalidPhone);
        passed := false;
      }
    }
  }

  /** The first `.form-submit` node, or |nodes| when there is none. */
  function FirstSubmit(nodes: seq<ActionNode>): (r: nat)
    ensures r <= |nodes|
    ensures r < |nodes| ==> nodes[r].FormSubmit?
    ensures forall k :: 0 <= k < r ==> !nodes[k].FormSubmit?
  {
    if nodes == [] then 0
    else if nodes[0].FormSubmit? then 0
    else
      assert forall k :: 1 <= k < |nodes| ==> nodes[k] == nodes[1..][k - 1];
      1 + FirstSubmit(nodes[1..])
  }

  /** Where `showFormMessage` puts message m among nodes that hold no
      message: directly before the first `.form-submit`, else at the end of
      the form container, else nowhere. */
  function Placed(rest: seq<ActionNode>, m: ActionNode, hasContainer: bool): seq<ActionNode>
  {
    var s := FirstSubmit(rest);
    if s < |rest| then rest[..s] + [m] + rest[s..]
    else if hasContainer then rest + [m]
    else rest
  }

  /** Placing a message among message-free nodes keeps those nodes in
      order, adds exactly one message when there is a place for it, and puts
      it directly before the first `.form-submit` when there is one. */
  lemma PlacedMeaning(rest: seq<ActionNode>, kind: string, text: string, hasContainer: bool)
    requires forall k :: 0 <= k < |rest| ==> !rest[k].FormMessage?
    ensures var r := Placed(rest, FormMessage(kind, text), hasContainer);
      && Others(r) == rest
      && MessageCount(r) == (if FirstSubmit(rest) < |rest| || hasContainer then 1 else 0)
      && (FirstSubmit(rest) < |rest| ==>
            r[FirstSubmit(rest)] == FormMessage(kind, text) && r[FirstSubmit(rest) + 1].FormSubmit?)
  {
    var m := FormMessage(kind, text);
    if FirstSubmit(rest) < |rest| {
      PlacedBeforeSubmit(rest, m, FirstSubmit(rest));
    } else if hasContainer {
      assert rest + [m] + [] == rest + [m];
      InsertedMessage(rest, m, []);
    } else {
      OthersOfMessageFree(rest);
      OthersHasNoMessages(rest);
    }
  }

  /** The case with a `.form-submit` at s: the message lands directly
      before it. */
  lemma PlacedBeforeSubmit(rest: seq<ActionNode>, m: ActionNode, s: nat)
    requires m.FormMessage? && s < |rest| && rest[s].FormSubmit?
    requires forall k :: 0 <= k < |rest| ==> !rest[k].FormMessage?
    ensures var r := rest[..s] + [m] + rest[s..];
      && Others(r) == rest && MessageCount(r) == 1
      && r[s] == m && r[s + 1].FormSubmit?
  {
    var a, b := rest[..s], rest[s..];
    assert a + b == rest;
    forall k | 0 <= k < |a| ensures !a[k].FormMessage? {
      assert a[k] == rest[k];
    }
    forall k | 0 <= k < |b| ensures !b[k].FormMessage? {
      assert b[k] == rest[s + k];
    }
    InsertedMessage(a, m, b);
    assert (a + [m] + b)[s + 1] == b[0];
  }

  /** A message between message-free nodes is the only message, and
      dropping it gives the nodes back. */
  lemma InsertedMessage(a: seq<ActionNode>, m: ActionNode, b: seq<ActionNode>)
    requires m.FormMessage?
    requires forall k :: 0 <= k < |a| ==> !a[k].FormMessage?
    requires forall k :: 0 <= k < |b| ==> !b[k].FormMessage?
    ensures Others(a + [m] + b) == a + b
    ensures MessageCount(a + [m] + b) == 1
  {
    SingleMessage(m);
    InsertedMessageOthers(a, m, b);
    InsertedMessageCount(a, m, b);
  }

  lemma InsertedMessageOthers(a: seq<ActionNode>, m: ActionNode, b: seq<ActionNode>)
    requires Others([m]) == []
    requires forall k :: 0 <= k < |a| ==> !a[k].FormMessage?
    requires forall k :: 0 <= k < |b| ==> !b[k].FormMessage?
    ensures Others(a + [m] + b) == a + b
  {
    var am := a + [m];
    OthersOfMessageFree(a);
    OthersOfMessageFree(b);
    OthersAppend(a, [m]);
    assert a + [] == a;
    assert Others(am) == a;
    OthersAppend(am, b);
  }

  lemma InsertedMessageCount(a: seq<ActionNode>, m: ActionNode, b: seq<ActionNode>)
    requires MessageCount([m]) == 1
    requires forall k :: 0 <= k < |a| ==> !a[k].FormMessage?
    requires forall k :: 0 <= k < |b| ==> !b[k].FormMessage?
    ensures MessageCount(a + [m] + b) == 1
  {
    OthersOfMessageFree(a);
    OthersOfMessageFree(b);
    OthersHasNoMessages(a);
    OthersHasNoMessages(b);
    MessageCountAppend(a + [m], b);
    MessageCountAppend(a, [m]);
  }

  /** One message alone: no other node, one message. */
  lemma SingleMessage(m: ActionNode)
    requires m.FormMessage?
    ensures Others([m]) == [] && MessageCount([m]) == 1
  {
    assert [m][1..] == [];
  }

  /** The page's nodes, in document order, that can hold or place a form
      message, and whether the page has a `.form-container`. */
  class MessageArea {
    var nodes: seq<ActionNode>
    const hasContainer: bool

    constructor (nodes: seq<ActionNode>, hasContainer: bool)
      ensures this.nodes == nodes && this.hasContainer == hasContainer
    {
      this.nodes := nodes;
      this.hasContainer := hasContainer;
    }

    /** `showFormMessage(type, message)`: every existing message is removed
        and the new one is placed. Afterwards there is exactly one message
        when it was placed and none otherwise; the other nodes are
        untouched. */
    method ShowFormMessage(kind: string, text: string)
      modifies this
      ensures nodes == Placed(Others(old(nodes)), FormMessage(kind, text), hasContainer)
      ensures Others(nodes) == Others(old(nodes))
      ensures MessageCount(nodes) ==
        if FirstSubmit(Others(old(nodes))) < |Others(old(nodes))| || hasContainer then 1 else 0
      ensures FirstSubmit(Others(old(nodes))) < |Others(old(nodes))| ==>
        var s := FirstSubmit(Others(old(nodes)));
        nodes[s] == FormMessage(kind, text) && nodes[s + 1].FormSubmit?
    {
      var rest := WithoutMessages(nodes);
      OthersHasNoMessages(nodes);
      PlacedMeaning(rest, kind, text, hasContainer);
      nodes := Placed(rest, FormMessage(kind, text), hasContainer);
    }
  }

  /** `document.querySelectorAll('.form-message').forEach(msg => msg.remove())`:
      the nodes that remain are the other nodes, in order. */
  method WithoutMessages(nodes: seq<ActionNode>) returns (rest: seq<ActionNode>)
    ensures rest == Others(nodes)
    ensures MessageCount(rest) == 0 && |rest| <= |nodes|
  {
    rest := [];
    var i := 0;
    while i < |nodes|
      invariant 0 <= i <= |nodes| && |rest| <= i
      invariant rest == Others(nodes[..i])
    {
      assert nodes[..i + 1] == nodes[..i] + [nodes[i]];
      OthersAppend(nodes[..i], [nodes[i]]);
      if !nodes[i].FormMessage? {
        rest := rest + [nodes[i]];
      }
      i := i + 1;
    }
    assert nodes[..i] == nodes;
    OthersHasNoMessages(nodes);
  }

  /** The registration form's submit handler (the submission itself is
      always cancelled): a valid form shows the success message in place of
      any earlier message, directly before the first `.form-submit`, else at
      the end of the container. */
  method Submit(form: FormState, area: MessageArea) returns (ok: bool)
    requires form.Valid()
    modifies form, area
    ensures form.Valid() && form.fields == old(form.fields)
    ensures form.notes == MembershipNotes(form.fields)
    ensures ok <==> MembershipValid(form.fields)
    ensures ok ==> area.nodes == Placed(Others(old(area.nodes)), FormMessage("success", SuccessText), area.hasContainer)
    ensures ok ==> Others(area.nodes) == Others(old(area.nodes))
    ensures ok ==>
      MessageCount(area.nodes) == if FirstSubmit(Others(old(area.nodes))) < |Others(old(area.nodes))| || area.hasContainer then 1 else 0
    ensures !ok ==> area.nodes == old(area.nodes)
  {
    ok := ValidateForm(form);
    if ok {
      area.ShowFormMessage("success", SuccessText);
    }
  }
}
