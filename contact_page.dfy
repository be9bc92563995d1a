/** The contact page script js/contact.js: the contact form's validation
    and its result message, and the newsletter forms' messages. Its FAQ is
    `Widgets.ExclusiveAccordion` and its scroll animation `Widgets.Reveal`. */
module ContactPage {
  import opened Text
  import opened Email
  import opened Forms

  /** `validateEmail`: the strict e-mail pattern. */
  predicate ValidateEmail(s: string) {
    MatchesStrict(s)
  }

  /** An address passes exactly when it splits into a local part, a domain
      and a suffix, each non-empty and free of whitespace and '@', joined
      by an '@' and a '.'. */
  lemma ValidateEmailIff(s: string)
    ensures ValidateEmail(s) <==> WellFormedAddress(s)
  {
    MatchesStrictIff(s);
  }

  const ThanksText: string := "Thank you for your message! We will get back to you shortly."
  const SubscribedText: string := "Thank you for subscribing to our newsletter!"
  const InvalidText: string := "Please enter a valid email address."

  /** The notes `validateForm` leaves: the required-field notes, then the
      note on the first e-mail input. */
  function ContactNotes(fs: seq<Field>): seq<ErrorNote>
  {
    RequiredNotes(fs)
      + NoteIf(StrictEmailFails(fs, FirstEmailInput(fs)), FirstEmailInput(fs), InvalidEmail)
  }

  /** The contact form passes when no required field is blank and the first
      e-mail input, where present and not blank, is well formed. */
  predicate ContactValid(fs: seq<Field>) {
    && (forall k :: 0 <= k < |fs| ==> !MissingRequired(fs[k]))
    && !StrictEmailFails(fs, FirstEmailInput(fs))
  }

  /** The fields whose border validation turns red. */
  predicate ContactFlagged(fs: seq<Field>, k: nat)
    requires k < |fs|
  {
    MissingRequired(fs[k]) || (k == FirstEmailInput(fs) && StrictEmailFails(fs, k))
  }

  /** The form passes exactly when validation leaves no note. */
  lemma ContactValidIffNoNotes(fs: seq<Field>)
    ensures ContactValid(fs) <==> ContactNotes(fs) == []
  {
    RequiredNotesMeaning(fs);
  }

  /** A blank e-mail field (or any blank field) gets at most the "required"
      note, never the e-mail note. */
  lemma BlankFieldOnlyRequired(fs: seq<Field>, k: nat)
    requires k < |fs| && IsBlank(fs[k].value)
    ensures forall i :: 0 <= i < |ContactNotes(fs)| && ContactNotes(fs)[i].field == k ==>
      ContactNotes(fs)[i].message == FieldRequired
    ensures Noted(ContactNotes(fs), k) <==> fs[k].required
  {
    var e := FirstEmailInput(fs);
    Forms.BlankFieldOnlyRequired(fs, NoteIf(StrictEmailFails(fs, e), e, InvalidEmail), k);
  }

  /** Validation leaves at most one note per field, and notes exactly the
      fields it marks; so typing into a marked field afterwards removes its
      only note. */
  lemma ContactNotesPerField(fs: seq<Field>)
    ensures OneNotePerField(ContactNotes(fs))
    ensures forall k :: 0 <= k < |fs| ==> (Noted(ContactNotes(fs), k) <==> ContactFlagged(fs, k))
    ensures forall k: nat :: !Noted(DropFirstNote(ContactNotes(fs), k), k)
  {
    var e := FirstEmailInput(fs);
    var emailNote := NoteIf(StrictEmailFails(fs, e), e, InvalidEmail);
    NotesAssoc(RequiredNotes(fs), emailNote, []);
    NotesAssoc(emailNote, [], []);
    TwoFormatNotes(ContactNotes(fs), fs, StrictEmailFails(fs, e), e, InvalidEmail, false, 0, FieldRequired);
    DropOnlyNote(ContactNotes(fs));
  }

  /** `validateForm`: earlier notes are removed, then each failed check adds
      its note and marks its field; the result is whether all passed. Marks
      from earlier submissions stay. */
  method ValidateForm(form: FormState) returns (ok: bool)
    requires form.Valid()
    modifies form
    ensures form.Valid() && form.fields == old(form.fields)
    ensures form.notes == ContactNotes(form.fields)
    ensures ok <==> ContactValid(form.fields)
    ensures forall k :: 0 <= k < |form.fields| ==>
      form.flagged[k] == (old(form.flagged[k]) || ContactFlagged(form.fields, k))
  {
    form.ClearNotes();
    ok := form.CheckRequired();
    assert [] + RequiredNotes(form.fields) == RequiredNotes(form.fields);
    var e := FirstEmailInput(form.fields);
    var emailPassed := form.CheckEmail(e);
    ok := ok && emailPassed;
  }

  /** The contact form's submit handler (the submission itself is always
      cancelled): a valid form shows the thank-you message at the front of
      `.form-actions`, when the page has one. */
  method Submit(form: FormState, actions: FormActions?) returns (ok: bool)
    requires form.Valid()
    modifies form, actions
    ensures form.Valid() && form.fields == old(form.fields)
    ensures form.notes == ContactNotes(form.fields)
    ensures ok <==> ContactValid(form.fields)
    ensures actions != null && ok ==>
      actions.children == [FormMessage("success", ThanksText)] + RemoveFirstMessage(old(actions.children))
    ensures actions != null && !ok ==> actions.children == old(actions.children)
  {
    ok := ValidateForm(form);
    if ok && actions != null {
      actions.ShowFormMessage("success", ThanksText);
    }
  }

  /** A `.newsletter-form`: whether it has an e-mail input, that input's
      value and the value `reset()` restores, and the children of the
      form's parent, where its messages go. */
  class NewsletterForm {
    const hasEmailInput: bool
    const defaultEmail: string
    var email: string
    var parentNodes: seq<ActionNode>

    /** The parent holds at most one form message. */
    ghost predicate Valid()
      reads this
    {
      MessageCount(parentNodes) <= 1
    }

    constructor (hasEmailInput: bool, defaultEmail: string, parentNodes: seq<ActionNode>)
      requires MessageCount(parentNodes) <= 1
      ensures Valid() && this.hasEmailInput == hasEmailInput && this.defaultEmail == defaultEmail
      ensures email == defaultEmail && this.parentNodes == parentNodes
    {
      this.hasEmailInput := hasEmailInput;
      this.defaultEmail := defaultEmail;
      email := defaultEmail;
      this.parentNodes := parentNodes;
    }

    /** The submit handler (the submission itself is always cancelled). A
        form without an e-mail input does nothing more. Otherwise the first
        message in the parent is removed and a new one appended: a success
        message, with the form reset, for a well-formed address, and an
        error message, with the value kept, for any other. Either way the
        parent then holds exactly one message. */
    method Submit()
      requires Valid()
      modifies this
      ensures Valid()
      ensures !hasEmailInput ==> email == old(email) && parentNodes == old(parentNodes)
      ensures hasEmailInput && ValidateEmail(old(email)) ==>
        && parentNodes == RemoveFirstMessage(old(parentNodes)) + [FormMessage("success", SubscribedText)]
        && email == defaultEmail
      ensures hasEmailInput && !ValidateEmail(old(email)) ==>
        && parentNodes == RemoveFirstMessage(old(parentNodes)) + [FormMessage("error", InvalidText)]
        && email == old(email)
      ensures hasEmailInput ==> MessageCount(parentNodes) == 1
      ensures Others(parentNodes) == Others(old(parentNodes))
    {
      if !hasEmailInput {
        return;
      }
      var msg: ActionNode;
      if ValidateEmail(email) {
        msg := FormMessage("success", SubscribedText);
      } else {
        msg := FormMessage("error", InvalidText);
      }
      var rest := RemoveFirstMessage(parentNodes);
      RemoveFirstMessageKeeps(parentNodes);
      MessageCountAppend(rest, [msg]);
      OthersAppend(rest, [msg]);
      assert MessageCount([msg]) == 1 && Others([msg]) == [];
      parentNodes := rest + [msg];
      if msg.kind == "success" {
        email := defaultEmail;
      }
    }
  }
}
