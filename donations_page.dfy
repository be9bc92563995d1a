/** The donations page script js/donations.js: the amount input's
    formatting, the donation tiers, the payment method switch, the donation
    form's validation and its result message. Its FAQ is
    `Widgets.ExclusiveAccordion` and its scroll animation `Widgets.Reveal`. */
module DonationsPage {
  import opened Text
  import opened Nullable
  import opened Forms
  import Widgets

  /** `parseInt(digits).toLocaleString('en-NG')` for a run of digits: "NaN"
      when there are none, otherwise the integer without leading zeros in
      comma groups of three. */
  function ParseAndFormat(digits: string): string
    requires AllDigits(digits)
  {
    if digits == [] then "NaN" else GroupThousands(Decimal(DecimalValue(digits)))
  }

  /** The amount input's `input` handler: only the digits 0-9 are kept and,
      if any remain, they are rewritten as a grouped integer; otherwise the
      input is emptied. */
  function FormatAmount(s: string): (r: string)
    ensures r == [] <==> DigitsOnly(s) == []
  {
    var digits := DigitsOnly(s);
    if |digits| > 0 then ParseAndFormat(digits) else ""
  }

  /** A formatted amount carries the same number as the input, written
      without leading zeros, in comma groups of three. */
  lemma FormatAmountMeaning(s: string)
    requires DigitsOnly(s) != []
    ensures DigitsOnly(FormatAmount(s)) == StripZeros(DigitsOnly(s))
    ensures DecimalValue(DigitsOnly(FormatAmount(s))) == DecimalValue(DigitsOnly(s))
    ensures GroupedShape(FormatAmount(s))
  {
    var d := DigitsOnly(s);
    var n := DecimalValue(d);
    var ds := Decimal(n);
    GroupingKeepsDigits(ds);
    ReprintDropsLeadingZeros(d);
    DecimalRoundTrip(n);
    GroupingShape(ds);
  }

  /** Typing into an already formatted amount and formatting it again
      changes nothing. */
  lemma FormatAmountIdempotent(s: string)
    ensures FormatAmount(FormatAmount(s)) == FormatAmount(s)
  {
    var d := DigitsOnly(s);
    if d == [] {
      assert DigitsOnly("") == [];
    } else {
      var n := DecimalValue(d);
      var ds := Decimal(n);
      GroupingKeepsDigits(ds);
      DecimalRoundTrip(n);
    }
  }

  /** The amount a tier click writes into the input: the digits of the
      tier's heading, parsed and formatted. */
  function TierAmount(heading: string): string
  {
    ParseAndFormat(DigitsOnly(heading))
  }

  /** A heading with digits gives exactly what typing it into the amount
      input would give, and the amount handler then leaves it as it is; a
      heading without digits gives "NaN". */
  lemma TierAmountMeaning(heading: string)
    ensures DigitsOnly(heading) != [] ==> TierAmount(heading) == FormatAmount(heading)
    ensures DigitsOnly(heading) != [] ==> FormatAmount(TierAmount(heading)) == TierAmount(heading)
    ensures DigitsOnly(heading) == [] ==> TierAmount(heading) == "NaN"
  {
    if DigitsOnly(heading) != [] {
      FormatAmountIdempotent(heading);
    }
  }

  /** The amount check: the digits of the value parse to a number above
      zero (no digits parse to NaN). */
  predicate AmountAccepted(v: string) {
    var d := DigitsOnly(v);
    d != [] && DecimalValue(d) > 0
  }

  /** An amount is accepted exactly when it contains a digit other than
      '0'; formatting never changes whether it is accepted. */
  lemma AmountAcceptedIff(v: string)
    ensures AmountAccepted(v) <==> HasNonZeroDigit(v)
    ensures AmountAccepted(FormatAmount(v)) <==> AmountAccepted(v)
  {
    var d := DigitsOnly(v);
    DigitsOnlyNonZero(v);
    ValueZeroIffNoNonZeroDigit(d);
    if d != [] {
      FormatAmountMeaning(v);
    } else {
      assert DigitsOnly("") == [];
    }
  }

  /** The "NaN" a tier heading without digits leaves is rejected at submit. */
  lemma NaNAmountRejected()
    ensures !IsBlank("NaN") && !AmountAccepted("NaN")
  {
    assert !IsSpace("NaN"[0]);
    assert DigitsOnly("NaN") == [] by {
      DigitsOnlyEmptyIff("NaN");
    }
  }

  /** The `#paystackFields` and `#bankTransferFields` sections (each may be
      missing from the page) and what was last written to their displays. */
  class PaymentOptions {
    const hasPaystack: bool
    const hasBank: bool
    var paystackDisplay: Widgets.Display
    var bankDisplay: Widgets.Display

    /** On load the change handler runs once for the checked option, if
        any. */
    constructor (hasPaystack: bool, hasBank: bool, checked: Option<string>)
      ensures this.hasPaystack == hasPaystack && this.hasBank == hasBank
      ensures checked == Some("paystack") && hasPaystack ==>
        paystackDisplay == Widgets.Block && bankDisplay == (if hasBank then Widgets.Hidden else Widgets.Unset)
      ensures checked == Some("bank") && hasBank ==>
        bankDisplay == Widgets.Block && paystackDisplay == (if hasPaystack then Widgets.Hidden else Widgets.Unset)
      ensures !(checked == Some("paystack") && hasPaystack) && !(checked == Some("bank") && hasBank) ==>
        paystackDisplay == Widgets.Unset && bankDisplay == Widgets.Unset
    {
      this.hasPaystack := hasPaystack;
      this.hasBank := hasBank;
      paystackDisplay := Widgets.Unset;
      bankDisplay := Widgets.Unset;
      new;
      if checked.Some? {
        OnChange(checked.value);
      }
    }

    /** A payment method radio changes: "paystack" shows the Paystack fields
        and hides the bank ones, "bank" the reverse, each only when the
        section it shows exists; anything else changes nothing. */
    method OnChange(value: string)
      modifies this
      ensures value == "paystack" && hasPaystack ==>
        paystackDisplay == Widgets.Block && bankDisplay == (if hasBank then Widgets.Hidden else old(bankDisplay))
      ensures !(value == "paystack" && hasPaystack) && value == "bank" && hasBank ==>
        bankDisplay == Widgets.Block && paystackDisplay == (if hasPaystack then Widgets.Hidden else old(paystackDisplay))
      ensures !(value == "paystack" && hasPaystack) && !(value == "bank" && hasBank) ==>
        paystackDisplay == old(paystackDisplay) && bankDisplay == old(bankDisplay)
    {
      if value == "paystack" && hasPaystack {
        paystackDisplay := Widgets.Block;
        if hasBank {
          bankDisplay := Widgets.Hidden;
        }
      } else if value == "bank" && hasBank {
        bankDisplay := Widgets.Block;
        if hasPaystack {
          paystackDisplay := Widgets.Hidden;
        }
      }
    }
  }

  const AmountId: string := "donationAmount"
  const ThanksText: string := "Thank you for your donation! We will process your contribution shortly."

  /** The amount check on the `#donationAmount` field fails: the field
      exists, is not blank, and has no digit other than '0', which is when
      its parsed digits are NaN or not positive (`AmountAcceptedIff`). */
  predicate AmountFails(fs: seq<Field>) {
    var a := FirstWithId(fs, AmountId);
    a < |fs| && !IsBlank(fs[a].value) && !HasNonZeroDigit(fs[a].value)
  }

  /** The notes `validateForm` leaves: the required-field notes, then the
      e-mail note, then the amount note. */
  function DonationNotes(fs: seq<Field>): seq<ErrorNote>
  {
    RequiredNotes(fs)
      + NoteIf(StrictEmailFails(fs, FirstEmailInput(fs)), FirstEmailInput(fs), InvalidEmail)
      + NoteIf(AmountFails(fs), FirstWithId(fs, AmountId), InvalidAmount)
  }

  /** The donation form passes when no required field is blank, the first
      e-mail input is blank or well formed, and the amount is blank or above
      zero. */
  predicate DonationValid(fs: seq<Field>) {
    && (forall k :: 0 <= k < |fs| ==> !MissingRequired(fs[k]))
    && !StrictEmailFails(fs, FirstEmailInput(fs))
    && !AmountFails(fs)
  }

  /** The fields `validateForm` marks: the blank required ones, the e-mail
      input when its check fails and the amount when its check fails. */
  predicate DonationFlagged(fs: seq<Field>, k: nat)
    requires k < |fs|
  {
    || MissingRequired(fs[k])
    || (StrictEmailFails(fs, FirstEmailInput(fs)) && k == FirstEmailInput(fs))
    || (AmountFails(fs) && k == FirstWithId(fs, AmountId))
  }

  /** The form passes exactly when validation leaves no note. */
  lemma DonationValidIffNoNotes(fs: seq<Field>)
    ensures DonationValid(fs) <==> DonationNotes(fs) == []
  {
    RequiredNotesMeaning(fs);
  }

  /** A blank field gets at most the "required" note, never a format note. */
  lemma BlankFieldOnlyRequired(fs: seq<Field>, k: nat)
    requires k < |fs| && IsBlank(fs[k].value)
    ensures forall i :: 0 <= i < |DonationNotes(fs)| && DonationNotes(fs)[i].field == k ==>
      DonationNotes(fs)[i].message == FieldRequired
    ensures Noted(DonationNotes(fs), k) <==> fs[k].required
  {
    var e, a := FirstEmailInput(fs), FirstWithId(fs, AmountId);
    Forms.BlankFieldOnlyRequired(fs,
      NoteIf(StrictEmailFails(fs, e), e, InvalidEmail) + NoteIf(AmountFails(fs), a, InvalidAmount), k);
    NotesAssoc(RequiredNotes(fs), NoteIf(StrictEmailFails(fs, e), e, InvalidEmail),
      NoteIf(AmountFails(fs), a, InvalidAmount));
  }

  /** When the amount field is not itself an e-mail input, validation
      leaves at most one note per field, and notes exactly the fields it
      marks; so typing into a marked field afterwards removes its only
      note. */
  lemma DonationNotesPerField(fs: seq<Field>)
    requires FirstWithId(fs, AmountId) < |fs| ==> !fs[FirstWithId(fs, AmountId)].emailInput
    ensures OneNotePerField(DonationNotes(fs))
    ensures forall k :: 0 <= k < |fs| ==> (Noted(DonationNotes(fs), k) <==> DonationFlagged(fs, k))
    ensures forall k: nat :: !Noted(DropFirstNote(DonationNotes(fs), k), k)
  {
    DonationNotesNoted(fs);
    DropOnlyNote(DonationNotes(fs));
  }

  lemma DonationNotesNoted(fs: seq<Field>)
    requires FirstWithId(fs, AmountId) < |fs| ==> !fs[FirstWithId(fs, AmountId)].emailInput
    ensures OneNotePerField(DonationNotes(fs))
    ensures forall k :: 0 <= k < |fs| ==> (Noted(DonationNotes(fs), k) <==> DonationFlagged(fs, k))
  {
    DonationTwoNotes(fs);
    forall k | 0 <= k < |fs| ensures Noted(DonationNotes(fs), k) <==> DonationFlagged(fs, k) {
    }
  }

  /** `TwoFormatNotes` applied to the donation form. */
  lemma DonationTwoNotes(fs: seq<Field>)
    requires FirstWithId(fs, AmountId) < |fs| ==> !fs[FirstWithId(fs, AmountId)].emailInput
    ensures OneNotePerField(DonationNotes(fs))
    ensures forall k :: 0 <= k < |fs| ==> (Noted(DonationNotes(fs), k) <==>
      MissingRequired(fs[k])
      || (StrictEmailFails(fs, FirstEmailInput(fs)) && k == FirstEmailInput(fs))
      || (AmountFails(fs) && k == FirstWithId(fs, AmountId)))
  {
    DonationChecksApart(fs);
    EmailCheckNonBlank(fs);
    AmountCheckNonBlank(fs);
    DonationNotesSplit(fs);
    TwoFormatNotes(DonationNotes(fs), fs,
      StrictEmailFails(fs, FirstEmailInput(fs)), FirstEmailInput(fs), InvalidEmail,
      AmountFails(fs), FirstWithId(fs, AmountId), InvalidAmount);
  }

  /** The donation form's two format checks meet what `TwoFormatNotes` asks
      of them: each runs on a field that is not blank, and they are on
      different fields (the amount field is not an e-mail input). */
  lemma DonationChecksApart(fs: seq<Field>)
    requires FirstWithId(fs, AmountId) < |fs| ==> !fs[FirstWithId(fs, AmountId)].emailInput
    ensures StrictEmailFails(fs, FirstEmailInput(fs)) && AmountFails(fs) ==>
      FirstEmailInput(fs) != FirstWithId(fs, AmountId)
  {
    var e := FirstEmailInput(fs);
    if StrictEmailFails(fs, e) {
      assert fs[e].emailInput;
    }
  }

  lemma EmailCheckNonBlank(fs: seq<Field>)
    ensures StrictEmailFails(fs, FirstEmailInput(fs)) ==>
      FirstEmailInput(fs) < |fs| && !IsBlank(fs[FirstEmailInput(fs)].value)
  {
  }

  lemma AmountCheckNonBlank(fs: seq<Field>)
    ensures AmountFails(fs) ==>
      FirstWithId(fs, AmountId) < |fs| && !IsBlank(fs[FirstWithId(fs, AmountId)].value)
  {
  }

  /** The donation notes are the required notes followed by the two format
      notes. */
  lemma DonationNotesSplit(fs: seq<Field>)
    ensures DonationNotes(fs) == RequiredNotes(fs)
      + (NoteIf(StrictEmailFails(fs, FirstEmailInput(fs)), FirstEmailInput(fs), InvalidEmail)
         + NoteIf(AmountFails(fs), FirstWithId(fs, AmountId), InvalidAmount))
  {
    var e, a := FirstEmailInput(fs), FirstWithId(fs, AmountId);
    NotesAssoc(RequiredNotes(fs), NoteIf(StrictEmailFails(fs, e), e, InvalidEmail),
      NoteIf(AmountFails(fs), a, InvalidAmount));
  }

  /** `validateForm`: earlier notes are removed, then each failed check adds
      its note and marks its field; the result is whether all passed. */
  method ValidateForm(form: FormState) returns (ok: bool)
    requires form.Valid()
    modifies form
    ensures form.Valid() && form.fields == old(form.fields)
    ensures form.notes == DonationNotes(form.fields)
    ensures ok <==> DonationValid(form.fields)
    ensures forall k :: 0 <= k < |form.fields| ==>
      form.flagged[k] == (old(form.flagged[k]) || DonationFlagged(form.fields, k))
  {
    form.ClearNotes();
    ghost var before := form.flagged;
    ok := form.CheckRequired();
    var fs := form.fields;
    ghost var required, afterRequired := form.notes, form.flagged;
    assert [] + RequiredNotes(fs) == RequiredNotes(fs);
    var e, a := FirstEmailInput(fs), FirstWithId(fs, AmountId);
    var emailPassed := form.CheckEmail(e);
    ghost var afterEmail := form.flagged;
    ok := ok && emailPassed;
    var amountPassed := CheckAmount(form);
    ok := ok && amountPassed;
    assert DonationNotes(fs) == required + NoteIf(!emailPassed, e, InvalidEmail)
      + NoteIf(!amountPassed, a, InvalidAmount);
    forall k | 0 <= k < |fs| ensures form.flagged[k] == (before[k] || DonationFlagged(fs, k)) {
      assert afterRequired[k] == (before[k] || MissingRequired(fs[k]));
      assert afterEmail[k] == (afterRequired[k] || (k == e && !emailPassed));
      assert form.flagged[k] == (afterEmail[k] || (k == a && !amountPassed));
    }
  }

  /** The amount check on `#donationAmount`: a failure adds the amount note
      and marks the field. */
  method CheckAmount(form: FormState) returns (passed: bool)
    requires form.Valid()
    modifies form
    ensures form.Valid() && form.fields == old(form.fields)
    ensures passed <==> !AmountFails(form.fields)
    ensures form.notes == old(form.notes) + NoteIf(!passed, FirstWithId(form.fields, AmountId), InvalidAmount)
    ensures form.flagged == if passed then old(form.flagged) else old(form.flagged)[FirstWithId(form.fields, AmountId) := true]
  {
    passed := true;
    var fs := form.fields;
    var a := FirstWithId(fs, AmountId);
    if a < |fs| && !IsBlank(fs[a].value) {
      AmountAcceptedIff(fs[a].value);
      if !AmountAccepted(fs[a].value) {
        form.ShowError(a, InvalidAmount);
        passed := false;
      }
    }
  }

  /** The donation form's submit handler (the submission itself is always
      cancelled): a valid form shows the thank-you message in
      `.form-actions`, when the page has one. */
  method Submit(form: FormState, actions: FormActions?) returns (ok: bool)
    requires form.Valid()
    modifies form, actions
    ensures form.Valid() && form.fields == old(form.fields)
    ensures form.notes == DonationNotes(form.fields)
    ensures ok <==> DonationValid(form.fields)
    ensures actions != null && ok ==>
      actions.children == [FormMessage("success", ThanksText)] + RemoveFirstMessage(old(actions.children))
    ensures actions != null && !ok ==> actions.children == old(actions.children)
  {
    ok := ValidateForm(form);
    if ok && actions != null {
      actions.ShowFormMessage("success", ThanksText);
    }
  }
}
