/** Form validation state shared by the donations, membership and contact
    pages: the form's fields, the `.error-message` nodes `showError`
    appends, whether each field is marked (a red border on the donations and
    contact pages, the `error` class on the membership page), the loop over
    `[required]` fields, and the `.form-actions` message that the donations
    and contact pages' `showFormMessage` keep in front of the submit button. */
module Forms {
  import opened Text
  import Email

  /** One form control: its id, current value, `required` attribute, and
      whether it is an `input[type="email"]`. */
  datatype Field = Field(id: string, value: string, required: bool, emailInput: bool)

  /** The messages an `.error-message` node carries on these pages. */
  datatype Message = FieldRequired | InvalidEmail | InvalidAmount | InvalidPhone
  {
    /** The text the node shows. */
    function Text(): string {
      match this
      case FieldRequired => RequiredText
      case InvalidEmail => EmailText
      case InvalidAmount => "Please enter a valid donation amount"
      case InvalidPhone => "Please enter a valid phone number"
    }
  }

  /** An `.error-message` node: the field it was appended for and its
      message. */
  datatype ErrorNote = ErrorNote(field: nat, message: Message)

  const RequiredText: string := "This field is required"
  const EmailText: string := "Please enter a valid email address"

  predicate MissingRequired(f: Field) {
    f.required && IsBlank(f.value)
  }

  predicate Noted(notes: seq<ErrorNote>, k: int) {
    exists i :: 0 <= i < |notes| && notes[i].field == k
  }

  /** Notes appear in the order of their fields, at most one per field. */
  predicate InFieldOrder(notes: seq<ErrorNote>) {
    forall a, b :: 0 <= a < b < |notes| ==> notes[a].field < notes[b].field
  }

  /** Every note is for a field below n. */
  predicate NotesWithin(notes: seq<ErrorNote>, n: int) {
    forall i :: 0 <= i < |notes| ==> notes[i].field < n
  }

  /** Which fields are required and blank after trimming. */
  function MissingMask(fs: seq<Field>): (m: seq<bool>)
    ensures |m| == |fs|
    ensures forall k :: 0 <= k < |fs| ==> m[k] == MissingRequired(fs[k])
  {
    seq(|fs|, k requires 0 <= k < |fs| => MissingRequired(fs[k]))
  }

  /** One note with the given text for each of the first n fields the mask
      selects, in field order. */
  function NotesWhere(mask: seq<bool>, n: nat, text: Message): seq<ErrorNote>
    requires n <= |mask|
  {
    if n == 0 then []
    else NotesWhere(mask, n - 1, text) + if mask[n - 1] then [ErrorNote(n - 1, text)] else []
  }

  /** The notes the loop over `[required]` fields leaves. */
  function RequiredNotes(fs: seq<Field>): seq<ErrorNote>
  {
    NotesWhere(MissingMask(fs), |fs|, FieldRequired)
  }

  lemma {:induction false} NotesWhereSound(mask: seq<bool>, n: nat, text: Message)
    requires n <= |mask|
    ensures NotesWithin(NotesWhere(mask, n, text), n)
    ensures InFieldOrder(NotesWhere(mask, n, text))
    ensures forall i :: 0 <= i < |NotesWhere(mask, n, text)| ==>
      NotesWhere(mask, n, text)[i].message == text && mask[NotesWhere(mask, n, text)[i].field]
  {
    if n > 0 {
      NotesWhereSound(mask, n - 1, text);
      var prev := NotesWhere(mask, n - 1, text);
      var r := NotesWhere(mask, n, text);
      var extra := if mask[n - 1] then [ErrorNote(n - 1, text)] else [];
      assert r == prev + extra;
      forall a, b | 0 <= a < b < |r| ensures r[a].field < r[b].field {
        assert r[a] == prev[a];
        if b == |prev| {
          assert r[b] == extra[0];
        } else {
          assert r[b] == prev[b];
        }
      }
    }
  }

  lemma {:induction false} NotesWhereComplete(mask: seq<bool>, n: nat, text: Message)
    requires n <= |mask|
    ensures forall k :: 0 <= k < n ==> (Noted(NotesWhere(mask, n, text), k) <==> mask[k])
  {
    if n > 0 {
      NotesWhereComplete(mask, n - 1, text);
      NotesWhereSound(mask, n - 1, text);
      var prev := NotesWhere(mask, n - 1, text);
      var extra := if mask[n - 1] then [ErrorNote(n - 1, text)] else [];
      assert NotesWhere(mask, n, text) == prev + extra;
      forall k | 0 <= k < n ensures Noted(prev + extra, k) <==> mask[k] {
        NotedAfterStep(prev, extra, k, n - 1);
      }
    }
  }

  lemma NotesWhereEmpty(mask: seq<bool>, n: nat, text: Message)
    requires n <= |mask|
    ensures NotesWhere(mask, n, text) == [] <==> forall k :: 0 <= k < n ==> !mask[k]
  {
    NotesWhereSound(mask, n, text);
    NotesWhereComplete(mask, n, text);
    var r := NotesWhere(mask, n, text);
    if r != [] {
      assert Noted(r, r[0].field);
    }
    if k :| 0 <= k < n && mask[k] {
      assert Noted(r, k);
    }
  }

  /** The loop over `[required]` fields leaves exactly one
      "This field is required" note per required field that is blank after
      trimming, in field order, and nothing else; it leaves none exactly when
      no required field is blank. */
  lemma RequiredNotesMeaning(fs: seq<Field>)
    ensures var r := RequiredNotes(fs);
      && InFieldOrder(r)
      && (forall i :: 0 <= i < |r| ==> r[i].field < |fs| && r[i].message == FieldRequired && MissingRequired(fs[r[i].field]))
      && (forall k :: 0 <= k < |fs| ==> (Noted(r, k) <==> MissingRequired(fs[k])))
      && (r == [] <==> forall k :: 0 <= k < |fs| ==> !MissingRequired(fs[k]))
  {
    var m := MissingMask(fs);
    NotesWhereSound(m, |fs|, FieldRequired);
    NotesWhereComplete(m, |fs|, FieldRequired);
    NotesWhereEmpty(m, |fs|, FieldRequired);
  }

  /** When the format checks never note a given blank field, it ends up
      with the "required" note if it is required and with no note
      otherwise, never with a format note. */
  lemma BlankFieldOnlyRequired(fs: seq<Field>, extra: seq<ErrorNote>, k: nat)
    requires k < |fs| && IsBlank(fs[k].value)
    requires forall i :: 0 <= i < |extra| ==> extra[i].field != k
    ensures var notes := RequiredNotes(fs) + extra;
      && (forall i :: 0 <= i < |notes| && notes[i].field == k ==> notes[i].message == FieldRequired)
      && (Noted(notes, k) <==> fs[k].required)
  {
    RequiredNotesMeaning(fs);
    var r := RequiredNotes(fs);
    var notes := r + extra;
    forall i | 0 <= i < |notes| && notes[i].field == k ensures notes[i].message == FieldRequired {
      assert i < |r| && notes[i] == r[i];
    }
    if Noted(notes, k) {
      var i :| 0 <= i < |notes| && notes[i].field == k;
      assert i < |r| && notes[i] == r[i];
    }
    if fs[k].required {
      var i :| 0 <= i < |r| && r[i].field == k;
      assert notes[i] == r[i];
    }
  }

  /** A field is noted in two runs of notes when it is noted in either. */
  lemma NotedAppend(a: seq<ErrorNote>, b: seq<ErrorNote>, k: int)
    ensures Noted(a + b, k) <==> Noted(a, k) || Noted(b, k)
  {
    var r := a + b;
    if Noted(r, k) {
      var i :| 0 <= i < |r| && r[i].field == k;
      if i < |a| {
        assert a[i] == r[i];
      } else {
        assert b[i - |a|] == r[i];
      }
    }
    if Noted(a, k) {
      var i :| 0 <= i < |a| && a[i].field == k;
      assert r[i] == a[i];
    }
    if Noted(b, k) {
      var i :| 0 <= i < |b| && b[i].field == k;
      assert r[|a| + i] == b[i];
    }
  }

  /** Format notes, one per field and each on a field that is not blank,
      never share a field with a "required" note. */
  lemma FormatNotesOnePerField(fs: seq<Field>, extra: seq<ErrorNote>)
    requires OneNotePerField(extra)
    requires forall i :: 0 <= i < |extra| ==> extra[i].field < |fs| && !IsBlank(fs[extra[i].field].value)
    ensures OneNotePerField(RequiredNotes(fs) + extra)
  {
    RequiredNotesMeaning(fs);
    var r := RequiredNotes(fs);
    var notes := r + extra;
    forall a, b | 0 <= a < b < |notes| ensures notes[a].field != notes[b].field {
      if b < |r| {
        assert notes[a] == r[a] && notes[b] == r[b];
      } else if a >= |r| {
        assert notes[a] == extra[a - |r|] && notes[b] == extra[b - |r|];
      } else {
        assert notes[a] == r[a] && notes[b] == extra[b - |r|];
      }
    }
  }

  /** Regrouping a concatenation of notes. */
  lemma NotesAssoc(a: seq<ErrorNote>, b: seq<ErrorNote>, c: seq<ErrorNote>)
    ensures a + b + c == a + (b + c)
    ensures a + [] == a
  {
  }

  /** Validation with up to two format checks (their failures `ef` and `af`
      on fields e and a, which differ when both fail, and which run only on
      fields that are not blank): at most one note per field, a note exactly
      on the fields that failed. */
  lemma TwoFormatNotes(notes: seq<ErrorNote>, fs: seq<Field>, ef: bool, e: nat, et: Message, af: bool, a: nat, at: Message)
    requires ef ==> e < |fs| && !IsBlank(fs[e].value)
    requires af ==> a < |fs| && !IsBlank(fs[a].value)
    requires ef && af ==> e != a
    requires notes == RequiredNotes(fs) + (NoteIf(ef, e, et) + NoteIf(af, a, at))
    ensures OneNotePerField(notes)
    ensures forall k :: 0 <= k < |fs| ==> (Noted(notes, k) <==> MissingRequired(fs[k]) || (ef && k == e) || (af && k == a))
  {
    var emailNote, amountNote := NoteIf(ef, e, et), NoteIf(af, a, at);
    var extra := emailNote + amountNote;
    RequiredNotesMeaning(fs);
    FormatNotesOnePerField(fs, extra);
    forall k | 0 <= k < |fs| ensures Noted(notes, k) <==> MissingRequired(fs[k]) || (ef && k == e) || (af && k == a) {
      NotedAppend(RequiredNotes(fs), extra, k);
      NotedAppend(emailNote, amountNote, k);
      if ef {
        assert emailNote[0].field == e;
      }
      if af {
        assert amountNote[0].field == a;
      }
    }
  }

  /** Appending notes for field f only (all earlier notes being for fields
      below f) changes whether a field k is noted only for k == f. */
  lemma NotedAfterStep(prev: seq<ErrorNote>, extra: seq<ErrorNote>, k: int, f: int)
    requires NotesWithin(prev, f)
    requires forall i :: 0 <= i < |extra| ==> extra[i].field == f
    ensures k < f ==> (Noted(prev + extra, k) <==> Noted(prev, k))
    ensures k == f ==> (Noted(prev + extra, k) <==> extra != [])
  {
    var r := prev + extra;
    if Noted(r, k) && k < f {
      var i :| 0 <= i < |r| && r[i].field == k;
      assert i < |prev| && prev[i] == r[i];
    }
    if Noted(prev, k) {
      var i :| 0 <= i < |prev| && prev[i].field == k;
      assert r[i] == prev[i];
    }
    if k == f && extra != [] {
      assert r[|prev|] == extra[0];
    }
  }

  /** `querySelector('input[type="email"]')` within the form: the first
      email input, or |fs| when there is none. */
  function FirstEmailInput(fs: seq<Field>): (r: nat)
    ensures r <= |fs|
    ensures r < |fs| ==> fs[r].emailInput
  {
    if fs == [] then 0
    else if fs[0].emailInput then 0
    else 1 + FirstEmailInput(fs[1..])
  }

  /** `FirstEmailInput` finds the first e-mail input: no field before it is
      one. */
  lemma {:induction false} FirstEmailInputFirst(fs: seq<Field>)
    ensures var r := FirstEmailInput(fs);
      (r < |fs| ==> fs[r].emailInput) && forall k :: 0 <= k < r ==> !fs[k].emailInput
  {
    if fs != [] && !fs[0].emailInput {
      FirstEmailInputFirst(fs[1..]);
      assert forall k :: 1 <= k < |fs| ==> fs[k] == fs[1..][k - 1];
    }
  }

  /** `querySelector('#' + id)` or `getElementById(id)`: the first field
      with that id, or |fs| when there is none. */
  function FirstWithId(fs: seq<Field>, id: string): (r: nat)
    ensures r <= |fs|
    ensures r < |fs| ==> fs[r].id == id
  {
    if fs == [] then 0
    else if fs[0].id == id then 0
    else 1 + FirstWithId(fs[1..], id)
  }

  /** `FirstWithId` finds the first field with the id: no field before it
      has it. */
  lemma {:induction false} FirstWithIdFirst(fs: seq<Field>, id: string)
    ensures var r := FirstWithId(fs, id);
      (r < |fs| ==> fs[r].id == id) && forall k :: 0 <= k < r ==> fs[k].id != id
  {
    if fs != [] && fs[0].id != id {
      FirstWithIdFirst(fs[1..], id);
      assert forall k :: 1 <= k < |fs| ==> fs[k] == fs[1..][k - 1];
    }
  }

  /** The strict e-mail check on the field at index k (|fs| when the form
      has no such field): it runs only on a field that exists and is not
      blank, and fails when the raw value does not match. */
  predicate StrictEmailFails(fs: seq<Field>, k: nat) {
    k < |fs| && !IsBlank(fs[k].value) && !Email.MatchesStrict(fs[k].value)
  }

  /** No field has more than one note. */
  predicate OneNotePerField(notes: seq<ErrorNote>) {
    forall a, b :: 0 <= a < b < |notes| ==> notes[a].field != notes[b].field
  }

  /** Putting the head of s back in front of its tail with the element at
      i taken out is s with the element at i + 1 taken out; with nothing
      taken out it is s. */
  lemma ConsSkip<T>(s: seq<T>, rest: seq<T>, i: nat)
    requires s != [] && i <= |s| - 1
    requires i == |s| - 1 ==> rest == s[1..]
    requires i < |s| - 1 ==> rest == s[1..][..i] + s[1..][i + 1..]
    ensures i == |s| - 1 ==> [s[0]] + rest == s
    ensures i < |s| - 1 ==> [s[0]] + rest == s[..i + 1] + s[i + 2..]
  {
    if i < |s| - 1 {
      assert s[..i + 1] == [s[0]] + s[1..][..i];
      assert s[i + 2..] == s[1..][i + 1..];
    } else {
      assert s == [s[0]] + s[1..];
    }
  }

  /** Where the first note for field k is, or the length when there is
      none. */
  function FirstNoteFor(notes: seq<ErrorNote>, k: int): (i: nat)
    ensures i <= |notes|
    ensures i < |notes| ==> notes[i].field == k
    ensures forall j :: 0 <= j < i ==> notes[j].field != k
  {
    if notes == [] || notes[0].field == k then 0
    else
      var i := FirstNoteFor(notes[1..], k);
      assert forall j :: 0 < j < |notes| ==> notes[j] == notes[1..][j - 1];
      1 + i
  }

  /** The first note for field k taken out, the others kept in order: with
      no note for k nothing changes, and otherwise the notes before the
      first one for k are followed by those after it. Whether any other
      field is noted does not change. */
  function DropFirstNote(notes: seq<ErrorNote>, k: nat): (r: seq<ErrorNote>)
    ensures !Noted(notes, k) ==> r == notes
    ensures Noted(notes, k) ==> var i := FirstNoteFor(notes, k);
      i < |notes| && r == notes[..i] + notes[i + 1..]
    ensures forall j :: j != k ==> (Noted(r, j) <==> Noted(notes, j))
  {
    if notes == [] then []
    else
      NotedTail(notes);
      if notes[0].field == k then
        assert notes[..0] + notes[1..] == notes[1..];
        notes[1..]
      else
        var rest := DropFirstNote(notes[1..], k);
        NotedCons(notes[0], rest);
        DropFirstNoteCons(notes, k, rest);
        [notes[0]] + rest
  }

  /** The step of `DropFirstNote` past a head note for another field. */
  lemma DropFirstNoteCons(notes: seq<ErrorNote>, k: nat, rest: seq<ErrorNote>)
    requires notes != [] && notes[0].field != k
    requires Noted(notes[1..], k) ==> var i := FirstNoteFor(notes[1..], k);
      i < |notes| - 1 && rest == notes[1..][..i] + notes[1..][i + 1..]
    ensures Noted(notes[1..], k) ==> var i := FirstNoteFor(notes, k);
      i < |notes| && [notes[0]] + rest == notes[..i] + notes[i + 1..]
  {
    if Noted(notes[1..], k) {
      var i := FirstNoteFor(notes[1..], k);
      assert FirstNoteFor(notes, k) == i + 1;
      assert notes[..i + 1] == [notes[0]] + notes[1..][..i];
      assert notes[i + 2..] == notes[1..][i + 1..];
    }
  }

  /** A field is noted in a non-empty list exactly when the head or the
      tail notes it. */
  lemma NotedTail(notes: seq<ErrorNote>)
    requires notes != []
    ensures forall j :: Noted(notes, j) <==> notes[0].field == j || Noted(notes[1..], j)
  {
    forall j ensures Noted(notes, j) ==> notes[0].field == j || Noted(notes[1..], j) {
      if Noted(notes, j) && notes[0].field != j {
        var i :| 0 <= i < |notes| && notes[i].field == j;
        assert notes[1..][i - 1] == notes[i];
      }
    }
    forall j | Noted(notes[1..], j) ensures Noted(notes, j) {
      var i :| 0 <= i < |notes[1..]| && notes[1..][i].field == j;
      assert notes[i + 1] == notes[1..][i];
    }
  }

  /** A field is noted after a note is put in front exactly when that note
      or the list notes it. */
  lemma NotedCons(x: ErrorNote, rest: seq<ErrorNote>)
    ensures forall j :: Noted([x] + rest, j) <==> x.field == j || Noted(rest, j)
  {
    var r := [x] + rest;
    assert r[0] == x;
    forall j ensures Noted(r, j) ==> x.field == j || Noted(rest, j) {
      if Noted(r, j) && x.field != j {
        var i :| 0 <= i < |r| && r[i].field == j;
        assert rest[i - 1] == r[i];
      }
    }
    forall j | Noted(rest, j) ensures Noted(r, j) {
      var i :| 0 <= i < |rest| && rest[i].field == j;
      assert r[i + 1] == rest[i];
    }
  }

  /** With at most one note per field, taking out the first note for k
      leaves none for k. */
  lemma DropOnlyNote(notes: seq<ErrorNote>)
    requires OneNotePerField(notes)
    ensures forall k: nat :: !Noted(DropFirstNote(notes, k), k)
  {
    forall k: nat ensures !Noted(DropFirstNote(notes, k), k) {
      DropOnlyNoteAt(notes, k);
    }
  }

  lemma DropOnlyNoteAt(notes: seq<ErrorNote>, k: nat)
    requires OneNotePerField(notes)
    ensures !Noted(DropFirstNote(notes, k), k)
  {
    if Noted(notes, k) {
      var i :| 0 <= i < |notes| && notes[i].field == k;
      var r := DropFirstNote(notes, k);
      DropFirstNoteSkips(notes, k, i);
      forall j | 0 <= j < |r| ensures r[j].field != k {
        assert r[j] in r;
      }
    }
  }

  /** The first note for k is the one at i when i holds the only note for k. */
  lemma {:induction false} DropFirstNoteSkips(notes: seq<ErrorNote>, k: nat, i: nat)
    requires OneNotePerField(notes) && i < |notes| && notes[i].field == k
    ensures forall x :: x in DropFirstNote(notes, k) ==> x.field != k
  {
    if notes[0].field != k {
      assert notes[1..][i - 1] == notes[i];
      DropFirstNoteSkips(notes[1..], k, i - 1);
    } else {
      assert i == 0;
      forall x | x in notes[1..] ensures x.field != k {
        var j :| 0 <= j < |notes[1..]| && notes[1..][j] == x;
        assert notes[j + 1] == x;
      }
    }
  }

  /** The note a failed format check adds. */
  function NoteIf(fails: bool, k: nat, text: Message): seq<ErrorNote> {
    if fails then [ErrorNote(k, text)] else []
  }

  /** A form's fields with the validation marks the page scripts leave. */
  class FormState {
    var fields: seq<Field>
    var notes: seq<ErrorNote>
    var flagged: seq<bool>

    ghost predicate Valid()
      reads this
    {
      |flagged| == |fields|
    }

    constructor (fields: seq<Field>)
      ensures Valid() && this.fields == fields && notes == []
      ensures forall k :: 0 <= k < |fields| ==> !flagged[k]
    {
      this.fields := fields;
      notes := [];
      flagged := seq(|fields|, _ => false);
    }

    /** `form.querySelectorAll('.error-message').forEach(m => m.remove())`. */
    method ClearNotes()
      requires Valid()
      modifies this
      ensures Valid() && notes == []
      ensures fields == old(fields) && flagged == old(flagged)
    {
      notes := [];
    }

    /** Every control of the form loses its mark. */
    method ClearMarks()
      requires Valid()
      modifies this
      ensures Valid() && fields == old(fields) && notes == old(notes)
      ensures forall k :: 0 <= k < |flagged| ==> !flagged[k]
    {
      var k := 0;
      while k < |flagged|
        invariant 0 <= k <= |flagged| == |fields|
        invariant fields == old(fields) && notes == old(notes)
        invariant forall j :: 0 <= j < k ==> !flagged[j]
      {
        flagged := flagged[k := false];
        k := k + 1;
      }
    }

    /** `showError(field, message)`: a note for the field is appended and the
        field is marked. */
    method ShowError(k: nat, text: Message)
      requires Valid() && k < |fields|
      modifies this
      ensures Valid() && fields == old(fields)
      ensures notes == old(notes) + [ErrorNote(k, text)]
      ensures flagged == old(flagged)[k := true]
    {
      notes := notes + [ErrorNote(k, text)];
      flagged := flagged[k := true];
    }

    /** Typing into field k after `showError` marked it: its listener clears
        the mark and removes the first note for the field. A field that is
        not marked has no listener, or one with nothing left to remove. */
    method Input(k: nat)
      requires Valid() && k < |fields|
      modifies this
      ensures Valid() && fields == old(fields)
      ensures old(flagged[k]) ==> flagged == old(flagged)[k := false] && notes == DropFirstNote(old(notes), k)
      ensures !old(flagged[k]) ==> flagged == old(flagged) && notes == old(notes)
    {
      if flagged[k] {
        flagged := flagged[k := false];
        notes := DropFirstNote(notes, k);
      }
    }

    /** The strict e-mail check on field k (|fields| when the form has no
        such field): a failure adds the e-mail note and marks the field. */
    method CheckEmail(k: nat) returns (passed: bool)
      requires Valid()
      modifies this
      ensures Valid() && fields == old(fields)
      ensures passed <==> !StrictEmailFails(fields, k)
      ensures notes == old(notes) + NoteIf(!passed, k, InvalidEmail)
      ensures flagged == if passed then old(flagged) else old(flagged)[k := true]
    {
      passed := true;
      if k < |fields| && !IsBlank(fields[k].value) {
        if !Email.MatchesStrict(fields[k].value) {
          ShowError(k, InvalidEmail);
          passed := false;
        }
      }
    }

    /** The loop over `[required]` fields: each blank one gets a "required"
        note and is marked; `ok` is whether none was blank. */
    method CheckRequired() returns (ok: bool)
      requires Valid()
      modifies this
      ensures Valid() && fields == old(fields)
      ensures notes == old(notes) + RequiredNotes(fields)
      ensures ok <==> forall k :: 0 <= k < |fields| ==> !MissingRequired(fields[k])
      ensures forall k :: 0 <= k < |fields| ==> flagged[k] == (old(flagged[k]) || MissingRequired(fields[k]))
    {
      ok := true;
      var fs := fields;
      var mask := MissingMask(fs);
      var k := 0;
      while k < |fs|
        invariant 0 <= k <= |fs|
        invariant fields == fs && |flagged| == |fs|
        invariant notes == old(notes) + NotesWhere(mask, k, FieldRequired)
        invariant ok <==> forall j :: 0 <= j < k ==> !MissingRequired(fs[j])
        invariant forall j :: 0 <= j < |fs| ==>
          flagged[j] == (old(flagged[j]) || (j < k && MissingRequired(fs[j])))
      {
        if MissingRequired(fs[k]) {
          notes := notes + [ErrorNote(k, FieldRequired)];
          flagged := flagged[k := true];
          ok := false;
        }
        k := k + 1;
      }
    }
  }

  /** A node next to a form's controls: a `.form-message` a script
      inserted, the `.form-submit` row, or any other node. */
  datatype ActionNode = FormMessage(kind: string, text: string) | FormSubmit | OtherNode

  function MessageCount(nodes: seq<ActionNode>): nat
  {
    if nodes == [] then 0
    else (if nodes[0].FormMessage? then 1 else 0) + MessageCount(nodes[1..])
  }

  /** The nodes that are not form messages, in order. */
  function Others(nodes: seq<ActionNode>): seq<ActionNode>
  {
    if nodes == [] then []
    else (if nodes[0].FormMessage? then [] else [nodes[0]]) + Others(nodes[1..])
  }

  /** Dropping every message leaves none. */
  lemma {:induction false} OthersHasNoMessages(nodes: seq<ActionNode>)
    ensures MessageCount(Others(nodes)) == 0
    ensures forall k :: 0 <= k < |Others(nodes)| ==> !Others(nodes)[k].FormMessage?
  {
    if nodes != [] {
      OthersHasNoMessages(nodes[1..]);
      var head := if nodes[0].FormMessage? then [] else [nodes[0]];
      assert Others(nodes) == head + Others(nodes[1..]);
      MessageCountAppend(head, Others(nodes[1..]));
    }
  }

  lemma {:induction false} MessageCountAppend(a: seq<ActionNode>, b: seq<ActionNode>)
    ensures MessageCount(a + b) == MessageCount(a) + MessageCount(b)
  {
    if a != [] {
      MessageCountAppend(a[1..], b);
      assert (a + b)[1..] == a[1..] + b;
    } else {
      assert a + b == b;
    }
  }

  lemma {:induction false} OthersAppend(a: seq<ActionNode>, b: seq<ActionNode>)
    ensures Others(a + b) == Others(a) + Others(b)
  {
    if a != [] {
      OthersAppend(a[1..], b);
      assert (a + b)[1..] == a[1..] + b;
    } else {
      assert a + b == b;
    }
  }

  /** A run of nodes without messages is its own message-free part. */
  lemma {:induction false} OthersOfMessageFree(nodes: seq<ActionNode>)
    requires forall k :: 0 <= k < |nodes| ==> !nodes[k].FormMessage?
    ensures Others(nodes) == nodes
  {
    if nodes != [] {
      OthersOfMessageFree(nodes[1..]);
      assert nodes == [nodes[0]] + nodes[1..];
    }
  }

  /** Where the first message is, or the length when there is none. */
  function FirstMessageAt(nodes: seq<ActionNode>): (i: nat)
    ensures i <= |nodes|
    ensures i < |nodes| ==> nodes[i].FormMessage?
  {
    if nodes == [] || nodes[0].FormMessage? then 0 else 1 + FirstMessageAt(nodes[1..])
  }

  /** `FirstMessageAt` finds the first message: no node before it is one. */
  lemma {:induction false} FirstMessageAtFirst(nodes: seq<ActionNode>)
    ensures forall j :: 0 <= j < FirstMessageAt(nodes) ==> !nodes[j].FormMessage?
  {
    if nodes != [] && !nodes[0].FormMessage? {
      FirstMessageAtFirst(nodes[1..]);
      assert forall j :: 0 < j < |nodes| ==> nodes[j] == nodes[1..][j - 1];
    }
  }

  /** `querySelector('.form-message')` and `remove()`: the first message, if
      any, is taken out, and the nodes before it are followed by those after
      it; with no message nothing changes. */
  function RemoveFirstMessage(nodes: seq<ActionNode>): (r: seq<ActionNode>)
    ensures FirstMessageAt(nodes) == |nodes| ==> r == nodes
    ensures FirstMessageAt(nodes) < |nodes| ==>
      r == nodes[..FirstMessageAt(nodes)] + nodes[FirstMessageAt(nodes) + 1..]
  {
    if nodes == [] then []
    else if nodes[0].FormMessage? then
      assert nodes[..0] + nodes[1..] == nodes[1..];
      nodes[1..]
    else
      var rest := RemoveFirstMessage(nodes[1..]);
      ConsSkip(nodes, rest, FirstMessageAt(nodes[1..]));
      [nodes[0]] + rest
  }

  /** Removing the first message leaves one message fewer, when there was
      one, and every other node in order. */
  lemma {:induction false} RemoveFirstMessageKeeps(nodes: seq<ActionNode>)
    ensures var r := RemoveFirstMessage(nodes);
      && MessageCount(r) == (if MessageCount(nodes) == 0 then 0 else MessageCount(nodes) - 1)
      && Others(r) == Others(nodes)
  {
    if nodes != [] && !nodes[0].FormMessage? {
      RemoveFirstMessageKeeps(nodes[1..]);
      var rest := RemoveFirstMessage(nodes[1..]);
      assert ([nodes[0]] + rest)[1..] == rest;
    }
  }


  /** The `.form-actions` element of the donations and contact forms. */
  class FormActions {
    var children: seq<ActionNode>

    constructor (children: seq<ActionNode>)
      ensures this.children == children
    {
      this.children := children;
    }

    /** `showFormMessage(type, message)`: the first existing message is
        removed and the new one becomes the first child. Starting from at
        most one message, exactly one remains, the new one, at the front. */
    method ShowFormMessage(kind: string, text: string)
      modifies this
      ensures children == [FormMessage(kind, text)] + RemoveFirstMessage(old(children))
      ensures MessageCount(old(children)) <= 1 ==> MessageCount(children) == 1
      ensures Others(children) == Others(old(children))
    {
      var rest := RemoveFirstMessage(children);
      RemoveFirstMessageKeeps(children);
      children := [FormMessage(kind, text)] + rest;
      assert children[1..] == rest;
    }
  }
}
