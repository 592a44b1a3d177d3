/**
 * The two document request dialogs of `DashboardForm.cs`.
 *
 * `DocumentRequestForm` lists the requests, filters them by a search text
 * and saves a status picked from a fixed list after a Yes/No confirmation.
 * `DocumentRequestEntryForm` files a new request or edits one: text boxes
 * with grey placeholders, a document type list, a copy count between 1 and
 * 20, a validation pass that stops at the first problem, and then
 * `DocumentRequestRepository.Insert` or `UpdateDetails`.
 *
 * A drop-down list is its selected index (-1 for none); the answer to the
 * confirmation box is the `confirmed` parameter; the day is a parameter.
 */
module DocumentRequestForms {
  import opened Wrappers
  import opened Text
  import opened Calendar
  import opened Seqs
  import Repo = DocumentRequestRepository

  // ---------- DocumentRequestForm: the listing ----------

  /** The status list of the listing dialog. */
  const StatusOptions: seq<string> := ["Pending", "Approved", "Rejected", "For Pickup", "Completed"]
  const SearchPlaceholder := "Search"

  /** `s.Contains(q)` (ordinal), computed. */
  predicate ContainsText(s: string, q: string)
    ensures ContainsText(s, q) <==> Contains(s, q)
  {
    IndexOf(s, q) >= 0
  }

  /** The `Where` lambda: the lower-cased query occurs in the lower-cased requester name or request id. */
  predicate RequestMatches(d: Repo.RequestRecord, q: string) {
    ContainsText(ToLower(OrEmpty(d.requesterName)), q) || ContainsText(ToLower(OrEmpty(d.requestId)), q)
  }

  /** Whether `ApplyFilter` filters at all: not for a blank query or the placeholder text. */
  predicate Filters(query: string) {
    !IsBlank(query) && query != SearchPlaceholder
  }

  /**
   * `ApplyFilter(query)`: all requests for a blank query or `Search`;
   * otherwise those whose requester name or request id contains the trimmed,
   * lower-cased query, in list order.
   */
  function ApplyFilter(all: seq<Repo.RequestRecord>, query: string): (r: seq<Repo.RequestRecord>)
    ensures IsSubsequence(r, all)
    ensures !Filters(query) ==> r == all
    ensures Filters(query) ==> forall i :: 0 <= i < |all| ==>
      (all[i] in r <==> RequestMatches(all[i], ToLower(Trim(query))))
    ensures Filters(query) ==> forall i :: 0 <= i < |r| ==> RequestMatches(r[i], ToLower(Trim(query)))
  {
    if !Filters(query) then
      SubsequenceRefl(all);
      all
    else
      var q := ToLower(Trim(query));
      var p := (d: Repo.RequestRecord) => RequestMatches(d, q);
      var r := Filter(all, p);
      forall i | 0 <= i < |all| ensures all[i] in r <==> RequestMatches(all[i], q) {
        FilterMember(all, p, all[i]);
      }
      r
  }

  /** Two queries with the same trimmed, lower-cased text filter alike. */
  lemma FilterIgnoresCaseAndPadding(all: seq<Repo.RequestRecord>, a: string, b: string)
    requires Filters(a) && Filters(b) && ToLower(Trim(a)) == ToLower(Trim(b))
    ensures ApplyFilter(all, a) == ApplyFilter(all, b)
  {
  }

  /** Filtering the filtered list again with the same query changes nothing. */
  lemma ApplyFilterIdempotent(all: seq<Repo.RequestRecord>, query: string)
    requires Filters(query)
    ensures ApplyFilter(ApplyFilter(all, query), query) == ApplyFilter(all, query)
  {
    var q := ToLower(Trim(query));
    FilterAll(ApplyFilter(all, query), (d: Repo.RequestRecord) => RequestMatches(d, q));
  }

  /** Searching for a request id, in any case and with spaces around it, keeps that request. */
  lemma RequestIdFindsRequest(all: seq<Repo.RequestRecord>, i: nat, query: string)
    requires i < |all| && all[i].requestId.Some? && Filters(query)
    requires ToLower(Trim(query)) == ToLower(all[i].requestId.value)
    ensures all[i] in ApplyFilter(all, query)
  {
    var l := ToLower(all[i].requestId.value);
    assert OccursAt(l, l, 0) by { assert l[0..|l|] == l; }
  }

  /** `Array.IndexOf(StatusOptions, status)` as `UpdateSelection` uses it: -1 when not listed. */
  function StatusIndex(status: Option<string>): (k: int)
    ensures -1 <= k < |StatusOptions|
    ensures k >= 0 ==> status == Some(StatusOptions[k])
    ensures k == -1 ==> status.None? || status.value !in StatusOptions
  {
    if status.None? then -1
    else if status.value == StatusOptions[0] then 0
    else if status.value == StatusOptions[1] then 1
    else if status.value == StatusOptions[2] then 2
    else if status.value == StatusOptions[3] then 3
    else if status.value == StatusOptions[4] then 4
    else -1
  }

  /** No listed status is blank. */
  lemma StatusOptionsNotBlank(k: nat)
    requires k < |StatusOptions|
    ensures !IsBlank(StatusOptions[k])
  {
    assert StatusOptions[k][0] != ' ';
  }

  /** The listing's part in `SaveChanges`: the table, the selected request, and whether the status panel shows. */
  datatype SaveResult = SaveResult(table: seq<Repo.RequestRow>, selected: Option<Repo.RequestRecord>, panelVisible: bool)

  /** `SaveChanges` writes exactly when a request is selected, a status is picked that differs from its own, and Yes is answered. */
  predicate SaveWrites(selected: Option<Repo.RequestRecord>, statusIndex: int, confirmed: bool)
    requires -1 <= statusIndex < |StatusOptions|
  {
    selected.Some? && statusIndex >= 0 && Some(StatusOptions[statusIndex]) != selected.value.status && confirmed
  }

  /**
   * `SaveChanges`: without a selection, or with no status picked, or with the
   * request's own status, the panel is toggled and nothing is written; after a
   * Yes the status is written, the selected request takes it and the panel is
   * toggled; after a No nothing changes.
   */
  function SaveChanges(t: seq<Repo.RequestRow>, selected: Option<Repo.RequestRecord>, statusIndex: int, confirmed: bool, panelVisible: bool): (r: SaveResult)
    requires -1 <= statusIndex < |StatusOptions|
    ensures !SaveWrites(selected, statusIndex, confirmed) ==> r.table == t && r.selected == selected
    ensures SaveWrites(selected, statusIndex, confirmed) ==>
      && r.table == Repo.UpdateStatus(t, selected.value.requestId, Some(StatusOptions[statusIndex]))
      && r.selected == Some(selected.value.(status := Some(StatusOptions[statusIndex])))
    ensures r.panelVisible == panelVisible <==>
      selected.Some? && statusIndex >= 0 && Some(StatusOptions[statusIndex]) != selected.value.status && !confirmed
  {
    var newStatus := if statusIndex >= 0 then Some(StatusOptions[statusIndex]) else None;
    assert statusIndex >= 0 ==> !IsBlank(StatusOptions[statusIndex]) by {
      if statusIndex >= 0 { StatusOptionsNotBlank(statusIndex); }
    }
    if selected.None? then SaveResult(t, selected, !panelVisible)
    else if IsNullOrWhiteSpace(newStatus) || newStatus == selected.value.status then SaveResult(t, selected, !panelVisible)
    else if confirmed then
      SaveResult(Repo.UpdateStatus(t, selected.value.requestId, newStatus), Some(selected.value.(status := newStatus)), !panelVisible)
    else SaveResult(t, selected, panelVisible)
  }

  /** Saving with the drop-down as `UpdateSelection` left it writes nothing. */
  lemma UntouchedStatusWritesNothing(t: seq<Repo.RequestRow>, selected: Repo.RequestRecord, confirmed: bool, panelVisible: bool)
    ensures SaveChanges(t, Some(selected), StatusIndex(selected.status), confirmed, panelVisible).table == t
  {
  }

  /** Saving the status just saved writes nothing more. */
  lemma SaveTwiceWritesOnce(t: seq<Repo.RequestRow>, selected: Repo.RequestRecord, statusIndex: int, panelVisible: bool)
    requires 0 <= statusIndex < |StatusOptions|
    ensures var first := SaveChanges(t, Some(selected), statusIndex, true, panelVisible);
      SaveChanges(first.table, first.selected, statusIndex, true, first.panelVisible).table == first.table
  {
  }

  /** After a confirmed save, the request reads back from the table with the new status. */
  lemma SaveThenGet(t: seq<Repo.RequestRow>, k: nat, selected: Repo.RequestRecord, statusIndex: int, panelVisible: bool, today: DateTime)
    requires Repo.Valid(t) && k < |t| && selected.requestId == Some(t[k].requestId)
    requires 0 <= statusIndex < |StatusOptions| && Some(StatusOptions[statusIndex]) != selected.status
    ensures var r := SaveChanges(t, Some(selected), statusIndex, true, panelVisible);
      var got := Repo.GetByRequestId(r.table, selected.requestId, today);
      got.Some? && got.value.status == Some(StatusOptions[statusIndex])
  {
    Repo.UpdateStatusThenGet(t, k, Some(StatusOptions[statusIndex]), today);
  }

  // ---------- DocumentRequestEntryForm: filing and editing ----------

  const DocumentTypes: seq<string> := [
    "Barangay Clearance", "Barangay Certificate", "Business Permit", "Residency Certificate", "Permit to Construct"]
  const ApplicantPlaceholder := "Enter full name"
  const ContactPlaceholder := "+63 XXX XXX XXXX"
  const PurposePlaceholder := "Purpose of the document"
  const RequirementsPlaceholder := "Any special requirements or notes..."
  const MinCopies := 1
  const MaxCopies := 20
  /**
   * `DateTimePicker.MinimumDateTime` and `MaximumDateTime`, the range of a
   * picker built without `MinDate` or `MaxDate`; its `Value` setter throws
   * outside them.
   */
  const PickerMin: DateTime := Stamp(1753, 1, 1, 0, 0, 0)
  const PickerMax: DateTime := Stamp(9998, 12, 31, 0, 0, 0)

  predicate PickerAccepts(t: DateTime) {
    NotAfter(PickerMin, t) && NotAfter(t, PickerMax)
  }

  /** The least number of digits a contact number needs. */
  const ContactDigits := 9

  const SelectDocumentType := "Please select a document type."
  const ApplicantRequired := "Applicant name is required."
  const InvalidContact := "Provide a valid contact number."
  const PurposeRequired := "Please describe the purpose of the document."

  /** A text box: its text, whether it is grey, and the placeholder kept in its `Tag` (null when it has none). */
  datatype InputBox = InputBox(text: string, grey: bool, placeholder: Option<string>)

  /** `ApplyPlaceholder`: the grey placeholder text. */
  function WithPlaceholder(placeholder: string): (b: InputBox)
    ensures b.text == placeholder && b.grey && b.placeholder == Some(placeholder)
  {
    InputBox(placeholder, true, Some(placeholder))
  }

  /** The placeholder's `GotFocus`: the placeholder text is cleared and turns dark. */
  function GotFocus(b: InputBox): (r: InputBox)
    ensures b.placeholder.Some? && b.text == b.placeholder.value ==> r == b.(text := [], grey := false)
    ensures b.placeholder.None? || b.text != b.placeholder.value ==> r == b
  {
    if b.placeholder.Some? && b.text == b.placeholder.value then b.(text := [], grey := false) else b
  }

  /** The placeholder's `LostFocus`: blank text becomes the grey placeholder. */
  function LostFocus(b: InputBox): (r: InputBox)
    ensures b.placeholder.Some? && IsBlank(b.text) ==> r == b.(text := b.placeholder.value, grey := true)
    ensures b.placeholder.None? || !IsBlank(b.text) ==> r == b
  {
    if b.placeholder.Some? && IsBlank(b.text) then b.(text := b.placeholder.value, grey := true) else b
  }

  /** `ReadInput`: the trimmed text, except that the grey placeholder reads as empty. */
  function ReadInput(b: InputBox): (r: string)
    ensures IsTrimmed(r)
    ensures IsBlank(r) ==> r == []
    ensures b.grey && b.placeholder.Some? && b.placeholder.value != [] && Trim(b.text) == b.placeholder.value ==> r == []
    ensures !(b.grey && b.placeholder.Some? && b.placeholder.value != [] && Trim(b.text) == b.placeholder.value) ==> r == Trim(b.text)
  {
    var value := Trim(b.text);
    TrimKeepsBlankness(b.text);
    if b.placeholder.Some? && b.placeholder.value != [] && value == b.placeholder.value && b.grey then []
    else
      value
  }

  /** A box left blank reads as empty once it loses the focus: the grey placeholder is not input. */
  lemma LeftBlankReadsEmpty(b: InputBox)
    requires b.placeholder.Some? && IsTrimmed(b.placeholder.value) && !IsBlank(b.placeholder.value)
    requires IsBlank(b.text)
    ensures ReadInput(LostFocus(b)) == []
  {
    TrimOfTrimmed(b.placeholder.value);
  }

  /** Dark text equal to the placeholder (a prefilled value) is read as input. */
  lemma DarkPlaceholderTextIsInput(placeholder: string)
    requires IsTrimmed(placeholder)
    ensures ReadInput(InputBox(placeholder, false, Some(placeholder))) == placeholder
  {
    TrimOfTrimmed(placeholder);
  }

  /** The entry dialog's controls; the copy count is the `NumericUpDown`'s value. */
  datatype EntryForm = EntryForm(
    typeIndex: int, applicant: InputBox, contact: InputBox, purpose: InputBox,
    pickup: DateTime, copies: int, additional: InputBox)

  /** The drop-down index is -1 or an item, and the count lies within the control's bounds. */
  predicate InRange(f: EntryForm) {
    -1 <= f.typeIndex < |DocumentTypes| && MinCopies <= f.copies <= MaxCopies
  }

  /** The dialog as the constructor leaves it: nothing chosen, placeholders showing, one copy. */
  function NewForm(now: DateTime): (f: EntryForm)
    ensures InRange(f) && f.typeIndex == -1 && f.copies == 1
  {
    EntryForm(
      -1, WithPlaceholder(ApplicantPlaceholder), WithPlaceholder(ContactPlaceholder), WithPlaceholder(PurposePlaceholder),
      now, 1, WithPlaceholder(RequirementsPlaceholder))
  }

  /** What `ValidateForm` ends in: accepted, or the first problem's message. */
  datatype Validation = Accepted | Incomplete(message: string)

  /** A contact number passes with some text and at least nine digits. */
  predicate ContactOk(contact: string) {
    !IsBlank(contact) && CountDigits(contact) >= ContactDigits
  }

  /** `ValidateForm`: type, applicant, contact number, purpose, in that order. */
  function ValidateForm(f: EntryForm): (r: Validation)
    ensures r == Accepted <==>
      f.typeIndex >= 0 && !IsBlank(ReadInput(f.applicant)) && ContactOk(ReadInput(f.contact)) && !IsBlank(ReadInput(f.purpose))
    ensures f.typeIndex < 0 ==> r == Incomplete(SelectDocumentType)
    ensures f.typeIndex >= 0 && IsBlank(ReadInput(f.applicant)) ==> r == Incomplete(ApplicantRequired)
    ensures f.typeIndex >= 0 && !IsBlank(ReadInput(f.applicant)) && !ContactOk(ReadInput(f.contact)) ==> r == Incomplete(InvalidContact)
    ensures f.typeIndex >= 0 && !IsBlank(ReadInput(f.applicant)) && ContactOk(ReadInput(f.contact)) && IsBlank(ReadInput(f.purpose))
      ==> r == Incomplete(PurposeRequired)
  {
    if f.typeIndex < 0 then Incomplete(SelectDocumentType)
    else if IsBlank(ReadInput(f.applicant)) then Incomplete(ApplicantRequired)
    else if !ContactOk(ReadInput(f.contact)) then Incomplete(InvalidContact)
    else if IsBlank(ReadInput(f.purpose)) then Incomplete(PurposeRequired)
    else Accepted
  }

  /** Choosing a type in an untouched dialog still fails: the applicant placeholder is not a name. */
  lemma UntouchedFormNeedsApplicant(now: DateTime, typeIndex: nat)
    requires typeIndex < |DocumentTypes|
    ensures ValidateForm(NewForm(now).(typeIndex := typeIndex)) == Incomplete(ApplicantRequired)
  {
    var b := WithPlaceholder(ApplicantPlaceholder);
    assert IsTrimmed(ApplicantPlaceholder) by {
      assert ApplicantPlaceholder[0] == 'E' && ApplicantPlaceholder[|ApplicantPlaceholder| - 1] == 'e';
    }
    TrimOfTrimmed(ApplicantPlaceholder);
    assert ReadInput(b) == [];
  }

  /** The record a new request is filed with: today, status `Pending`, the inputs as read, the pickup day. */
  function NewRecord(f: EntryForm, today: DateTime): (rec: Repo.RequestRecord)
    requires InRange(f) && f.typeIndex >= 0
    ensures rec.docType == Some(DocumentTypes[f.typeIndex])
    ensures rec.requesterName == Some(ReadInput(f.applicant)) && rec.contactNumber == Some(ReadInput(f.contact))
    ensures rec.purpose == Some(ReadInput(f.purpose)) && rec.additionalRequirements == Some(ReadInput(f.additional))
    ensures rec.dateFiled == today && rec.status == Some(Repo.DefaultStatus)
    ensures rec.pickupDate == Some(DatePart(f.pickup)) && rec.copies == f.copies
  {
    Repo.RequestRecord(
      0, None, Some(DocumentTypes[f.typeIndex]), Some(ReadInput(f.applicant)), today, Some(Repo.DefaultStatus),
      Some(ReadInput(f.contact)), Some(ReadInput(f.purpose)), Some(DatePart(f.pickup)), f.copies,
      Some(ReadInput(f.additional)))
  }

  /** The record being edited, with the dialog's inputs; its id, request id, filing date and status are kept. */
  function EditedRecord(editing: Repo.RequestRecord, f: EntryForm): (rec: Repo.RequestRecord)
    requires InRange(f) && f.typeIndex >= 0
    ensures rec.id == editing.id && rec.requestId == editing.requestId
    ensures rec.dateFiled == editing.dateFiled && rec.status == editing.status
    ensures rec.docType == Some(DocumentTypes[f.typeIndex])
    ensures rec.requesterName == Some(ReadInput(f.applicant)) && rec.contactNumber == Some(ReadInput(f.contact))
    ensures rec.purpose == Some(ReadInput(f.purpose)) && rec.additionalRequirements == Some(ReadInput(f.additional))
    ensures rec.pickupDate == Some(DatePart(f.pickup)) && rec.copies == f.copies
  {
    editing.(
      docType := Some(DocumentTypes[f.typeIndex]), requesterName := Some(ReadInput(f.applicant)),
      contactNumber := Some(ReadInput(f.contact)), purpose := Some(ReadInput(f.purpose)),
      pickupDate := Some(DatePart(f.pickup)), copies := f.copies,
      additionalRequirements := Some(ReadInput(f.additional)))
  }

  /** What a click on Submit ends in: the validation box, or the dialog closing with the table and `SavedRequestId`. */
  datatype SubmitOutcome = Rejected(message: string) | Submitted(table: seq<Repo.RequestRow>, savedRequestId: Option<string>)

  /**
   * `Submit_Click`: nothing is written unless the form validates; a new
   * request is inserted and its new id remembered; an edit rewrites the
   * request's details and remembers its own id.
   */
  function Submit(t: seq<Repo.RequestRow>, f: EntryForm, editing: Option<Repo.RequestRecord>, today: DateTime, rowId: nat): (r: SubmitOutcome)
    requires InRange(f)
    ensures r.Rejected? <==> ValidateForm(f).Incomplete?
    ensures r.Rejected? ==> r.message == ValidateForm(f).message
    ensures r.Submitted? && editing.None? ==>
      var ins := Repo.Insert(t, NewRecord(f, today), rowId, today);
      r.table == ins.table && r.savedRequestId == Some(ins.requestId)
    ensures r.Submitted? && editing.Some? ==>
      r.table == Repo.UpdateDetails(t, Some(EditedRecord(editing.value, f))) && r.savedRequestId == editing.value.requestId
  {
    match ValidateForm(f)
    case Incomplete(message) => Rejected(message)
    case Accepted =>
      match editing
      case None =>
        var ins := Repo.Insert(t, NewRecord(f, today), rowId, today);
        Submitted(ins.table, Some(ins.requestId))
      case Some(e) => Submitted(Repo.UpdateDetails(t, Some(EditedRecord(e, f))), e.requestId)
  }

  /**
   * Filing, then looking the saved id up: the request is there, `Pending`,
   * filed today, with the inputs as read and the chosen number of copies.
   */
  lemma SubmitNewThenGet(t: seq<Repo.RequestRow>, f: EntryForm, today: DateTime, rowId: nat, readToday: DateTime)
    requires InRange(f) && Repo.Valid(t) && Repo.FreshId(t, rowId)
    requires ValidateForm(f) == Accepted
    ensures var r := Submit(t, f, None, today, rowId);
      var got := Repo.GetByRequestId(r.table, r.savedRequestId, readToday);
      && got.Some?
      && got.value.status == Some(Repo.DefaultStatus) && got.value.dateFiled == today
      && got.value.docType == Some(DocumentTypes[f.typeIndex])
      && got.value.requesterName == Some(ReadInput(f.applicant))
      && got.value.contactNumber == Some(ReadInput(f.contact))
      && got.value.copies == f.copies
  {
    var rec := NewRecord(f, today);
    var ins := Repo.Insert(t, rec, rowId, today);
    assert Submit(t, f, None, today, rowId) == Submitted(ins.table, Some(ins.requestId));
    Repo.InsertThenGet(t, rec, rowId, today, readToday);
    Repo.DefaultStatusNotBlank();
    var back := Repo.InsertedReadback(rec, rowId, ins.requestId, today);
    assert back.status == Some(Repo.DefaultStatus) && back.dateFiled == today;
  }

  /** `_cmbDocumentType.SelectedItem = type`: the item's index, or -1 when the type is not listed. */
  function TypeIndex(docType: Option<string>): (k: int)
    ensures -1 <= k < |DocumentTypes|
    ensures k >= 0 ==> docType == Some(DocumentTypes[k])
    ensures k == -1 <==> docType.None? || docType.value !in DocumentTypes
  {
    if docType.None? then -1
    else if docType.value == DocumentTypes[0] then 0
    else if docType.value == DocumentTypes[1] then 1
    else if docType.value == DocumentTypes[2] then 2
    else if docType.value == DocumentTypes[3] then 3
    else if docType.value == DocumentTypes[4] then 4
    else -1
  }

  /** A prefilled box: the value (null as empty) in dark text, the placeholder kept. */
  function Prefilled(value: Option<string>, placeholder: string): (b: InputBox)
    ensures b.text == OrEmpty(value) && !b.grey && b.placeholder == Some(placeholder)
  {
    InputBox(OrEmpty(value), false, Some(placeholder))
  }

  /**
   * The editing constructor: the record's values in dark text, the pickup
   * date or today, and at least one copy. A pickup date outside the
   * picker's range, or a stored count above 20, makes its control throw, so
   * no dialog opens (`None`).
   */
  function Prefill(editing: Repo.RequestRecord, today: DateTime): (r: Option<EntryForm>)
    ensures r.Some? <==> PickerAccepts(editing.pickupDate.GetOr(today)) && editing.copies <= MaxCopies
    ensures r.Some? ==> InRange(r.value)
    ensures r.Some? ==> r.value.copies == (if editing.copies < MinCopies then MinCopies else editing.copies)
    ensures r.Some? ==> r.value.typeIndex == TypeIndex(editing.docType)
    ensures r.Some? ==> r.value.pickup == editing.pickupDate.GetOr(today)
    ensures r.Some? ==> ReadInput(r.value.applicant) == Trim(OrEmpty(editing.requesterName))
  {
    if !PickerAccepts(editing.pickupDate.GetOr(today)) || editing.copies > MaxCopies then None
    else
      var f := EntryForm(
        TypeIndex(editing.docType), Prefilled(editing.requesterName, ApplicantPlaceholder),
        Prefilled(editing.contactNumber, ContactPlaceholder), Prefilled(editing.purpose, PurposePlaceholder),
        editing.pickupDate.GetOr(today), if editing.copies < MinCopies then MinCopies else editing.copies,
        Prefilled(editing.additionalRequirements, RequirementsPlaceholder));
      Some(f)
  }

  /** A stored value that is present and trimmed reads back unchanged from its prefilled box. */
  lemma PrefilledReadsBack(value: string, placeholder: string)
    requires IsTrimmed(value)
    ensures ReadInput(Prefilled(Some(value), placeholder)) == value
  {
    TrimOfTrimmed(value);
  }

  /**
   * Opening a request for editing and saving it untouched stores the same
   * record, when its type is listed, its text is trimmed, its pickup date is
   * a day and its count is between 1 and 20.
   */
  lemma EditUntouchedKeepsRecord(t: seq<Repo.RequestRow>, editing: Repo.RequestRecord, today: DateTime, rowId: nat)
    requires editing.docType.Some? && editing.docType.value in DocumentTypes
    requires editing.requesterName.Some? && IsTrimmed(editing.requesterName.value)
    requires editing.contactNumber.Some? && IsTrimmed(editing.contactNumber.value)
    requires editing.purpose.Some? && IsTrimmed(editing.purpose.value)
    requires editing.additionalRequirements.Some? && IsTrimmed(editing.additionalRequirements.value)
    requires editing.pickupDate.Some? && DatePart(editing.pickupDate.value) == editing.pickupDate.value
    requires PickerAccepts(editing.pickupDate.value)
    requires MinCopies <= editing.copies <= MaxCopies
    ensures var f := Prefill(editing, today).value;
      ValidateForm(f) == Accepted ==>
        Submit(t, f, Some(editing), today, rowId) == Submitted(Repo.UpdateDetails(t, Some(editing)), editing.requestId)
  {
    var f := Prefill(editing, today).value;
    PrefilledReadsBack(editing.requesterName.value, ApplicantPlaceholder);
    PrefilledReadsBack(editing.contactNumber.value, ContactPlaceholder);
    PrefilledReadsBack(editing.purpose.value, PurposePlaceholder);
    PrefilledReadsBack(editing.additionalRequirements.value, RequirementsPlaceholder);
    if ValidateForm(f) == Accepted {
      assert EditedRecord(editing, f) == editing;
    }
  }

  /** A request whose stored pickup day is before 1753 opens no edit dialog, whatever its count. */
  lemma PrefillRefusesEarlyPickup(editing: Repo.RequestRecord, today: DateTime)
    requires editing.pickupDate == Some(Stamp(1700, 1, 1, 0, 0, 0))
    ensures Prefill(editing, today).None?
  {
  }
}
