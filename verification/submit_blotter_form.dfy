/**
 * The blotter filing screen (`SubmitBlotterForm`): `HandleSubmit` collects
 * a message for every missing required field, in the order the fields
 * appear, and shows them one per line; with none missing it builds the
 * record (text trimmed, status `Pending`, the incident's day) and hands it
 * to `BlotterRepository.Insert`, then clears the form.
 *
 * A drop-down list is its selected index, -1 when nothing is selected. An
 * exception from the store is the `failure` parameter.
 */
module SubmitBlotterForm {
  import opened Wrappers
  import opened Text
  import opened Calendar
  import opened Seqs
  import BlotterRepository

  const ReportTypes: seq<string> := [
    "Theft", "Physical Injury", "Domestic Dispute", "Noise Complaint",
    "Vandalism", "Threat / Harassment", "Property Damage", "Other"]
  const Priorities: seq<string> := ["Low", "Medium", "High", "Urgent"]
  /** `CebuCityBarangays()`. */
  const Barangays: seq<string> := [
    "Lahug", "Mabolo", "Guadalupe", "Talamban", "Banilad", "Apas", "Busay", "Kamputhaw",
    "Capitol Site", "Tisa", "Labangon", "Sawang Calero", "Pahina Central", "Sambag I",
    "Sambag II", "Tinago", "Carreta", "Hipodromo", "Pari-an", "San Nicolas Proper",
    "Inayawan", "Pardo", "Bulacao", "Basak San Nicolas", "Basak Pardo", "Mambaling",
    "Kinasang-an", "Punta Princesa", "Calamba", "Cogon Ramos", "Buhisan", "To-ong",
    "Pamutan", "Sinsin"]

  const SelectReportType := "Select a Report Type."
  const SelectPriority := "Select a Priority Level."
  const EnterComplainant := "Enter Complainant Name."
  const EnterRespondent := "Enter Respondent Name."
  const SelectBarangay := "Select a Barangay."
  const EnterLocation := "Enter Incident Location."
  const EnterDescription := "Enter Description."
  const FailurePrefix := "Failed to submit report.\n"

  /** Every validation message, in the order `HandleSubmit` lists them. */
  const AllErrors: seq<string> := [
    SelectReportType, SelectPriority, EnterComplainant, EnterRespondent,
    SelectBarangay, EnterLocation, EnterDescription]

  /** The form's controls. */
  datatype BlotterInput = BlotterInput(
    reportType: int, priority: int, complainant: string, respondent: string, incident: DateTime,
    barangay: int, location: string, description: string, witnesses: string)

  /** Each drop-down index is -1 or one of its items. */
  predicate InRange(f: BlotterInput) {
    && -1 <= f.reportType < |ReportTypes|
    && -1 <= f.priority < |Priorities|
    && -1 <= f.barangay < |Barangays|
  }

  /** Whether the field a validation message is about is missing. */
  predicate Missing(f: BlotterInput, message: string) {
    if message == SelectReportType then f.reportType == -1
    else if message == SelectPriority then f.priority == -1
    else if message == EnterComplainant then IsBlank(f.complainant)
    else if message == EnterRespondent then IsBlank(f.respondent)
    else if message == SelectBarangay then f.barangay == -1
    else if message == EnterLocation then IsBlank(f.location)
    else if message == EnterDescription then IsBlank(f.description)
    else false
  }

  /** The `errors` array: one message per missing field, in field order. */
  function Errors(f: BlotterInput): (r: seq<string>)
    ensures IsSubsequence(r, AllErrors)
    ensures SelectReportType in r <==> f.reportType == -1
    ensures SelectPriority in r <==> f.priority == -1
    ensures EnterComplainant in r <==> IsBlank(f.complainant)
    ensures EnterRespondent in r <==> IsBlank(f.respondent)
    ensures SelectBarangay in r <==> f.barangay == -1
    ensures EnterLocation in r <==> IsBlank(f.location)
    ensures EnterDescription in r <==> IsBlank(f.description)
  {
    var p := (message: string) => Missing(f, message);
    var r := Filter(AllErrors, p);
    MissingMeans(f);
    FilterMember(AllErrors, p, SelectReportType);
    FilterMember(AllErrors, p, SelectPriority);
    FilterMember(AllErrors, p, EnterComplainant);
    FilterMember(AllErrors, p, EnterRespondent);
    FilterMember(AllErrors, p, SelectBarangay);
    FilterMember(AllErrors, p, EnterLocation);
    FilterMember(AllErrors, p, EnterDescription);
    r
  }

  /** What `Missing` says about each message. */
  lemma MissingMeans(f: BlotterInput)
    ensures Missing(f, SelectReportType) == (f.reportType == -1)
    ensures Missing(f, SelectPriority) == (f.priority == -1)
    ensures Missing(f, EnterComplainant) == IsBlank(f.complainant)
    ensures Missing(f, EnterRespondent) == IsBlank(f.respondent)
    ensures Missing(f, SelectBarangay) == (f.barangay == -1)
    ensures Missing(f, EnterLocation) == IsBlank(f.location)
    ensures Missing(f, EnterDescription) == IsBlank(f.description)
  {
    MessagesDiffer();
  }

  /** The seven messages are told apart by their first letter and the letter that names the field. */
  lemma MessagesDiffer()
    ensures SelectReportType[0] == SelectPriority[0] == SelectBarangay[0] == 'S'
    ensures EnterComplainant[0] == EnterRespondent[0] == EnterLocation[0] == EnterDescription[0] == 'E'
    ensures SelectReportType[9] == 'R' && SelectPriority[9] == 'P' && SelectBarangay[9] == 'B'
    ensures EnterComplainant[6] == 'C' && EnterRespondent[6] == 'R' && EnterLocation[6] == 'I' && EnterDescription[6] == 'D'
  {
  }

  /** Nothing to report exactly when every required field is filled. */
  predicate Complete(f: BlotterInput) {
    && f.reportType != -1 && f.priority != -1 && !IsBlank(f.complainant) && !IsBlank(f.respondent)
    && f.barangay != -1 && !IsBlank(f.location) && !IsBlank(f.description)
  }

  lemma ErrorsEmptyIffComplete(f: BlotterInput)
    ensures Errors(f) == [] <==> Complete(f)
  {
    var r := Errors(f);
    if r != [] {
      assert r[0] in AllErrors && Missing(f, r[0]);
    }
  }

  /** The record `HandleSubmit` files: trimmed text, the incident's day, status `Pending`, reported today. */
  function BuildRecord(f: BlotterInput, today: DateTime): (rec: BlotterRepository.BlotterRecord)
    requires InRange(f) && Complete(f)
    ensures rec.reportType == Some(ReportTypes[f.reportType]) && rec.priorityLevel == Some(Priorities[f.priority])
    ensures rec.barangay == Some(Barangays[f.barangay])
    ensures rec.complainant == Some(Trim(f.complainant)) && rec.respondent == Some(Trim(f.respondent))
    ensures rec.incidentLocation == Some(Trim(f.location)) && rec.description == Some(Trim(f.description))
    ensures rec.witnesses == Some(Trim(f.witnesses))
    ensures rec.incidentDate == DatePart(f.incident) && rec.dateReported == today
    ensures rec.status == Some(BlotterRepository.DefaultStatus)
  {
    BlotterRepository.BlotterRecord(
      0, None, Some(ReportTypes[f.reportType]), Some(Priorities[f.priority]), Some(Barangays[f.barangay]),
      Some(Trim(f.complainant)), Some(Trim(f.respondent)), DatePart(f.incident), Some(Trim(f.location)),
      Some(Trim(f.description)), Some(Trim(f.witnesses)), Some(BlotterRepository.DefaultStatus), today)
  }

  /** What the form shows after `HandleSubmit`: the validation box, success (and a cleared form), or the error box. */
  datatype SubmitOutcome =
    | Invalid(message: string)
    | Submitted(inserted: BlotterRepository.Inserted, form: BlotterInput)
    | Failed(message: string)

  /** The cleared form: nothing selected, no text, the incident date back to today. */
  function Cleared(today: DateTime): (f: BlotterInput)
    ensures InRange(f)
  {
    BlotterInput(-1, -1, "", "", today, -1, "", "", "")
  }

  /** `HandleSubmit`. */
  function HandleSubmit(
    t: seq<BlotterRepository.BlotterRow>, f: BlotterInput, today: DateTime,
    rowId: nat, dateReportedDefault: string, failure: Option<string>): (r: SubmitOutcome)
    requires InRange(f)
    ensures r.Invalid? <==> !Complete(f)
    ensures r.Invalid? ==> r.message == Join("\n", Errors(f))
    ensures r.Submitted? <==> Complete(f) && failure.None?
    ensures r.Submitted? ==>
      && r.inserted == BlotterRepository.Insert(t, BuildRecord(f, today), rowId, dateReportedDefault)
      && r.form == Cleared(today)
    ensures r.Failed? ==> Complete(f) && r.message == FailurePrefix + failure.value
  {
    var errors := Errors(f);
    ErrorsEmptyIffComplete(f);
    if |errors| > 0 then Invalid(Join("\n", errors))
    else
      var rec := BuildRecord(f, today);
      match failure
      case Some(message) => Failed(FailurePrefix + message)
      case None => Submitted(BlotterRepository.Insert(t, rec, rowId, dateReportedDefault), Cleared(today))
  }

  /** Submitting the cleared form straight away is refused with every message, in order. */
  lemma ClearedFormListsEverything(today: DateTime)
    ensures Errors(Cleared(today)) == AllErrors
  {
    var f := Cleared(today);
    var p := (message: string) => Missing(f, message);
    forall i | 0 <= i < |AllErrors| ensures p(AllErrors[i]) {
      assert AllErrors[i] in {SelectReportType, SelectPriority, EnterComplainant, EnterRespondent, SelectBarangay, EnterLocation, EnterDescription};
    }
    FilterAll(AllErrors, p);
  }

  /**
   * Filing, then listing: the new report heads the listing with the trimmed
   * names, the chosen type, priority and barangay, the incident's day and
   * status `Pending`.
   */
  lemma SubmitThenList(
    t: seq<BlotterRepository.BlotterRow>, f: BlotterInput, today: DateTime,
    rowId: nat, dateReportedDefault: string, later: DateTime)
    requires InRange(f) && Complete(f)
    requires BlotterRepository.Valid(t) && BlotterRepository.FreshId(t, rowId)
    ensures var ins := HandleSubmit(t, f, today, rowId, dateReportedDefault, None).inserted;
      var head := BlotterRepository.GetAll(ins.table, later)[0];
      && head.caseNo == Some(ins.caseNo)
      && head.reportType == Some(ReportTypes[f.reportType])
      && head.priorityLevel == Some(Priorities[f.priority])
      && head.barangay == Some(Barangays[f.barangay])
      && head.complainant == Some(Trim(f.complainant))
      && head.incidentDate == DatePart(f.incident)
      && head.status == Some(BlotterRepository.DefaultStatus)
  {
    var rec := BuildRecord(f, today);
    var ins := BlotterRepository.Insert(t, rec, rowId, dateReportedDefault);
    assert HandleSubmit(t, f, today, rowId, dateReportedDefault, None).inserted == ins;
    BlotterRepository.InsertThenGetAll(t, rec, rowId, dateReportedDefault, later);
    var head := BlotterRepository.GetAll(ins.table, later)[0];
    assert head == BlotterRepository.InsertedReadback(rec, rowId, ins.caseNo, ParseOr(dateReportedDefault, later));
    BlotterRepository.DefaultStatusNotBlank();
    assert head.incidentDate == DatePart(DatePart(f.incident));
  }
}
