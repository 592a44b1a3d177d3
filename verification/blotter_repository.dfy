/**
 * `BlotterRepository` over the `BlotterReports` table: listing, insertion
 * with a generated `BL-nnnn` case number, and deletion by case number.
 *
 * `Insert` leaves `DateReported` out of its column list, so the table's own
 * default fills it; that default's text is a parameter, as are the id SQLite
 * assigns and the current day.
 */
module BlotterRepository {
  import opened Wrappers
  import opened Text
  import opened Calendar
  import opened Seqs
  import opened Codes

  const CasePrefix := "BL-"
  const DefaultReportType := "Other"
  const DefaultPriority := "Low"
  const DefaultStatus := "Pending"

  /** A row of `BlotterReports`; the two dates are the text SQLite holds. */
  datatype BlotterRow = BlotterRow(
    id: nat, caseNo: string, reportType: string, priorityLevel: string, barangay: string,
    complainant: string, respondent: string, incidentDate: string, incidentLocation: string,
    description: string, witnesses: string, status: string, dateReported: string)

  /** `BlotterRecord`: every string property may be null. */
  datatype BlotterRecord = BlotterRecord(
    id: nat, caseNo: Option<string>, reportType: Option<string>, priorityLevel: Option<string>,
    barangay: Option<string>, complainant: Option<string>, respondent: Option<string>,
    incidentDate: DateTime, incidentLocation: Option<string>, description: Option<string>,
    witnesses: Option<string>, status: Option<string>, dateReported: DateTime)

  /** `$"BL-{n:D4}"`. */
  function FormatCaseNo(n: nat): (r: string)
    ensures |r| >= 7 && r[..3] == CasePrefix
    ensures n < 10000 ==> |r| == 7
  {
    FormatCode(CasePrefix, n)
  }

  /** The number inside a case number written by `FormatCaseNo`, if it is one. */
  function CaseNumber(caseNo: string): (r: Option<nat>)
    ensures r.Some? ==> |caseNo| > 3 && caseNo[..3] == CasePrefix
  {
    CodeNumber(CasePrefix, caseNo)
  }

  /**
   * What `Insert` guarantees about the table it grows: ids increase in
   * insertion order, every case number is no larger than its row's id and
   * exceeds the id of every earlier row.
   */
  ghost predicate Valid(t: seq<BlotterRow>) {
    && (forall i, j :: 0 <= i < j < |t| ==> t[i].id < t[j].id)
    && (forall i :: 0 <= i < |t| ==> CaseNumber(t[i].caseNo).Some?)
    && (forall i :: 0 <= i < |t| ==> CaseNumber(t[i].caseNo).GetOr(0) <= t[i].id)
    && (forall i, j :: 0 <= i < j < |t| ==> t[i].id < CaseNumber(t[j].caseNo).GetOr(0))
  }

  /** A positive id above every id in the table: what SQLite assigns to a new row. */
  ghost predicate FreshId(t: seq<BlotterRow>, rowId: nat) {
    rowId >= 1 && forall i :: 0 <= i < |t| ==> t[i].id < rowId
  }

  /** In a valid table no two rows share a case number, so `Delete` removes one report. */
  lemma ValidUniqueCaseNos(t: seq<BlotterRow>)
    requires Valid(t)
    ensures forall i, j :: 0 <= i < |t| && 0 <= j < |t| && i != j ==> t[i].caseNo != t[j].caseNo
  {
    forall i, j | 0 <= i < |t| && 0 <= j < |t| && i < j
      ensures t[i].caseNo != t[j].caseNo && t[j].caseNo != t[i].caseNo
    {
      assert CaseNumber(t[i].caseNo).GetOr(0) <= t[i].id < CaseNumber(t[j].caseNo).GetOr(0);
    }
  }

  /** `ORDER BY Id DESC`'s key. */
  function RowId(row: BlotterRow): (id: nat) {
    row.id
  }

  /** A row as `GetAll` reads it: either date falls back to today when it cannot be read. */
  function MapRow(row: BlotterRow, today: DateTime): (r: BlotterRecord)
    ensures r.id == row.id && r.caseNo == Some(row.caseNo) && r.status == Some(row.status)
    ensures r.reportType == Some(row.reportType) && r.priorityLevel == Some(row.priorityLevel)
    ensures r.barangay == Some(row.barangay) && r.complainant == Some(row.complainant)
    ensures r.respondent == Some(row.respondent) && r.incidentLocation == Some(row.incidentLocation)
    ensures r.description == Some(row.description) && r.witnesses == Some(row.witnesses)
    ensures ParseDateTime(row.incidentDate).None? ==> r.incidentDate == today
    ensures ParseDateTime(row.incidentDate).Some? ==> r.incidentDate == ParseDateTime(row.incidentDate).value
    ensures ParseDateTime(row.dateReported).None? ==> r.dateReported == today
    ensures ParseDateTime(row.dateReported).Some? ==> r.dateReported == ParseDateTime(row.dateReported).value
  {
    BlotterRecord(
      row.id, Some(row.caseNo), Some(row.reportType), Some(row.priorityLevel), Some(row.barangay),
      Some(row.complainant), Some(row.respondent), ParseOr(row.incidentDate, today),
      Some(row.incidentLocation), Some(row.description), Some(row.witnesses), Some(row.status),
      ParseOr(row.dateReported, today))
  }

  /** Each row read as `MapRow` does, in the given order. */
  function MapRows(rows: seq<BlotterRow>, today: DateTime): (r: seq<BlotterRecord>)
    ensures |r| == |rows|
    ensures forall i :: 0 <= i < |rows| ==> r[i] == MapRow(rows[i], today)
  {
    Map(rows, (row: BlotterRow) => MapRow(row, today))
  }

  lemma SortedIds(rows: seq<BlotterRow>)
    requires SortedDesc(rows, RowId)
    ensures forall i, j :: 0 <= i < j < |rows| ==> rows[i].id >= rows[j].id
  {
    forall i, j | 0 <= i < j < |rows| ensures rows[i].id >= rows[j].id {
      assert RowId(rows[i]) >= RowId(rows[j]);
    }
  }

  /** `GetAll`: every report read once, newest id first. */
  function GetAll(t: seq<BlotterRow>, today: DateTime): (r: seq<BlotterRecord>)
    ensures |r| == |t|
    ensures forall i, j :: 0 <= i < j < |r| ==> r[i].id >= r[j].id
    ensures multiset(r) == multiset(MapRows(t, today))
  {
    var rows := SortDesc(t, RowId);
    SortedIds(rows);
    MapPermutation(rows, t, (row: BlotterRow) => MapRow(row, today));
    MapRows(rows, today)
  }

  /** A record `GetAll` lists is the reading of some row of the table. */
  lemma ListedComesFromTable(t: seq<BlotterRow>, today: DateTime, i: nat)
    requires i < |t|
    ensures exists k :: 0 <= k < |t| && GetAll(t, today)[i] == MapRow(t[k], today)
  {
    PermutationIndex(GetAll(t, today), MapRows(t, today), i);
  }

  /** Every row of the table is listed by `GetAll`. */
  lemma TableRowIsListed(t: seq<BlotterRow>, today: DateTime, k: nat)
    requires k < |t|
    ensures exists i :: 0 <= i < |t| && GetAll(t, today)[i] == MapRow(t[k], today)
  {
    PermutationIndex(MapRows(t, today), GetAll(t, today), k);
  }

  /** `SELECT IFNULL(MAX(Id),0)+1 FROM BlotterReports`: above every id in the table. */
  function NextNumber(t: seq<BlotterRow>): (n: nat)
    ensures n >= 1
    ensures t == [] ==> n == 1
    ensures forall k :: 0 <= k < |t| ==> t[k].id < n
    ensures t != [] ==> exists k :: 0 <= k < |t| && t[k].id == n - 1
  {
    var m := MaxKey(t, RowId);
    assert forall k :: 0 <= k < |t| ==> RowId(t[k]) <= m;
    m + 1
  }

  /**
   * The row `Insert` adds under case number `caseNo`: a null type becomes
   * `Other`, a null priority `Low`, other null strings empty, a blank status
   * `Pending`; the incident date is stored as its day; `DateReported` is the
   * column default.
   */
  function NewRow(rec: BlotterRecord, rowId: nat, caseNo: string, dateReportedDefault: string): (row: BlotterRow)
    ensures row.id == rowId && row.caseNo == caseNo && row.dateReported == dateReportedDefault
    ensures ParseDateTime(row.incidentDate) == Some(DatePart(rec.incidentDate))
    ensures IsNullOrWhiteSpace(rec.status) ==> row.status == DefaultStatus
    ensures !IsNullOrWhiteSpace(rec.status) ==> row.status == rec.status.value
    ensures row.reportType == rec.reportType.GetOr(DefaultReportType)
    ensures row.priorityLevel == rec.priorityLevel.GetOr(DefaultPriority)
  {
    ParseFormatDate(rec.incidentDate);
    BlotterRow(
      rowId, caseNo, rec.reportType.GetOr(DefaultReportType), rec.priorityLevel.GetOr(DefaultPriority),
      OrEmpty(rec.barangay), OrEmpty(rec.complainant), OrEmpty(rec.respondent),
      FormatDate(rec.incidentDate), OrEmpty(rec.incidentLocation), OrEmpty(rec.description),
      OrEmpty(rec.witnesses), if IsNullOrWhiteSpace(rec.status) then DefaultStatus else rec.status.value,
      dateReportedDefault)
  }

  /** What `Insert` returns: the grown table and the new case number. */
  datatype Inserted = Inserted(table: seq<BlotterRow>, caseNo: string)

  /** `Insert`: the case number is one more than the largest id in the table (`IFNULL(MAX(Id),0)+1`). */
  function Insert(t: seq<BlotterRow>, rec: BlotterRecord, rowId: nat, dateReportedDefault: string): (r: Inserted)
    ensures |r.table| == |t| + 1 && r.table[..|t|] == t
    ensures r.caseNo == FormatCaseNo(NextNumber(t))
    ensures CaseNumber(r.caseNo) == Some(NextNumber(t))
    ensures r.table[|t|] == NewRow(rec, rowId, r.caseNo, dateReportedDefault)
  {
    var n := NextNumber(t);
    CodeNumberOfFormat(CasePrefix, n);
    var caseNo := FormatCaseNo(n);
    assert CaseNumber(caseNo) == Some(n);
    Inserted(t + [NewRow(rec, rowId, caseNo, dateReportedDefault)], caseNo)
  }

  /** The case number `Insert` hands out is new to the table. */
  lemma InsertedCaseNoIsFresh(t: seq<BlotterRow>, rec: BlotterRecord, rowId: nat, dateReportedDefault: string)
    requires Valid(t)
    ensures forall k :: 0 <= k < |t| ==> t[k].caseNo != Insert(t, rec, rowId, dateReportedDefault).caseNo
  {
    var ins := Insert(t, rec, rowId, dateReportedDefault);
    forall k | 0 <= k < |t| ensures t[k].caseNo != ins.caseNo {
      assert CaseNumber(t[k].caseNo).GetOr(0) <= t[k].id < NextNumber(t);
    }
  }

  /** The first report filed into an empty table is `BL-0001`. */
  lemma FirstInsertIsOne(rec: BlotterRecord, rowId: nat, dateReportedDefault: string)
    ensures Insert([], rec, rowId, dateReportedDefault).caseNo == "BL-0001"
  {
    FirstCode(CasePrefix);
  }

  /**
   * While the table's ids run 1, 2, ..., |t| (nothing deleted, SQLite's
   * ids in order), the next case number is `BL-` and the four-digit
   * `|t| + 1`.
   */
  lemma InsertAfterDenseIds(t: seq<BlotterRow>, rec: BlotterRecord, rowId: nat, dateReportedDefault: string)
    requires forall k :: 0 <= k < |t| ==> t[k].id == k + 1
    ensures Insert(t, rec, rowId, dateReportedDefault).caseNo == FormatCaseNo(|t| + 1)
    ensures |t| < 9999 ==> |Insert(t, rec, rowId, dateReportedDefault).caseNo| == 7
  {
    var n := NextNumber(t);
    if t != [] {
      var k :| 0 <= k < |t| && t[k].id == n - 1;
      assert t[|t| - 1].id == |t|;
    }
    assert n == |t| + 1;
  }

  /** Appending a row whose number lies above every id, and not above its own id, keeps the table valid. */
  lemma AppendKeepsValid(t: seq<BlotterRow>, row: BlotterRow)
    requires Valid(t) && CaseNumber(row.caseNo).Some?
    requires CaseNumber(row.caseNo).value <= row.id
    requires forall k :: 0 <= k < |t| ==> t[k].id < CaseNumber(row.caseNo).value
    ensures Valid(t + [row])
  {
    var r := t + [row];
    assert forall k :: 0 <= k < |t| ==> r[k] == t[k];
    assert r[|t|] == row;
  }

  lemma InsertKeepsValid(t: seq<BlotterRow>, rec: BlotterRecord, rowId: nat, dateReportedDefault: string)
    requires Valid(t) && FreshId(t, rowId)
    ensures Valid(Insert(t, rec, rowId, dateReportedDefault).table)
  {
    var n := NextNumber(t);
    var row := NewRow(rec, rowId, FormatCaseNo(n), dateReportedDefault);
    assert Insert(t, rec, rowId, dateReportedDefault).table == t + [row];
    CodeNumberOfFormat(CasePrefix, n);
    assert CaseNumber(row.caseNo) == Some(n);
    if t != [] {
      var k :| 0 <= k < |t| && t[k].id == n - 1;
    }
    assert n <= rowId == row.id;
    AppendKeepsValid(t, row);
  }

  /** A report filed with status `Pending` keeps it: the default is not white space. */
  lemma DefaultStatusNotBlank()
    ensures !IsBlank(DefaultStatus)
  {
    assert DefaultStatus[0] == 'P';
  }

  /** The record `GetAll` reads back for a report filed with `Insert(rec)`. */
  function InsertedReadback(rec: BlotterRecord, rowId: nat, caseNo: string, dateReported: DateTime): (r: BlotterRecord) {
    BlotterRecord(
      rowId, Some(caseNo), Some(rec.reportType.GetOr(DefaultReportType)),
      Some(rec.priorityLevel.GetOr(DefaultPriority)), Some(OrEmpty(rec.barangay)),
      Some(OrEmpty(rec.complainant)), Some(OrEmpty(rec.respondent)), DatePart(rec.incidentDate),
      Some(OrEmpty(rec.incidentLocation)), Some(OrEmpty(rec.description)), Some(OrEmpty(rec.witnesses)),
      Some(if IsNullOrWhiteSpace(rec.status) then DefaultStatus else rec.status.value), dateReported)
  }

  /**
   * Insert then list: the new report heads `GetAll` (it has the largest id),
   * read back with its defaults applied, its incident day, and the date the
   * column default supplies (today when that text is not a date).
   */
  lemma InsertThenGetAll(t: seq<BlotterRow>, rec: BlotterRecord, rowId: nat, dateReportedDefault: string, today: DateTime)
    requires Valid(t) && FreshId(t, rowId)
    ensures var ins := Insert(t, rec, rowId, dateReportedDefault);
      var all := GetAll(ins.table, today);
      all[0] == InsertedReadback(rec, rowId, ins.caseNo, ParseOr(dateReportedDefault, today))
  {
    var ins := Insert(t, rec, rowId, dateReportedDefault);
    InsertKeepsValid(t, rec, rowId, dateReportedDefault);
    NewestHeadsList(ins.table, today);
    ParseFormatDate(rec.incidentDate);
  }

  /** In a valid table the last row inserted has the largest id, so `GetAll` lists it first. */
  lemma NewestHeadsList(u: seq<BlotterRow>, today: DateTime)
    requires Valid(u) && u != []
    ensures GetAll(u, today)[0] == MapRow(u[|u| - 1], today)
  {
    var all := GetAll(u, today);
    var recordId := (r: BlotterRecord) => r.id;
    assert SortedDesc(all, recordId);
    assert forall i, j :: 0 <= i < j < |u| ==> RowId(u[i]) < RowId(u[j]);
    SortedImageHead(u, all, (row: BlotterRow) => MapRow(row, today), RowId, recordId);
  }

  /** `Delete`: the reports with that case number go (none for null); the others stay, in order. */
  function Delete(t: seq<BlotterRow>, caseNo: Option<string>): (r: seq<BlotterRow>)
    ensures IsSubsequence(r, t)
    ensures forall k :: 0 <= k < |r| ==> caseNo != Some(r[k].caseNo)
    ensures forall k :: 0 <= k < |t| && caseNo != Some(t[k].caseNo) ==> t[k] in r
  {
    Filter(t, (row: BlotterRow) => caseNo != Some(row.caseNo))
  }

  /** In a valid table, `Delete` of a present case number removes exactly one report. */
  lemma DeleteRemovesOne(t: seq<BlotterRow>, k: nat)
    requires Valid(t) && k < |t|
    ensures |Delete(t, Some(t[k].caseNo))| == |t| - 1
  {
    ValidUniqueCaseNos(t);
    var p := (row: BlotterRow) => Some(t[k].caseNo) != Some(row.caseNo);
    FilterCountsAllButOne(t, p, k);
  }

  /** Filtering out an element that alone fails `p` shortens the sequence by one. */
  lemma {:induction false} FilterCountsAllButOne(t: seq<BlotterRow>, p: BlotterRow -> bool, k: nat)
    requires k < |t| && !p(t[k])
    requires forall j :: 0 <= j < |t| && j != k ==> p(t[j])
    ensures |Filter(t, p)| == |t| - 1
    decreases |t|
  {
    var tail := t[1..];
    assert forall j :: 0 <= j < |tail| ==> tail[j] == t[j + 1];
    if k == 0 {
      FilterAll(tail, p);
    } else {
      FilterCountsAllButOne(tail, p, k - 1);
    }
  }
}
