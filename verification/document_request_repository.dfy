/**
 * `DocumentRequestRepository` over the `DocumentRequests` table: listing,
 * lookup by request number, insertion with a generated `REQ-nnnn` number,
 * edits of the details or the status, and deletion.
 *
 * A row holds what SQLite holds: the text of the dates and of the copy count,
 * and `None` for a NULL pickup date. The id SQLite assigns and the current day
 * are parameters.
 */
module DocumentRequestRepository {
  import opened Wrappers
  import opened Text
  import opened Calendar
  import opened Seqs
  import opened Codes

  const RequestPrefix := "REQ-"
  const DefaultStatus := "Pending"

  /** A row of `DocumentRequests` (the `Type` column is `docType`). */
  datatype RequestRow = RequestRow(
    id: nat, requestId: string, docType: string, requesterName: string, dateFiled: string,
    status: string, contactNumber: string, purpose: string, pickupDate: Option<string>,
    copies: string, additionalRequirements: string)

  /** `DocumentRequestRecord`: every string property may be null. */
  datatype RequestRecord = RequestRecord(
    id: nat, requestId: Option<string>, docType: Option<string>, requesterName: Option<string>,
    dateFiled: DateTime, status: Option<string>, contactNumber: Option<string>,
    purpose: Option<string>, pickupDate: Option<DateTime>, copies: int,
    additionalRequirements: Option<string>)

  /** `int.TryParse(s, out c) ? c : fallback`. */
  function ParseInt32Or(s: string, fallback: int): (r: int)
    ensures ParseNumber(s).Some? && ParseNumber(s).value <= Int32Max ==> r == ParseNumber(s).value
    ensures TryParseInt32(s).Some? ==> r == TryParseInt32(s).value && Int32Min <= r <= Int32Max
    ensures TryParseInt32(s).None? ==> r == fallback
  {
    match TryParseInt32(s)
    case Some(n) => n
    case None => fallback
  }

  /** A negative count in the column, padded with white space, reads back as that negative number. */
  lemma ParseInt32OrSignedPadded(pre: string, n: nat, post: string, fallback: int)
    requires forall k :: 0 <= k < |pre| ==> IsNumberWhite(pre[k])
    requires forall k :: 0 <= k < |post| ==> IsNumberWhite(post[k])
    ensures ParseInt32Or(pre + ("-" + DecimalDigits(n)) + post, fallback) == if n <= -Int32Min then -(n as int) else fallback
  {
    TryParsePadding(pre, "-" + DecimalDigits(n), post);
    TryParseSigned(n);
  }

  /** `$"REQ-{n:D4}"`. */
  function FormatRequestId(n: nat): (r: string)
    ensures |r| >= 8 && r[..4] == RequestPrefix
    ensures n < 10000 ==> |r| == 8
  {
    FormatCode(RequestPrefix, n)
  }

  /** The number inside a request id written by `FormatRequestId`, if it is one. */
  function RequestNumber(requestId: string): (r: Option<nat>)
    ensures r.Some? ==> |requestId| > 4 && requestId[..4] == RequestPrefix
  {
    CodeNumber(RequestPrefix, requestId)
  }

  /** Round trip: the number a request id was made from can be read back out of it. */
  lemma RequestNumberOfFormat(n: nat)
    ensures RequestNumber(FormatRequestId(n)) == Some(n)
  {
    CodeNumberOfFormat(RequestPrefix, n);
  }

  /**
   * What `Insert` guarantees about the table it grows: ids increase in
   * insertion order, every request id carries a number no larger than its
   * row's id, and that number exceeds the id of every earlier row.
   */
  ghost predicate Valid(t: seq<RequestRow>) {
    && (forall i, j :: 0 <= i < j < |t| ==> t[i].id < t[j].id)
    && (forall i :: 0 <= i < |t| ==> RequestNumber(t[i].requestId).Some?)
    && (forall i :: 0 <= i < |t| ==> RequestNumber(t[i].requestId).GetOr(0) <= t[i].id)
    && (forall i, j :: 0 <= i < j < |t| ==> t[i].id < RequestNumber(t[j].requestId).GetOr(0))
  }

  /** A positive id above every id in the table: what SQLite assigns to a new row. */
  ghost predicate FreshId(t: seq<RequestRow>, rowId: nat) {
    rowId >= 1 && forall i :: 0 <= i < |t| ==> t[i].id < rowId
  }

  /** No two rows share a request id. */
  ghost predicate UniqueRequestIds(t: seq<RequestRow>) {
    forall i, j :: 0 <= i < |t| && 0 <= j < |t| && i != j ==> t[i].requestId != t[j].requestId
  }

  /** In a valid table request ids are unique, so `WHERE RequestId = @RequestId` names one row. */
  lemma ValidUniqueRequestIds(t: seq<RequestRow>)
    requires Valid(t)
    ensures UniqueRequestIds(t)
  {
    forall i, j | 0 <= i < |t| && 0 <= j < |t| && i < j
      ensures t[i].requestId != t[j].requestId && t[j].requestId != t[i].requestId
    {
      assert RequestNumber(t[i].requestId).GetOr(0) <= t[i].id < RequestNumber(t[j].requestId).GetOr(0);
    }
  }

  /** `ORDER BY Id DESC`'s key. */
  function RowId(row: RequestRow): (id: nat) {
    row.id
  }

  /** A row as `GetAll` / `GetByRequestId` read it: unparsable dates fall back, a bad count becomes 1. */
  function MapRow(row: RequestRow, today: DateTime): (r: RequestRecord)
    ensures r.id == row.id && r.requestId == Some(row.requestId) && r.status == Some(row.status)
    ensures r.docType == Some(row.docType) && r.requesterName == Some(row.requesterName)
    ensures r.contactNumber == Some(row.contactNumber) && r.purpose == Some(row.purpose)
    ensures r.additionalRequirements == Some(row.additionalRequirements)
    ensures ParseDateTime(row.dateFiled).None? ==> r.dateFiled == today
    ensures ParseDateTime(row.dateFiled).Some? ==> r.dateFiled == ParseDateTime(row.dateFiled).value
    ensures row.pickupDate.None? ==> r.pickupDate.None?
    ensures row.pickupDate.Some? ==> r.pickupDate == ParseDateTime(row.pickupDate.value)
    ensures ParseNumber(row.copies).Some? && ParseNumber(row.copies).value <= Int32Max ==> r.copies == ParseNumber(row.copies).value
    ensures TryParseInt32(row.copies).Some? ==> r.copies == TryParseInt32(row.copies).value
    ensures TryParseInt32(row.copies).None? ==> r.copies == 1
  {
    RequestRecord(
      row.id, Some(row.requestId), Some(row.docType), Some(row.requesterName),
      ParseOr(row.dateFiled, today), Some(row.status), Some(row.contactNumber), Some(row.purpose),
      ParseDateTime(row.pickupDate.GetOr("")), ParseInt32Or(row.copies, 1),
      Some(row.additionalRequirements))
  }

  /** Each row read as `MapRow` does, in the given order. */
  function MapRows(rows: seq<RequestRow>, today: DateTime): (r: seq<RequestRecord>)
    ensures |r| == |rows|
    ensures forall i :: 0 <= i < |rows| ==> r[i] == MapRow(rows[i], today)
  {
    Map(rows, (row: RequestRow) => MapRow(row, today))
  }

  lemma SortedIds(rows: seq<RequestRow>)
    requires SortedDesc(rows, RowId)
    ensures forall i, j :: 0 <= i < j < |rows| ==> rows[i].id >= rows[j].id
  {
    forall i, j | 0 <= i < j < |rows| ensures rows[i].id >= rows[j].id {
      assert RowId(rows[i]) >= RowId(rows[j]);
    }
  }

  /** `GetAll`: every row read once, newest id first. */
  function GetAll(t: seq<RequestRow>, today: DateTime): (r: seq<RequestRecord>)
    ensures |r| == |t|
    ensures forall i, j :: 0 <= i < j < |r| ==> r[i].id >= r[j].id
    ensures multiset(r) == multiset(MapRows(t, today))
  {
    var rows := SortDesc(t, RowId);
    SortedIds(rows);
    MapPermutation(rows, t, (row: RequestRow) => MapRow(row, today));
    MapRows(rows, today)
  }

  /** A record `GetAll` lists is the reading of some row of the table. */
  lemma ListedComesFromTable(t: seq<RequestRow>, today: DateTime, i: nat)
    requires i < |t|
    ensures exists k :: 0 <= k < |t| && GetAll(t, today)[i] == MapRow(t[k], today)
  {
    PermutationIndex(GetAll(t, today), MapRows(t, today), i);
  }

  /** Every row of the table is listed by `GetAll`. */
  lemma TableRowIsListed(t: seq<RequestRow>, today: DateTime, k: nat)
    requires k < |t|
    ensures exists i :: 0 <= i < |t| && GetAll(t, today)[i] == MapRow(t[k], today)
  {
    PermutationIndex(MapRows(t, today), GetAll(t, today), k);
  }

  /** `GetByRequestId`: null for a blank id, otherwise the row with exactly that id. */
  function GetByRequestId(t: seq<RequestRow>, requestId: Option<string>, today: DateTime): (r: Option<RequestRecord>)
    ensures IsNullOrWhiteSpace(requestId) ==> r.None?
    ensures r.Some? <==>
      !IsNullOrWhiteSpace(requestId) && exists k :: 0 <= k < |t| && t[k].requestId == requestId.value
    ensures r.Some? ==> exists k :: 0 <= k < |t| && t[k].requestId == requestId.value && r.value == MapRow(t[k], today)
  {
    if IsNullOrWhiteSpace(requestId) then None
    else
      var hits := Filter(t, (row: RequestRow) => row.requestId == requestId.value);
      if hits == [] then None
      else
        assert hits[0] in t;
        Some(MapRow(hits[0], today))
  }

  /** In a valid table, looking up a row's request id finds that row. */
  lemma FoundByRequestId(t: seq<RequestRow>, k: nat, today: DateTime)
    requires Valid(t) && k < |t|
    ensures GetByRequestId(t, Some(t[k].requestId), today) == Some(MapRow(t[k], today))
  {
    ValidUniqueRequestIds(t);
    assert t[k].requestId[0] == 'R';
    assert !IsBlank(t[k].requestId);
  }

  /** The text `Insert` and `UpdateDetails` write into `PickupDate`: `yyyy-MM-dd`, or NULL. */
  function PickupText(pickup: Option<DateTime>): (r: Option<string>)
    ensures r.None? <==> pickup.None?
    ensures pickup.Some? ==> ParseDateTime(r.value) == Some(DatePart(pickup.value))
  {
    match pickup
    case None => None
    case Some(d) =>
      ParseFormatDate(d);
      Some(FormatDate(d))
  }

  /** `rec.Copies <= 0 ? 1 : rec.Copies`, as the text SQLite gives back. */
  function CopiesText(copies: int): (r: string)
    ensures copies <= Int32Max ==> ParseInt32Or(r, 1) == if copies <= 0 then 1 else copies
  {
    var n: nat := if copies <= 0 then 1 else copies;
    ParseDecimalDigits(n);
    DecimalDigits(n)
  }

  /** What `Insert` returns: the grown table and the new request id. */
  datatype Inserted = Inserted(table: seq<RequestRow>, requestId: string)

  /** `SELECT IFNULL(MAX(Id),0)+1 FROM DocumentRequests`: above every id in the table. */
  function NextNumber(t: seq<RequestRow>): (n: nat)
    ensures n >= 1
    ensures t == [] ==> n == 1
    ensures forall k :: 0 <= k < |t| ==> t[k].id < n
    ensures t != [] ==> exists k :: 0 <= k < |t| && t[k].id == n - 1
  {
    var m := MaxKey(t, RowId);
    assert forall k :: 0 <= k < |t| ==> RowId(t[k]) <= m;
    m + 1
  }

  /** The row `Insert` adds under request id `requestId`. */
  function NewRow(rec: RequestRecord, rowId: nat, requestId: string, today: DateTime): (row: RequestRow)
    ensures row.id == rowId && row.requestId == requestId
    ensures IsNullOrWhiteSpace(rec.status) ==> row.status == DefaultStatus
    ensures !IsNullOrWhiteSpace(rec.status) ==> row.status == rec.status.value
  {
    RequestRow(
      rowId, requestId, OrEmpty(rec.docType), OrEmpty(rec.requesterName),
      FormatTimestamp(if rec.dateFiled == MinValue then today else rec.dateFiled),
      if IsNullOrWhiteSpace(rec.status) then DefaultStatus else rec.status.value,
      OrEmpty(rec.contactNumber), OrEmpty(rec.purpose), PickupText(rec.pickupDate),
      CopiesText(rec.copies), OrEmpty(rec.additionalRequirements))
  }

  /**
   * `Insert`: the request number is one more than the largest id in the
   * table (`IFNULL(MAX(Id),0)+1`); null strings are stored as empty, a default
   * filing date as today, a blank status as `Pending`, a non-positive count as 1.
   */
  function Insert(t: seq<RequestRow>, rec: RequestRecord, rowId: nat, today: DateTime): (r: Inserted)
    ensures |r.table| == |t| + 1 && r.table[..|t|] == t
    ensures r.requestId == FormatRequestId(NextNumber(t))
    ensures RequestNumber(r.requestId) == Some(NextNumber(t))
    ensures r.table[|t|] == NewRow(rec, rowId, r.requestId, today)
  {
    var n := NextNumber(t);
    RequestNumberOfFormat(n);
    var requestId := FormatRequestId(n);
    assert RequestNumber(requestId) == Some(n);
    Inserted(t + [NewRow(rec, rowId, requestId, today)], requestId)
  }

  /** The request id `Insert` hands out is new to the table. */
  lemma InsertedIdIsFresh(t: seq<RequestRow>, rec: RequestRecord, rowId: nat, today: DateTime)
    requires Valid(t)
    ensures forall k :: 0 <= k < |t| ==> t[k].requestId != Insert(t, rec, rowId, today).requestId
  {
    var ins := Insert(t, rec, rowId, today);
    forall k | 0 <= k < |t| ensures t[k].requestId != ins.requestId {
      assert RequestNumber(t[k].requestId).GetOr(0) <= t[k].id < NextNumber(t);
    }
  }

  /** The first request filed into an empty table is `REQ-0001`. */
  lemma FirstInsertIsOne(rec: RequestRecord, rowId: nat, today: DateTime)
    ensures Insert([], rec, rowId, today).requestId == "REQ-0001"
  {
    FirstCode(RequestPrefix);
  }

  /**
   * While the table's ids run 1, 2, ..., |t| (nothing deleted, SQLite's
   * ids in order), the next request id is `REQ-` and the four-digit
   * `|t| + 1`.
   */
  lemma InsertAfterDenseIds(t: seq<RequestRow>, rec: RequestRecord, rowId: nat, today: DateTime)
    requires forall k :: 0 <= k < |t| ==> t[k].id == k + 1
    ensures Insert(t, rec, rowId, today).requestId == FormatRequestId(|t| + 1)
    ensures |t| < 9999 ==> |Insert(t, rec, rowId, today).requestId| == 8
  {
    var n := NextNumber(t);
    if t != [] {
      var k :| 0 <= k < |t| && t[k].id == n - 1;
      assert t[|t| - 1].id == |t|;
    }
    assert n == |t| + 1;
  }

  /** Appending a row whose number lies above every id, and not above its own id, keeps the table valid. */
  lemma AppendKeepsValid(t: seq<RequestRow>, row: RequestRow)
    requires Valid(t) && RequestNumber(row.requestId).Some?
    requires RequestNumber(row.requestId).value <= row.id
    requires forall k :: 0 <= k < |t| ==> t[k].id < RequestNumber(row.requestId).value
    ensures Valid(t + [row])
  {
    var r := t + [row];
    assert forall k :: 0 <= k < |t| ==> r[k] == t[k];
    assert r[|t|] == row;
  }

  lemma InsertKeepsValid(t: seq<RequestRow>, rec: RequestRecord, rowId: nat, today: DateTime)
    requires Valid(t) && FreshId(t, rowId)
    ensures Valid(Insert(t, rec, rowId, today).table)
  {
    var n := NextNumber(t);
    var row := NewRow(rec, rowId, FormatRequestId(n), today);
    assert Insert(t, rec, rowId, today).table == t + [row];
    CodeNumberOfFormat(RequestPrefix, n);
    assert RequestNumber(row.requestId) == Some(n);
    if t != [] {
      var k :| 0 <= k < |t| && t[k].id == n - 1;
    }
    assert n <= rowId == row.id;
    AppendKeepsValid(t, row);
  }

  /** A request filed as `Pending` keeps that status: the default is not white space. */
  lemma DefaultStatusNotBlank()
    ensures !IsBlank(DefaultStatus)
  {
    assert DefaultStatus[0] == 'P';
  }

  /** The record `GetByRequestId` reads back after `Insert(rec)`. */
  function InsertedReadback(rec: RequestRecord, rowId: nat, requestId: string, today: DateTime): (r: RequestRecord) {
    RequestRecord(
      rowId, Some(requestId), Some(OrEmpty(rec.docType)), Some(OrEmpty(rec.requesterName)),
      if rec.dateFiled == MinValue then today else rec.dateFiled,
      Some(if IsNullOrWhiteSpace(rec.status) then DefaultStatus else rec.status.value),
      Some(OrEmpty(rec.contactNumber)), Some(OrEmpty(rec.purpose)),
      if rec.pickupDate.Some? then Some(DatePart(rec.pickupDate.value)) else None,
      if rec.copies <= 0 then 1 else rec.copies,
      Some(OrEmpty(rec.additionalRequirements)))
  }

  /**
   * Insert then look up: the returned id finds the new row, and every field
   * reads back as stored (null strings as empty, the filing time to the
   * second, the pickup date as its day, the count at least 1).
   */
  lemma InsertThenGet(t: seq<RequestRow>, rec: RequestRecord, rowId: nat, today: DateTime, readToday: DateTime)
    requires Valid(t) && FreshId(t, rowId) && rec.copies <= Int32Max
    ensures var ins := Insert(t, rec, rowId, today);
      GetByRequestId(ins.table, Some(ins.requestId), readToday) == Some(InsertedReadback(rec, rowId, ins.requestId, today))
  {
    var ins := Insert(t, rec, rowId, today);
    InsertKeepsValid(t, rec, rowId, today);
    FoundByRequestId(ins.table, |t|, readToday);
    var row := ins.table[|t|];
    ParseFormatTimestamp(if rec.dateFiled == MinValue then today else rec.dateFiled);
    assert MapRow(row, readToday) == InsertedReadback(rec, rowId, ins.requestId, today);
  }

  /** The columns `UpdateDetails` rewrites; id, request id, filing date and status are kept. */
  function Edited(row: RequestRow, rec: RequestRecord): (r: RequestRow)
    ensures r.id == row.id && r.requestId == row.requestId
    ensures r.dateFiled == row.dateFiled && r.status == row.status
  {
    row.(docType := OrEmpty(rec.docType), requesterName := OrEmpty(rec.requesterName),
         contactNumber := OrEmpty(rec.contactNumber), purpose := OrEmpty(rec.purpose),
         pickupDate := PickupText(rec.pickupDate), copies := CopiesText(rec.copies),
         additionalRequirements := OrEmpty(rec.additionalRequirements))
  }

  /** The rows `UpdateDetails(rec)` rewrites: a non-null record with a non-blank id, matched exactly. */
  predicate EditsRow(rec: Option<RequestRecord>, row: RequestRow) {
    rec.Some? && !IsNullOrWhiteSpace(rec.value.requestId) && rec.value.requestId.value == row.requestId
  }

  /**
   * `UpdateDetails`: nothing happens for a null record or a blank request id;
   * otherwise the rows with that request id take the record's details.
   */
  function UpdateDetails(t: seq<RequestRow>, rec: Option<RequestRecord>): (r: seq<RequestRow>)
    ensures rec.None? || IsNullOrWhiteSpace(rec.value.requestId) ==> r == t
    ensures |r| == |t|
    ensures forall k :: 0 <= k < |t| && EditsRow(rec, t[k]) ==> r[k] == Edited(t[k], rec.value)
    ensures forall k :: 0 <= k < |t| && !EditsRow(rec, t[k]) ==> r[k] == t[k]
  {
    if rec.None? || IsNullOrWhiteSpace(rec.value.requestId) then t
    else MapWhere(t, (row: RequestRow) => row.requestId == rec.value.requestId.value,
                  (row: RequestRow) => Edited(row, rec.value))
  }

  /** `UpdateStatus`: `Status = newStatus ?? "Pending"` on the rows with that request id (none for null). */
  function UpdateStatus(t: seq<RequestRow>, requestId: Option<string>, newStatus: Option<string>): (r: seq<RequestRow>)
    ensures |r| == |t|
    ensures forall k :: 0 <= k < |t| && requestId == Some(t[k].requestId) ==>
      r[k] == t[k].(status := newStatus.GetOr(DefaultStatus))
    ensures forall k :: 0 <= k < |t| && requestId != Some(t[k].requestId) ==> r[k] == t[k]
  {
    MapWhere(t, (row: RequestRow) => requestId == Some(row.requestId),
             (row: RequestRow) => row.(status := newStatus.GetOr(DefaultStatus)))
  }

  /** `Delete`: the rows with that request id go (none for null); the others stay, in order. */
  function Delete(t: seq<RequestRow>, requestId: Option<string>): (r: seq<RequestRow>)
    ensures IsSubsequence(r, t)
    ensures forall k :: 0 <= k < |r| ==> requestId != Some(r[k].requestId)
    ensures forall k :: 0 <= k < |t| && requestId != Some(t[k].requestId) ==> t[k] in r
  {
    Filter(t, (row: RequestRow) => requestId != Some(row.requestId))
  }

  /** Rewriting columns other than id and request id keeps the table valid. */
  lemma SameKeysKeepValid(t: seq<RequestRow>, r: seq<RequestRow>)
    requires Valid(t) && |r| == |t|
    requires forall k :: 0 <= k < |t| ==> r[k].id == t[k].id && r[k].requestId == t[k].requestId
    ensures Valid(r)
  {
  }

  lemma UpdateDetailsKeepsValid(t: seq<RequestRow>, rec: Option<RequestRecord>)
    requires Valid(t)
    ensures Valid(UpdateDetails(t, rec))
  {
    var r := UpdateDetails(t, rec);
    forall k | 0 <= k < |t| ensures r[k].id == t[k].id && r[k].requestId == t[k].requestId {
      if EditsRow(rec, t[k]) { assert r[k] == Edited(t[k], rec.value); }
    }
    SameKeysKeepValid(t, r);
  }

  lemma UpdateStatusKeepsValid(t: seq<RequestRow>, requestId: Option<string>, newStatus: Option<string>)
    requires Valid(t)
    ensures Valid(UpdateStatus(t, requestId, newStatus))
  {
    var r := UpdateStatus(t, requestId, newStatus);
    assert forall k :: 0 <= k < |t| ==> r[k].id == t[k].id && r[k].requestId == t[k].requestId;
    SameKeysKeepValid(t, r);
  }

  lemma TailKeepsValid(t: seq<RequestRow>)
    requires Valid(t) && t != []
    ensures Valid(t[1..])
  {
    var tail := t[1..];
    assert forall k :: 0 <= k < |tail| ==> tail[k] == t[k + 1];
  }

  /** A row in front of a valid table, below every id and number behind it, gives a valid table. */
  lemma ConsKeepsValid(x: RequestRow, rest: seq<RequestRow>)
    requires Valid(rest) && RequestNumber(x.requestId).Some? && RequestNumber(x.requestId).value <= x.id
    requires forall m :: 0 <= m < |rest| ==> x.id < rest[m].id && x.id < RequestNumber(rest[m].requestId).GetOr(0)
    ensures Valid([x] + rest)
  {
    var r := [x] + rest;
    assert forall m :: 1 <= m < |r| ==> r[m] == rest[m - 1];
  }

  /** The first row of a valid table lies below every row kept from the rest. */
  lemma HeadBelowKept(t: seq<RequestRow>, p: RequestRow -> bool)
    requires Valid(t) && t != []
    ensures var rest := Filter(t[1..], p);
      forall m :: 0 <= m < |rest| ==> t[0].id < rest[m].id && t[0].id < RequestNumber(rest[m].requestId).GetOr(0)
  {
    var tail := t[1..];
    var rest := Filter(tail, p);
    forall m | 0 <= m < |rest|
      ensures t[0].id < rest[m].id && t[0].id < RequestNumber(rest[m].requestId).GetOr(0)
    {
      assert rest[m] in tail;
      var k :| 0 <= k < |tail| && tail[k] == rest[m];
      assert t[k + 1] == rest[m];
    }
  }

  /** Keeping some rows, in order, keeps the table valid. */
  lemma {:induction false} FilterKeepsValid(t: seq<RequestRow>, p: RequestRow -> bool)
    requires Valid(t)
    ensures Valid(Filter(t, p))
    decreases |t|
  {
    if t != [] {
      TailKeepsValid(t);
      FilterKeepsValid(t[1..], p);
      if p(t[0]) {
        HeadBelowKept(t, p);
        ConsKeepsValid(t[0], Filter(t[1..], p));
      }
    }
  }

  lemma DeleteKeepsValid(t: seq<RequestRow>, requestId: Option<string>)
    requires Valid(t)
    ensures Valid(Delete(t, requestId))
  {
    FilterKeepsValid(t, (row: RequestRow) => requestId != Some(row.requestId));
  }

  /** After `UpdateStatus`, the request reads back with the new status and everything else as before. */
  lemma UpdateStatusThenGet(t: seq<RequestRow>, k: nat, newStatus: Option<string>, today: DateTime)
    requires Valid(t) && k < |t|
    ensures var id := t[k].requestId;
      GetByRequestId(UpdateStatus(t, Some(id), newStatus), Some(id), today)
        == Some(MapRow(t[k], today).(status := Some(newStatus.GetOr(DefaultStatus))))
  {
    var id := t[k].requestId;
    var r := UpdateStatus(t, Some(id), newStatus);
    UpdateStatusKeepsValid(t, Some(id), newStatus);
    FoundByRequestId(r, k, today);
  }

  /** `UpdateStatus` with the same arguments twice changes nothing the second time. */
  lemma UpdateStatusIdempotent(t: seq<RequestRow>, requestId: Option<string>, newStatus: Option<string>)
    ensures UpdateStatus(UpdateStatus(t, requestId, newStatus), requestId, newStatus)
         == UpdateStatus(t, requestId, newStatus)
  {
  }

  /** After `UpdateDetails(rec)`, the request reads back with the record's details, status and filing date kept. */
  lemma UpdateDetailsThenGet(t: seq<RequestRow>, k: nat, rec: RequestRecord, today: DateTime)
    requires Valid(t) && k < |t| && rec.requestId == Some(t[k].requestId) && rec.copies <= Int32Max
    ensures var got := GetByRequestId(UpdateDetails(t, Some(rec)), rec.requestId, today);
      && got.Some?
      && got.value.id == t[k].id && got.value.status == Some(t[k].status)
      && got.value.dateFiled == MapRow(t[k], today).dateFiled
      && got.value.docType == Some(OrEmpty(rec.docType))
      && got.value.requesterName == Some(OrEmpty(rec.requesterName))
      && got.value.contactNumber == Some(OrEmpty(rec.contactNumber))
      && got.value.purpose == Some(OrEmpty(rec.purpose))
      && got.value.pickupDate == (if rec.pickupDate.Some? then Some(DatePart(rec.pickupDate.value)) else None)
      && got.value.copies == (if rec.copies <= 0 then 1 else rec.copies)
      && got.value.additionalRequirements == Some(OrEmpty(rec.additionalRequirements))
  {
    assert t[k].requestId[0] == 'R';
    assert !IsBlank(t[k].requestId);
    var r := UpdateDetails(t, Some(rec));
    assert r[k] == Edited(t[k], rec);
    UpdateDetailsKeepsValid(t, Some(rec));
    FoundByRequestId(r, k, today);
  }

  /** After `Delete`, the request id finds nothing. */
  lemma DeleteThenGet(t: seq<RequestRow>, requestId: string, today: DateTime)
    ensures GetByRequestId(Delete(t, Some(requestId)), Some(requestId), today).None?
  {
  }
}
