/**
 * `FeedbackRepository` over the `Feedbacks` table: the constructor creates
 * the table when it is missing, `Insert` appends one message with its
 * defaults, and `GetLatest` lists the newest messages first, at most `count`
 * of them.
 *
 * The database is `None` until the table exists; the id SQLite assigns and
 * the clock (`DateTime.UtcNow`) are parameters.
 */
module FeedbackRepository {
  import opened Wrappers
  import opened Text
  import opened Calendar
  import opened Seqs

  const DefaultType := "General"
  /** `GetLatest`'s default `count`. */
  const DefaultCount := 50

  /** A row of `Feedbacks`; `UserName` is the one nullable column. */
  datatype FeedbackRow = FeedbackRow(id: nat, feedbackType: string, message: string, createdAt: string, userName: Option<string>)

  /** `FeedbackRecord`: a null `UserName` reads back as the empty string. */
  datatype FeedbackRecord = FeedbackRecord(id: nat, feedbackType: string, message: string, createdAt: DateTime, userName: string)

  /** `Id INTEGER PRIMARY KEY AUTOINCREMENT`: ids increase in insertion order. */
  ghost predicate Valid(t: seq<FeedbackRow>) {
    forall i, j :: 0 <= i < j < |t| ==> t[i].id < t[j].id
  }

  /** A positive id above every id in the table. */
  ghost predicate FreshId(t: seq<FeedbackRow>, rowId: nat) {
    rowId >= 1 && forall i :: 0 <= i < |t| ==> t[i].id < rowId
  }

  /** The constructor's `CREATE TABLE IF NOT EXISTS`: an existing table is kept with its rows. */
  function EnsureTable(db: Option<seq<FeedbackRow>>): (r: Option<seq<FeedbackRow>>)
    ensures r.Some?
    ensures db.Some? ==> r == db
    ensures db.None? ==> r.value == []
  {
    if db.Some? then db else Some([])
  }

  /** Constructing the repository twice is the same as constructing it once. */
  lemma EnsureTableIdempotent(db: Option<seq<FeedbackRow>>)
    ensures EnsureTable(EnsureTable(db)) == EnsureTable(db)
  {
  }

  /**
   * The row `Insert` adds: a null type becomes `General`, a null message or
   * user name the empty string, and `CreatedAt` is the clock as
   * `yyyy-MM-dd HH:mm:ss`.
   */
  function NewRow(feedbackType: Option<string>, message: Option<string>, userName: Option<string>, rowId: nat, utcNow: DateTime): (row: FeedbackRow)
    ensures row.id == rowId
    ensures row.feedbackType == feedbackType.GetOr(DefaultType)
    ensures row.message == OrEmpty(message) && row.userName == Some(OrEmpty(userName))
    ensures ParseDateTime(row.createdAt) == Some(utcNow)
  {
    ParseFormatTimestamp(utcNow);
    FeedbackRow(rowId, feedbackType.GetOr(DefaultType), OrEmpty(message), FormatTimestamp(utcNow), Some(OrEmpty(userName)))
  }

  /** `Insert`: one row appended; nothing already stored changes. */
  function Insert(t: seq<FeedbackRow>, feedbackType: Option<string>, message: Option<string>, userName: Option<string>, rowId: nat, utcNow: DateTime): (r: seq<FeedbackRow>)
    ensures |r| == |t| + 1 && r[..|t|] == t
    ensures r[|t|] == NewRow(feedbackType, message, userName, rowId, utcNow)
  {
    t + [NewRow(feedbackType, message, userName, rowId, utcNow)]
  }

  lemma InsertKeepsValid(t: seq<FeedbackRow>, feedbackType: Option<string>, message: Option<string>, userName: Option<string>, rowId: nat, utcNow: DateTime)
    requires Valid(t) && FreshId(t, rowId)
    ensures Valid(Insert(t, feedbackType, message, userName, rowId, utcNow))
  {
    var r := Insert(t, feedbackType, message, userName, rowId, utcNow);
    assert r[|t|].id == rowId;
    forall i, j | 0 <= i < j < |r| ensures r[i].id < r[j].id {
      assert r[i] == t[i];
      if j < |t| { assert r[j] == t[j]; }
    }
  }

  /** A row as `GetLatest` reads it: an unreadable `CreatedAt` becomes the current time. */
  function MapRow(row: FeedbackRow, utcNow: DateTime): (r: FeedbackRecord)
    ensures r.id == row.id && r.feedbackType == row.feedbackType && r.message == row.message
    ensures r.userName == OrEmpty(row.userName)
    ensures ParseDateTime(row.createdAt).None? ==> r.createdAt == utcNow
    ensures ParseDateTime(row.createdAt).Some? ==> r.createdAt == ParseDateTime(row.createdAt).value
  {
    FeedbackRecord(row.id, row.feedbackType, row.message, ParseOr(row.createdAt, utcNow), OrEmpty(row.userName))
  }

  function MapRows(rows: seq<FeedbackRow>, utcNow: DateTime): (r: seq<FeedbackRecord>)
    ensures |r| == |rows|
    ensures forall i :: 0 <= i < |rows| ==> r[i] == MapRow(rows[i], utcNow)
  {
    Map(rows, (row: FeedbackRow) => MapRow(row, utcNow))
  }

  function RowId(row: FeedbackRow): (id: nat) {
    row.id
  }

  /** How many rows `LIMIT count` keeps: a negative limit keeps them all, as in SQLite. */
  function LimitLength(count: int, n: nat): (k: nat)
    ensures k <= n
    ensures count < 0 ==> k == n
    ensures count >= 0 ==> k == if count < n then count else n
  {
    if 0 <= count < n then count else n
  }

  /** In a listing sorted by descending id, a record with a larger id than one in the first `n` is itself among them. */
  lemma NewerInPrefix(all: seq<FeedbackRecord>, n: nat, x: FeedbackRecord, i: nat)
    requires n <= |all| && i < n
    requires forall a, b :: 0 <= a < b < |all| ==> all[a].id >= all[b].id
    requires x in all && x.id > all[i].id
    ensures x in all[..n]
  {
    var p :| 0 <= p < |all| && all[p] == x;
    assert p < n;
    assert all[..n][p] == x;
  }

  /** `ORDER BY Id DESC` without a limit: every message read once, newest id first. */
  function Listing(t: seq<FeedbackRow>, utcNow: DateTime): (r: seq<FeedbackRecord>)
    ensures |r| == |t|
    ensures forall i, j :: 0 <= i < j < |r| ==> r[i].id >= r[j].id
    ensures multiset(r) == multiset(MapRows(t, utcNow))
  {
    var rows := SortDesc(t, RowId);
    MapPermutation(rows, t, (row: FeedbackRow) => MapRow(row, utcNow));
    var all := MapRows(rows, utcNow);
    forall a, b | 0 <= a < b < |all| ensures all[a].id >= all[b].id {
      assert RowId(rows[a]) >= RowId(rows[b]);
    }
    all
  }

  /**
   * `GetLatest(count)`: `ORDER BY Id DESC LIMIT @Count`. The listing is sorted
   * newest first, has `count` records (all of them when fewer or when
   * `count` is negative), reads each from the table, and never leaves out a
   * row newer than one it lists.
   */
  function GetLatest(t: seq<FeedbackRow>, count: int, utcNow: DateTime): (r: seq<FeedbackRecord>)
    ensures |r| == LimitLength(count, |t|)
    ensures r == Listing(t, utcNow)[..|r|]
    ensures forall i, j :: 0 <= i < j < |r| ==> r[i].id >= r[j].id
    ensures forall i :: 0 <= i < |r| ==> r[i] in MapRows(t, utcNow)
    ensures forall i, k :: 0 <= i < |r| && 0 <= k < |t| && t[k].id > r[i].id ==> MapRow(t[k], utcNow) in r
    ensures |r| == |t| ==> multiset(r) == multiset(MapRows(t, utcNow))
  {
    var n := LimitLength(count, |t|);
    ListingPrefix(t, utcNow, n);
    Listing(t, utcNow)[..n]
  }

  /** The first `n` entries of the listing are read from the table, and hold every row newer than any of them. */
  lemma ListingPrefix(t: seq<FeedbackRow>, utcNow: DateTime, n: nat)
    requires n <= |t|
    ensures var r := Listing(t, utcNow)[..n];
      && (forall i :: 0 <= i < |r| ==> r[i] in MapRows(t, utcNow))
      && (forall i, k :: 0 <= i < |r| && 0 <= k < |t| && t[k].id > r[i].id ==> MapRow(t[k], utcNow) in r)
      && (n == |t| ==> r == Listing(t, utcNow))
  {
    var all := Listing(t, utcNow);
    var m := MapRows(t, utcNow);
    var r := all[..n];
    forall i | 0 <= i < |r| ensures r[i] in m {
      assert r[i] == all[i];
      assert all[i] in multiset(m);
    }
    forall i, k | 0 <= i < |r| && 0 <= k < |t| && t[k].id > r[i].id ensures MapRow(t[k], utcNow) in r {
      assert m[k] in multiset(all);
      NewerInPrefix(all, n, m[k], i);
    }
  }

  /** `GetLatest()` with the default limit lists the 50 newest messages, or all when there are fewer. */
  lemma DefaultListsFifty(t: seq<FeedbackRow>, utcNow: DateTime)
    ensures |t| >= DefaultCount ==> |GetLatest(t, DefaultCount, utcNow)| == 50
    ensures |t| < DefaultCount ==> multiset(GetLatest(t, DefaultCount, utcNow)) == multiset(MapRows(t, utcNow))
  {
  }

  /** The record read back for a message `Insert` stored. */
  function InsertedReadback(feedbackType: Option<string>, message: Option<string>, userName: Option<string>, rowId: nat, utcNow: DateTime): (r: FeedbackRecord) {
    FeedbackRecord(rowId, feedbackType.GetOr(DefaultType), OrEmpty(message), utcNow, OrEmpty(userName))
  }

  /** In a table with increasing ids the full listing starts with the last row. */
  lemma NewestHeadsListing(u: seq<FeedbackRow>, utcNow: DateTime)
    requires Valid(u) && u != []
    ensures Listing(u, utcNow)[0] == MapRow(u[|u| - 1], utcNow)
  {
    var all := Listing(u, utcNow);
    var recordId := (r: FeedbackRecord) => r.id;
    assert SortedDesc(all, recordId);
    assert forall i, j :: 0 <= i < j < |u| ==> RowId(u[i]) < RowId(u[j]);
    SortedImageHead(u, all, (row: FeedbackRow) => MapRow(row, utcNow), RowId, recordId);
  }

  /** In a table with increasing ids, a listing of at least one record starts with the last row. */
  lemma LatestHead(u: seq<FeedbackRow>, count: int, utcNow: DateTime)
    requires Valid(u) && u != [] && count != 0
    ensures GetLatest(u, count, utcNow)[0] == MapRow(u[|u| - 1], utcNow)
  {
    NewestHeadsListing(u, utcNow);
    var r := GetLatest(u, count, utcNow);
    assert |r| > 0 && r[0] == Listing(u, utcNow)[0];
  }

  /**
   * Insert, then ask for the latest messages: the new one comes first, with
   * its defaults applied and the time it was stored (to the second).
   */
  lemma InsertThenGetLatest(t: seq<FeedbackRow>, feedbackType: Option<string>, message: Option<string>, userName: Option<string>, rowId: nat, utcNow: DateTime, count: int, later: DateTime)
    requires Valid(t) && FreshId(t, rowId) && count != 0
    ensures var u := Insert(t, feedbackType, message, userName, rowId, utcNow);
      GetLatest(u, count, later)[0] == InsertedReadback(feedbackType, message, userName, rowId, utcNow)
  {
    var u := Insert(t, feedbackType, message, userName, rowId, utcNow);
    InsertKeepsValid(t, feedbackType, message, userName, rowId, utcNow);
    LatestHead(u, count, later);
  }

  /** A smaller limit lists a prefix of what a larger one lists. */
  lemma LatestPrefix(t: seq<FeedbackRow>, small: int, large: int, utcNow: DateTime)
    requires 0 <= small <= large
    ensures GetLatest(t, small, utcNow) == GetLatest(t, large, utcNow)[..|GetLatest(t, small, utcNow)|]
  {
  }
}
