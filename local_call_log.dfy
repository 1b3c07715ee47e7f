/** The device's Room table `call_logs` and the queries of its data-access
    object: insert-or-ignore, the unsynced and recent listings, the existence
    count, marking rows as uploaded and purging old uploaded rows. */
module LocalCallLog {
  import opened Wrappers
  import opened Seqs

  /** A row of `call_logs`. `timestamp` is the start of the call in whole
      seconds; it stands for the row's ISO-8601 text, whose lexicographic order
      it shares. An `id` of 0 asks the database to generate one. */
  datatype CallLogEntity = CallLogEntity(
    id: int,
    phoneNumber: string,
    callType: string,
    duration: int,
    contactName: Option<string>,
    timestamp: int,
    staffId: string,
    isSynced: bool,
    phoneCallId: string)

  /** The rows in insertion order and the largest row id handed out so far. */
  datatype Table = Table(rows: seq<CallLogEntity>, lastRowId: int)

  predicate IdTaken(rows: seq<CallLogEntity>, id: int)
  {
    exists i :: 0 <= i < |rows| && rows[i].id == id
  }

  function RowId(e: CallLogEntity): int { e.id }

  /** The primary key is unique, never 0 and never above the row-id counter. */
  ghost predicate WellFormed(t: Table)
  {
    && t.lastRowId >= 0
    && DistinctBy(t.rows, RowId)
    && (forall i :: 0 <= i < |t.rows| ==> t.rows[i].id != 0 && t.rows[i].id <= t.lastRowId)
  }

  /** `insertCallLog` under `OnConflictStrategy.IGNORE`. A row whose key is
      already taken is dropped, the table is left as it was and -1 is returned.
      Otherwise the row is appended under its own key, or under the next row id
      when its key is 0, and that key is returned. */
  function Insert(t: Table, e: CallLogEntity): (r: (Table, int))
    ensures e.id != 0 && IdTaken(t.rows, e.id) ==> r == (t, -1)
    ensures !(e.id != 0 && IdTaken(t.rows, e.id)) ==>
      && r.1 == (if e.id == 0 then t.lastRowId + 1 else e.id)
      && r.0.rows == t.rows + [e.(id := r.1)]
      && r.0.lastRowId >= t.lastRowId
    ensures WellFormed(t) ==> WellFormed(r.0)
  {
    if e.id != 0 && IdTaken(t.rows, e.id) then (t, -1)
    else
      var id := if e.id == 0 then t.lastRowId + 1 else e.id;
      (Table(t.rows + [e.(id := id)], if id > t.lastRowId then id else t.lastRowId), id)
  }

  /** With the ignore strategy, inserting a row with an explicit key a second
      time changes nothing: the second insert finds the key taken. */
  lemma InsertIdempotent(t: Table, e: CallLogEntity)
    requires e.id != 0
    ensures var (t1, _) := Insert(t, e); Insert(t1, e) == (t1, -1)
  {
    var (t1, id) := Insert(t, e);
    if !IdTaken(t.rows, e.id) {
      assert t1.rows[|t.rows|].id == e.id;
    }
  }

  /** `insertAllCallLogs`: every row inserted in turn, each under the ignore strategy. */
  function InsertAll(t: Table, es: seq<CallLogEntity>): (r: Table)
    ensures |t.rows| <= |r.rows| <= |t.rows| + |es|
    ensures r.rows[..|t.rows|] == t.rows
    ensures WellFormed(t) ==> WellFormed(r)
    decreases |es|
  {
    if es == [] then t
    else
      var before := InsertAll(t, es[..|es| - 1]);
      var after := Insert(before, es[|es| - 1]).0;
      assert after.rows[..|before.rows|] == before.rows;
      after
  }

  predicate IsUnsynced(e: CallLogEntity) { !e.isSynced }

  function Timestamp(e: CallLogEntity): int { e.timestamp }

  /** `getUnsyncedCallLogs`: exactly the rows with `isSynced = 0`, each as often
      as it is stored, in non-decreasing timestamp order. */
  function UnsyncedCallLogs(rows: seq<CallLogEntity>): (r: seq<CallLogEntity>)
    ensures forall x :: multiset(r)[x] == if x.isSynced then 0 else multiset(rows)[x]
    ensures SortedAsc(r, Timestamp)
  {
    FilterMultiset(rows, IsUnsynced);
    SortAsc(Filter(rows, IsUnsynced), Timestamp)
  }

  /** `callLogExists`: the number of rows carrying the phone's call id. */
  function CallLogExists(rows: seq<CallLogEntity>, phoneCallId: string): (n: nat)
    ensures n <= |rows|
    ensures n > 0 <==> exists i :: 0 <= i < |rows| && rows[i].phoneCallId == phoneCallId
    decreases |rows|
  {
    if rows == [] then 0
    else
      var rest := CallLogExists(rows[1..], phoneCallId);
      assert forall i :: 1 <= i < |rows| ==> rows[i] == rows[1..][i - 1];
      (if rows[0].phoneCallId == phoneCallId then 1 else 0) + rest
  }

  /** The count is the size of the `WHERE phoneCallId = ?` selection. */
  lemma {:induction false} CallLogExistsCounts(rows: seq<CallLogEntity>, phoneCallId: string)
    ensures CallLogExists(rows, phoneCallId) == |Filter(rows, (e: CallLogEntity) => e.phoneCallId == phoneCallId)|
    decreases |rows|
  {
    if rows != [] {
      CallLogExistsCounts(rows[1..], phoneCallId);
    }
  }

  const RECENT_LIMIT: nat := 100

  /** `getRecentCallLogs`: at most 100 rows, newest first, taken from the table. */
  function RecentCallLogs(rows: seq<CallLogEntity>): (r: seq<CallLogEntity>)
    ensures |r| == if |rows| < RECENT_LIMIT then |rows| else RECENT_LIMIT
    ensures SortedDesc(r, Timestamp)
    ensures multiset(r) <= multiset(rows)
  {
    var sorted := SortDesc(rows, Timestamp);
    var r := Take(sorted, RECENT_LIMIT);
    assert sorted == r + sorted[|r|..];
    r
  }

  /** No row left out of the recent listing is newer than a row in it. */
  lemma RecentCallLogsAreNewest(rows: seq<CallLogEntity>)
    ensures var r := RecentCallLogs(rows);
      forall x, y :: x in r && y in rows && y !in r ==> x.timestamp >= y.timestamp
  {
    var sorted := SortDesc(rows, Timestamp);
    var r := Take(sorted, RECENT_LIMIT);
    assert RecentCallLogs(rows) == r;
    TakeOfSortedDescIsTop(sorted, rows, RECENT_LIMIT, Timestamp);
    forall x, y | x in r && y in rows && y !in r ensures x.timestamp >= y.timestamp {
      assert Timestamp(x) >= Timestamp(y);
    }
  }

  /** `getAllCallLogs`: every row, newest first. */
  function AllCallLogs(rows: seq<CallLogEntity>): (r: seq<CallLogEntity>)
    ensures multiset(r) == multiset(rows)
    ensures SortedDesc(r, Timestamp)
  {
    SortDesc(rows, Timestamp)
  }

  /** `markAsSynced(ids)`: the rows whose id is listed become synced; nothing
      else about any row changes. */
  function MarkSynced(rows: seq<CallLogEntity>, ids: set<int>): (r: seq<CallLogEntity>)
    ensures |r| == |rows|
    ensures forall i :: 0 <= i < |rows| ==>
      && r[i].isSynced == (rows[i].isSynced || rows[i].id in ids)
      && r[i].(isSynced := rows[i].isSynced) == rows[i]
    decreases |rows|
  {
    if rows == [] then []
    else
      var e := rows[0];
      [if e.id in ids then e.(isSynced := true) else e] + MarkSynced(rows[1..], ids)
  }

  /** Marking the same ids twice is marking them once. */
  lemma {:induction false} MarkSyncedIdempotent(rows: seq<CallLogEntity>, ids: set<int>)
    ensures MarkSynced(MarkSynced(rows, ids), ids) == MarkSynced(rows, ids)
    decreases |rows|
  {
    if rows != [] {
      MarkSyncedIdempotent(rows[1..], ids);
    }
  }

  /** Marking ids that no row carries changes nothing. */
  lemma {:induction false} MarkSyncedAbsent(rows: seq<CallLogEntity>, ids: set<int>)
    requires forall i :: 0 <= i < |rows| ==> rows[i].id !in ids
    ensures MarkSynced(rows, ids) == rows
    decreases |rows|
  {
    if rows != [] {
      MarkSyncedAbsent(rows[1..], ids);
    }
  }

  /** Marking works row by row: it distributes over concatenation. */
  lemma {:induction false} MarkSyncedConcat(a: seq<CallLogEntity>, b: seq<CallLogEntity>, ids: set<int>)
    ensures MarkSynced(a + b, ids) == MarkSynced(a, ids) + MarkSynced(b, ids)
    decreases |a|
  {
    if a == [] {
      assert a + b == b;
    } else {
      assert (a + b)[1..] == a[1..] + b;
      MarkSyncedConcat(a[1..], b, ids);
    }
  }

  /** After marking, the rows still waiting for upload are the ones that were
      waiting and are not listed, in the same order. */
  lemma {:induction false} MarkSyncedLeavesOthersUnsynced(rows: seq<CallLogEntity>, ids: set<int>)
    ensures Filter(MarkSynced(rows, ids), IsUnsynced) == Filter(rows, (e: CallLogEntity) => !e.isSynced && e.id !in ids)
    decreases |rows|
  {
    if rows != [] {
      MarkSyncedLeavesOthersUnsynced(rows[1..], ids);
      var e := rows[0];
      var m := MarkSynced(rows, ids);
      assert m[1..] == MarkSynced(rows[1..], ids);
    }
  }

  predicate KeptByPurge(e: CallLogEntity, cutoff: int)
  {
    !(e.isSynced && e.timestamp < cutoff)
  }

  /** `deleteOldSyncedLogs(cutoff)`: exactly the synced rows older than the
      cutoff are removed; the rest keep their order. */
  function DeleteOldSynced(rows: seq<CallLogEntity>, cutoff: int): (r: seq<CallLogEntity>)
    ensures |r| <= |rows|
    ensures forall x :: x in r <==> x in rows && !(x.isSynced && x.timestamp < cutoff)
  {
    Filter(rows, (e: CallLogEntity) => KeptByPurge(e, cutoff))
  }

  /** The purge never loses a row that still waits for upload: the unsynced
      listing is the same before and after. */
  lemma PurgeKeepsUnsynced(rows: seq<CallLogEntity>, cutoff: int)
    ensures UnsyncedCallLogs(DeleteOldSynced(rows, cutoff)) == UnsyncedCallLogs(rows)
  {
    PurgeKeepsUnsyncedRows(rows, cutoff);
  }

  lemma PurgeKeepsUnsyncedRows(rows: seq<CallLogEntity>, cutoff: int)
    ensures Filter(DeleteOldSynced(rows, cutoff), IsUnsynced) == Filter(rows, IsUnsynced)
  {
    FilterWeaker(rows, (e: CallLogEntity) => KeptByPurge(e, cutoff), IsUnsynced);
  }

  /** The table object: its rows and the row-id counter, changed in place by
      the data-access object's insert, update and delete statements. */
  class CallLogTable {
    var rows: seq<CallLogEntity>
    var lastRowId: int

    function State(): Table
      reads this
    {
      Table(rows, lastRowId)
    }

    ghost predicate Valid()
      reads this
    {
      WellFormed(State())
    }

    constructor()
      ensures Valid() && rows == [] && lastRowId == 0
    {
      rows := [];
      lastRowId := 0;
    }

    method InsertCallLog(e: CallLogEntity) returns (rowId: int)
      requires Valid()
      modifies this
      ensures Valid()
      ensures (State(), rowId) == Insert(old(State()), e)
    {
      var r := Insert(State(), e);
      rows, lastRowId, rowId := r.0.rows, r.0.lastRowId, r.1;
    }

    method InsertAllCallLogs(es: seq<CallLogEntity>)
      requires Valid()
      modifies this
      ensures Valid()
      ensures State() == InsertAll(old(State()), es)
    {
      var i := 0;
      while i < |es|
        invariant 0 <= i <= |es|
        invariant Valid()
        invariant State() == InsertAll(old(State()), es[..i])
      {
        assert es[..i + 1][..i] == es[..i];
        var _ := InsertCallLog(es[i]);
        i := i + 1;
      }
      assert es[..i] == es;
    }

    method MarkAsSynced(ids: seq<int>)
      requires Valid()
      modifies this
      ensures Valid()
      ensures rows == MarkSynced(old(rows), set id | id in ids) && lastRowId == old(lastRowId)
    {
      var marked := MarkSynced(rows, set id | id in ids);
      assert forall i :: 0 <= i < |rows| ==> marked[i].id == rows[i].id;
      rows := marked;
    }

    method DeleteOldSyncedLogs(cutoff: int)
      requires Valid()
      modifies this
      ensures Valid()
      ensures rows == DeleteOldSynced(old(rows), cutoff) && lastRowId == old(lastRowId)
    {
      FilterDistinctBy(rows, (e: CallLogEntity) => KeptByPurge(e, cutoff), RowId);
      rows := DeleteOldSynced(rows, cutoff);
    }
  }
}
