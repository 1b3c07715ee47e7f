/** The backend's `call_logs` repository: the ordered finders, the existence
    check used to skip uploads already stored, and the native query that
    deletes duplicate rows, keeping per (phone number, timestamp, staff) group
    the row with the smallest id. */
module RemoteCallLogs {
  import opened Wrappers
  import opened Seqs

  /** A stored call. Ids are UUIDs; here they are integers ordered as the
      database orders the id column. */
  datatype CallLog = CallLog(
    id: int,
    phoneNumber: string,
    timestamp: int,
    staffId: int,
    phoneCallId: Option<string>,
    jobId: Option<int>)

  /** The columns a duplicate agrees on. */
  datatype DupKey = DupKey(phoneNumber: string, timestamp: int, staffId: int)

  function Key(c: CallLog): DupKey { DupKey(c.phoneNumber, c.timestamp, c.staffId) }

  function Id(c: CallLog): int { c.id }

  function Timestamp(c: CallLog): int { c.timestamp }

  /** `c` has the smallest id of its group in `rows`: it is the group's `MIN(id)`. */
  predicate IsGroupMin(rows: seq<CallLog>, c: CallLog)
  {
    forall q :: q in rows && Key(q) == Key(c) ==> c.id <= q.id
  }

  /** The rows `deleteDuplicates` keeps: those whose id is the minimum of their group. */
  function Survivors(rows: seq<CallLog>): (r: seq<CallLog>)
    ensures |r| <= |rows|
    ensures forall c :: c in r <==> c in rows && IsGroupMin(rows, c)
  {
    Filter(rows, (c: CallLog) => IsGroupMin(rows, c))
  }

  /** The row of smallest id in a non-empty sequence. */
  function MinById(g: seq<CallLog>): (m: CallLog)
    requires |g| > 0
    ensures m in g && forall q :: q in g ==> m.id <= q.id
    decreases |g|
  {
    if |g| == 1 then g[0]
    else
      var rest := MinById(g[1..]);
      assert forall q :: q in g ==> q == g[0] || q in g[1..];
      if g[0].id <= rest.id then g[0] else rest
  }

  /** After the delete no two rows share a (phone number, timestamp, staff) key. */
  lemma SurvivorsHaveDistinctKeys(rows: seq<CallLog>)
    requires DistinctBy(rows, Id)
    ensures DistinctBy(Survivors(rows), Key)
  {
    var s := Survivors(rows);
    FilterDistinctBy(rows, (c: CallLog) => IsGroupMin(rows, c), Id);
    forall i, j | 0 <= i < j < |s| ensures Key(s[i]) != Key(s[j]) {
      assert Id(s[i]) != Id(s[j]);
      assert s[i] in s && s[j] in s;
    }
  }

  /** Every group keeps a row, and the row it keeps has the group's smallest id. */
  lemma EachGroupKeepsItsMinimum(rows: seq<CallLog>, c: CallLog)
    requires c in rows
    ensures exists m :: m in Survivors(rows) && Key(m) == Key(c)
    ensures forall m :: m in Survivors(rows) && Key(m) == Key(c) ==>
      forall q :: q in rows && Key(q) == Key(c) ==> m.id <= q.id
  {
    var g := Filter(rows, (q: CallLog) => Key(q) == Key(c));
    assert c in g;
    var m := MinById(g);
    assert IsGroupMin(rows, m);
    assert m in Survivors(rows);
  }

  /** A row whose key no other row shares survives the delete. */
  lemma UniqueKeyRowSurvives(rows: seq<CallLog>, c: CallLog)
    requires c in rows
    requires forall q :: q in rows && Key(q) == Key(c) ==> q == c
    ensures c in Survivors(rows)
  {
  }

  /** A second delete finds nothing to delete. */
  lemma SurvivorsIdempotent(rows: seq<CallLog>)
    ensures Survivors(Survivors(rows)) == Survivors(rows)
  {
    var s := Survivors(rows);
    forall c | c in s ensures IsGroupMin(s, c) {
      forall q | q in s && Key(q) == Key(c) ensures c.id <= q.id {
        assert q in rows;
      }
    }
    FilterAll(s, (c: CallLog) => IsGroupMin(s, c));
  }

  /** `existsByPhoneCallIdAndStaffId`, scanning the rows. */
  function ExistsByPhoneCallIdAndStaffId(rows: seq<CallLog>, phoneCallId: string, staffId: int): (b: bool)
    ensures b <==> exists c :: c in rows && c.phoneCallId == Some(phoneCallId) && c.staffId == staffId
    decreases |rows|
  {
    if rows == [] then false
    else
      assert forall q :: q in rows ==> q == rows[0] || q in rows[1..];
      (rows[0].phoneCallId == Some(phoneCallId) && rows[0].staffId == staffId)
      || ExistsByPhoneCallIdAndStaffId(rows[1..], phoneCallId, staffId)
  }

  /** `findByStaffIdOrderByTimestampDesc`: that staff member's rows, each as often
      as stored, newest first. */
  function FindByStaffId(rows: seq<CallLog>, staffId: int): (r: seq<CallLog>)
    ensures forall c :: multiset(r)[c] == if c.staffId == staffId then multiset(rows)[c] else 0
    ensures SortedDesc(r, Timestamp)
  {
    var p := (c: CallLog) => c.staffId == staffId;
    FilterMultiset(rows, p);
    SortDesc(Filter(rows, p), Timestamp)
  }

  /** `findByJobIdOrderByTimestampDesc`: the rows of that job, newest first. */
  function FindByJobId(rows: seq<CallLog>, jobId: int): (r: seq<CallLog>)
    ensures forall c :: multiset(r)[c] == if c.jobId == Some(jobId) then multiset(rows)[c] else 0
    ensures SortedDesc(r, Timestamp)
  {
    var p := (c: CallLog) => c.jobId == Some(jobId);
    FilterMultiset(rows, p);
    SortDesc(Filter(rows, p), Timestamp)
  }

  /** `findAllByOrderByTimestampDesc`: every row, newest first. */
  function FindAll(rows: seq<CallLog>): (r: seq<CallLog>)
    ensures multiset(r) == multiset(rows)
    ensures SortedDesc(r, Timestamp)
  {
    SortDesc(rows, Timestamp)
  }

  /** The table, changed in place by the delete. Ids are its primary key. */
  class CallLogStore {
    var rows: seq<CallLog>

    ghost predicate Valid()
      reads this
    {
      DistinctBy(rows, Id)
    }

    constructor(initial: seq<CallLog>)
      requires DistinctBy(initial, Id)
      ensures Valid() && rows == initial
    {
      rows := initial;
    }

    /** `deleteDuplicates`: the statement's row count is the number of rows removed. */
    method DeleteDuplicates() returns (deleted: nat)
      requires Valid()
      modifies this
      ensures Valid()
      ensures rows == Survivors(old(rows))
      ensures deleted == |old(rows)| - |rows|
    {
      var before := rows;
      var kept := Survivors(before);
      FilterDistinctBy(before, (c: CallLog) => IsGroupMin(before, c), Id);
      deleted := |before| - |kept|;
      rows := kept;
    }
  }

  /** Running the delete twice: the second run deletes no row. */
  method DeleteDuplicatesTwice(store: CallLogStore) returns (first: nat, second: nat)
    requires store.Valid()
    modifies store
    ensures second == 0
  {
    first := store.DeleteDuplicates();
    SurvivorsIdempotent(old(store.rows));
    second := store.DeleteDuplicates();
  }
}
