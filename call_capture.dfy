/** The phone-state receiver of the mobile app: the call-capture state machine
    driven by the telephony broadcasts RINGING, OFFHOOK and IDLE, and the
    persist step that an IDLE event starts, which looks the finished call up in
    the system call log, stores it once in the local table and uploads it. */
module CallCapture {
  import opened Wrappers
  import opened Seqs
  import opened Text
  import opened LocalCallLog

  /** The values of `TelephonyManager.EXTRA_STATE_*`. */
  const STATE_RINGING: string := "RINGING"
  const STATE_OFFHOOK: string := "OFFHOOK"
  const STATE_IDLE: string := "IDLE"

  /** The receiver's three static fields. */
  datatype Receiver = Receiver(callStartTime: int, incomingNumber: Option<string>, isCallActive: bool)

  const INITIAL: Receiver := Receiver(0, None, false)

  /** What an IDLE event hands to the persist step: the tracked number, the
      tracked start and the locally measured duration in seconds. */
  datatype SaveRequest = SaveRequest(phoneNumber: Option<string>, timestamp: int, duration: int)

  /** One broadcast: the state extra, the incoming-number extra and the clock. */
  datatype Event = Event(state: Option<string>, incomingNumber: Option<string>, now: int)

  /** Kotlin's `Long` division, which rounds toward zero. */
  function TruncDiv(a: int, b: int): (q: int)
    requires b > 0
    ensures a >= 0 ==> q == a / b
    ensures a < 0 ==> q == -((-a) / b)
  {
    if a >= 0 then a / b else -((-a) / b)
  }

  /** `onReceive` on the static fields: the new fields and the save it starts, if any. */
  function Step(s: Receiver, ev: Event): (r: (Receiver, Option<SaveRequest>))
    ensures ev.state == Some(STATE_RINGING) ==> r == (Receiver(ev.now, ev.incomingNumber, false), None)
    ensures ev.state == Some(STATE_OFFHOOK) ==> r.1 == None
    ensures ev.state == Some(STATE_OFFHOOK) && s.isCallActive ==> r.0 == s
    ensures ev.state == Some(STATE_OFFHOOK) && !s.isCallActive ==> r.0 == s.(callStartTime := ev.now, isCallActive := true)
    ensures ev.state == Some(STATE_IDLE) ==> !r.0.isCallActive && r.0.incomingNumber == None
    ensures ev.state == Some(STATE_IDLE) ==> (r.1.Some? <==> s.isCallActive || s.incomingNumber.Some?)
    ensures ev.state == Some(STATE_IDLE) && r.1.Some? ==>
      && r.1.value == SaveRequest(s.incomingNumber, s.callStartTime, TruncDiv(ev.now - s.callStartTime, 1000))
      && r.0 == INITIAL
    ensures ev.state == Some(STATE_IDLE) && r.1.None? ==> r.0 == s
    ensures ev.state != Some(STATE_RINGING) && ev.state != Some(STATE_OFFHOOK) && ev.state != Some(STATE_IDLE) ==> r == (s, None)
  {
    if ev.state == Some(STATE_RINGING) then
      (Receiver(ev.now, ev.incomingNumber, false), None)
    else if ev.state == Some(STATE_OFFHOOK) then
      (if s.isCallActive then s else s.(callStartTime := ev.now, isCallActive := true), None)
    else if ev.state == Some(STATE_IDLE) then
      if s.isCallActive || s.incomingNumber.Some? then
        (INITIAL, Some(SaveRequest(s.incomingNumber, s.callStartTime, TruncDiv(ev.now - s.callStartTime, 1000))))
      else (s, None)
    else (s, None)
  }

  /** A sequence of broadcasts: the final fields and the saves started, in order. */
  function Run(s: Receiver, events: seq<Event>): (Receiver, seq<SaveRequest>)
    decreases |events|
  {
    if events == [] then (s, [])
    else
      var step := Step(s, events[0]);
      var rest := Run(step.0, events[1..]);
      (rest.0, (if step.1.Some? then [step.1.value] else []) + rest.1)
  }

  function IdleCount(events: seq<Event>): nat
    decreases |events|
  {
    if events == [] then 0
    else (if events[0].state == Some(STATE_IDLE) then 1 else 0) + IdleCount(events[1..])
  }

  /** Every save is started by its own IDLE broadcast. */
  lemma {:induction false} SavesAtMostIdles(s: Receiver, events: seq<Event>)
    ensures |Run(s, events).1| <= IdleCount(events)
    decreases |events|
  {
    if events != [] {
      SavesAtMostIdles(Step(s, events[0]).0, events[1..]);
    }
  }

  lemma StatesDistinct()
    ensures STATE_RINGING != STATE_OFFHOOK && STATE_RINGING != STATE_IDLE && STATE_OFFHOOK != STATE_IDLE
  {
    assert STATE_RINGING[0] != STATE_OFFHOOK[0];
    assert |STATE_IDLE| != |STATE_RINGING| && |STATE_IDLE| != |STATE_OFFHOOK|;
  }

  /** An answered incoming call, RINGING then OFFHOOK then IDLE, starts exactly
      one save, with the caller's number, the time of answering and the talk
      time, and leaves the receiver reset. */
  lemma AnsweredCall(s: Receiver, number: Option<string>, t0: int, t1: int, t2: int)
    ensures Run(s, [Event(Some(STATE_RINGING), number, t0), Event(Some(STATE_OFFHOOK), None, t1), Event(Some(STATE_IDLE), None, t2)])
      == (INITIAL, [SaveRequest(number, t1, TruncDiv(t2 - t1, 1000))])
  {
    StatesDistinct();
    var evs := [Event(Some(STATE_RINGING), number, t0), Event(Some(STATE_OFFHOOK), None, t1), Event(Some(STATE_IDLE), None, t2)];
    var save := SaveRequest(number, t1, TruncDiv(t2 - t1, 1000));
    var s1 := Receiver(t0, number, false);
    var s2 := Receiver(t1, number, true);
    assert Step(s, evs[0]) == (s1, None);
    assert Step(s1, evs[1]) == (s2, None);
    assert Step(s2, evs[2]) == (INITIAL, Some(save));
    assert evs[2..] == [evs[2]] && evs[2..][1..] == [];
    assert [save] + [] == [save];
    assert Run(s2, evs[2..]) == (INITIAL, [save]);
    assert evs[1..][1..] == evs[2..];
    var none: seq<SaveRequest> := [];
    assert none + [save] == [save];
    assert Run(s1, evs[1..]) == (INITIAL, [save]);
  }

  /** A call that rings and stops, RINGING then IDLE, starts exactly one save
      timed from the ring, provided the ringing broadcast carried a number. */
  lemma UnansweredCall(s: Receiver, number: Option<string>, t0: int, t2: int)
    requires number.Some?
    ensures Run(s, [Event(Some(STATE_RINGING), number, t0), Event(Some(STATE_IDLE), None, t2)])
      == (INITIAL, [SaveRequest(number, t0, TruncDiv(t2 - t0, 1000))])
  {
    StatesDistinct();
    var evs := [Event(Some(STATE_RINGING), number, t0), Event(Some(STATE_IDLE), None, t2)];
    var save := SaveRequest(number, t0, TruncDiv(t2 - t0, 1000));
    var s1 := Receiver(t0, number, false);
    assert Step(s, evs[0]) == (s1, None);
    assert Step(s1, evs[1]) == (INITIAL, Some(save));
    assert evs[1..] == [evs[1]] && evs[1..][1..] == [];
    assert [save] + [] == [save];
    assert Run(s1, evs[1..]) == (INITIAL, [save]);
    var none: seq<SaveRequest> := [];
    assert none + [save] == [save];
  }

  /** A call that rings and stops without the ringing broadcast carrying a
      number is never saved: nothing marks it as tracked. */
  lemma UnansweredWithheldCall(s: Receiver, t0: int, t2: int)
    ensures Run(s, [Event(Some(STATE_RINGING), None, t0), Event(Some(STATE_IDLE), None, t2)])
      == (Receiver(t0, None, false), [])
  {
    StatesDistinct();
    var evs := [Event(Some(STATE_RINGING), None, t0), Event(Some(STATE_IDLE), None, t2)];
    var s1 := Receiver(t0, None, false);
    assert Step(s, evs[0]) == (s1, None);
    assert Step(s1, evs[1]) == (s1, None);
    assert evs[1..] == [evs[1]] && evs[1..][1..] == [];
    var none: seq<SaveRequest> := [];
    assert none + none == none;
    assert Run(s1, evs[1..]) == (s1, []);
  }

  /** An outgoing call from the reset receiver, OFFHOOK then IDLE, starts
      exactly one save, without a number. */
  lemma OutgoingCall(t1: int, t2: int)
    ensures Run(INITIAL, [Event(Some(STATE_OFFHOOK), None, t1), Event(Some(STATE_IDLE), None, t2)])
      == (INITIAL, [SaveRequest(None, t1, TruncDiv(t2 - t1, 1000))])
  {
    StatesDistinct();
    var evs := [Event(Some(STATE_OFFHOOK), None, t1), Event(Some(STATE_IDLE), None, t2)];
    var save := SaveRequest(None, t1, TruncDiv(t2 - t1, 1000));
    var s1 := Receiver(t1, None, true);
    assert Step(INITIAL, evs[0]) == (s1, None);
    assert Step(s1, evs[1]) == (INITIAL, Some(save));
    assert evs[1..] == [evs[1]] && evs[1..][1..] == [];
    assert [save] + [] == [save];
    assert Run(s1, evs[1..]) == (INITIAL, [save]);
    var none: seq<SaveRequest> := [];
    assert none + [save] == [save];
  }

  /** A second IDLE in a row starts no second save. */
  lemma IdleTwice(s: Receiver, ev1: Event, ev2: Event)
    requires ev1.state == Some(STATE_IDLE) && ev2.state == Some(STATE_IDLE)
    ensures var s1 := Step(s, ev1).0; Step(s1, ev2) == (s1, None)
  {
  }

  /** The receiver object, whose fields every broadcast updates in place. */
  class CallStateTracker {
    var callStartTime: int
    var incomingNumber: Option<string>
    var isCallActive: bool

    function Fields(): Receiver
      reads this
    {
      Receiver(callStartTime, incomingNumber, isCallActive)
    }

    constructor()
      ensures Fields() == INITIAL
    {
      callStartTime := 0;
      incomingNumber := None;
      isCallActive := false;
    }

    method OnReceive(ev: Event) returns (save: Option<SaveRequest>)
      modifies this
      ensures (Fields(), save) == Step(old(Fields()), ev)
    {
      save := None;
      if ev.state == Some(STATE_RINGING) {
        incomingNumber := ev.incomingNumber;
        callStartTime := ev.now;
        isCallActive := false;
      } else if ev.state == Some(STATE_OFFHOOK) {
        if !isCallActive {
          callStartTime := ev.now;
          isCallActive := true;
        }
      } else if ev.state == Some(STATE_IDLE) {
        if isCallActive || incomingNumber.Some? {
          var duration := TruncDiv(ev.now - callStartTime, 1000);
          save := Some(SaveRequest(incomingNumber, callStartTime, duration));
          incomingNumber := None;
          isCallActive := false;
          callStartTime := 0;
        }
      }
    }
  }

  /** The `CallLog.Calls.TYPE` codes the receiver names. */
  const INCOMING_TYPE: int := 1
  const OUTGOING_TYPE: int := 2
  const MISSED_TYPE: int := 3

  /** The call-type mapping: the three known codes are named, every other code is "UNKNOWN". */
  function CallTypeName(code: int): (name: string)
    ensures name == "INCOMING" <==> code == INCOMING_TYPE
    ensures name == "OUTGOING" <==> code == OUTGOING_TYPE
    ensures name == "MISSED" <==> code == MISSED_TYPE
    ensures name == "UNKNOWN" <==> code != INCOMING_TYPE && code != OUTGOING_TYPE && code != MISSED_TYPE
  {
    if code == INCOMING_TYPE then "INCOMING"
    else if code == OUTGOING_TYPE then "OUTGOING"
    else if code == MISSED_TYPE then "MISSED"
    else "UNKNOWN"
  }

  /** A row of the system call log, with the columns the query reads. */
  datatype ProviderRow = ProviderRow(
    id: string,
    number: Option<string>,
    typeCode: int,
    date: int,
    duration: int,
    cachedName: Option<string>)

  /** The details the persist step reads back from the call log. */
  datatype CallDetails = CallDetails(
    callId: string,
    number: string,
    callType: string,
    duration: int,
    contactName: Option<string>,
    timestamp: int)

  function ProviderDate(p: ProviderRow): int { p.date }

  const LOOKBACK_MS: int := 60000

  /** The query `DATE > since ORDER BY DATE DESC LIMIT 1`: the newest row logged
      after `since`, and none exactly when every row is older. */
  function LatestCallSince(provider: seq<ProviderRow>, since: int): (r: Option<ProviderRow>)
    ensures r.None? <==> forall p :: p in provider ==> p.date <= since
    ensures r.Some? ==> r.value in provider && r.value.date > since
    ensures r.Some? ==> forall p :: p in provider && p.date > since ==> p.date <= r.value.date
    decreases |provider|
  {
    if provider == [] then None
    else
      var rest := LatestCallSince(provider[1..], since);
      var p := provider[0];
      assert forall q :: q in provider <==> q == p || q in provider[1..];
      if p.date <= since then rest
      else if rest.Some? && rest.value.date > p.date then rest
      else Some(p)
  }

  /** The details read from row `p`: a missing number becomes "Unknown", the
      type code is named and the date is cut to whole seconds. */
  predicate ReadsAs(p: ProviderRow, d: CallDetails)
  {
    d == CallDetails(p.id, p.number.GetOr("Unknown"), CallTypeName(p.typeCode), p.duration, p.cachedName, p.date / 1000)
  }

  /** `getCallDetailsFromLog`: the newest call logged in the minute before
      `queryTime`, with a missing number read as "Unknown", the type code named
      and the date cut to whole seconds; nothing when no call was logged in that
      minute. The number and start time the receiver tracked play no part. */
  function CallDetailsFromLog(provider: seq<ProviderRow>, queryTime: int): (r: Option<CallDetails>)
    ensures r.None? <==> forall p :: p in provider ==> p.date <= queryTime - LOOKBACK_MS
    ensures r.Some? ==> exists p ::
      && ReadsAs(p, r.value) && p in provider && p.date > queryTime - LOOKBACK_MS
      && forall q :: q in provider && q.date > queryTime - LOOKBACK_MS ==> q.date <= p.date
  {
    match LatestCallSince(provider, queryTime - LOOKBACK_MS)
    case None => None
    case Some(p) =>
      Some(CallDetails(p.id, p.number.GetOr("Unknown"), CallTypeName(p.typeCode), p.duration, p.cachedName, p.date / 1000))
  }

  /** The entity the persist step builds: not yet synced, and with the default id 0. */
  function NewEntity(d: CallDetails, staffId: string): (e: CallLogEntity)
    ensures e.id == 0 && !e.isSynced && e.phoneCallId == d.callId && e.duration == d.duration
  {
    CallLogEntity(0, d.number, d.callType, d.duration, d.contactName, d.timestamp, staffId, false, d.callId)
  }

  /** How a persist step ended. */
  datatype SaveOutcome = NotLoggedIn | NoStaffId | NoCallDetails | AlreadyStored | Stored(rowId: int)

  /** `syncToServer` as written: after a successful upload it marks the id of the
      entity it was handed, which is the one built before the insert. */
  method SyncToServerAsWritten(table: CallLogTable, entity: CallLogEntity, uploadOk: bool)
    requires table.Valid()
    modifies table
    ensures table.Valid()
    ensures table.rows == (if uploadOk then MarkSynced(old(table.rows), {entity.id}) else old(table.rows))
    ensures table.lastRowId == old(table.lastRowId)
  {
    if uploadOk {
      table.MarkAsSynced([entity.id]);
    }
  }

  /** As written, the call just stored stays unsynced after a successful upload:
      no stored row has the id 0, so marking it marks nothing, and a later sync
      of the unsynced rows uploads it a second time. */
  lemma AsWrittenSyncLeavesStoredCallUnsynced(t: Table, d: CallDetails, staffId: string)
    requires WellFormed(t)
    ensures var e := NewEntity(d, staffId);
      var (t1, rowId) := Insert(t, e);
      && rowId == t.lastRowId + 1
      && MarkSynced(t1.rows, {e.id}) == t1.rows
      && e.(id := rowId) in Filter(MarkSynced(t1.rows, {e.id}), IsUnsynced)
  {
    var e := NewEntity(d, staffId);
    var (t1, rowId) := Insert(t, e);
    MarkSyncedAbsent(t1.rows, {e.id});
    assert t1.rows[|t.rows|] == e.(id := rowId);
  }

  /** `syncToServer` with the row id the insert returned: after a successful
      upload that row, and no other, is marked as synced. */
  method SyncToServer(table: CallLogTable, rowId: int, uploadOk: bool)
    requires table.Valid()
    modifies table
    ensures table.Valid()
    ensures table.rows == (if uploadOk then MarkSynced(old(table.rows), {rowId}) else old(table.rows))
    ensures table.lastRowId == old(table.lastRowId)
  {
    if uploadOk {
      table.MarkAsSynced([rowId]);
    }
  }

  /** Marking the id the insert returned syncs exactly the stored call. */
  lemma CorrectedSyncMarksStoredCall(t: Table, d: CallDetails, staffId: string)
    requires WellFormed(t)
    ensures var e := NewEntity(d, staffId);
      var (t1, rowId) := Insert(t, e);
      var after := MarkSynced(t1.rows, {rowId});
      && |after| == |t.rows| + 1
      && after[|t.rows|] == e.(id := rowId, isSynced := true)
      && after[..|t.rows|] == t.rows
  {
    var e := NewEntity(d, staffId);
    var (t1, rowId) := Insert(t, e);
    var after := MarkSynced(t1.rows, {rowId});
    forall i | 0 <= i < |t.rows| ensures after[i] == t.rows[i] {
      assert t1.rows[i] == t.rows[i];
    }
  }

  /** The part of `saveCallToDatabase` before the upload: without a non-blank
      session token, or when the profile lookup yields no staff id, or when the
      call log shows no call in the last minute, or when a row with the call's
      id is already stored, nothing changes. Otherwise the call is inserted
      once, unsynced, under the next row id, with the duration the call log
      records. */
  method StoreCall(table: CallLogTable, token: Option<string>, staffId: Option<string>,
                   provider: seq<ProviderRow>, queryTime: int) returns (outcome: SaveOutcome)
    requires table.Valid()
    modifies table
    ensures table.Valid()
    ensures outcome == NotLoggedIn <==> token.None? || IsBlank(token.value)
    ensures outcome == NotLoggedIn || outcome == NoStaffId || outcome == NoCallDetails || outcome == AlreadyStored ==>
      table.rows == old(table.rows) && table.lastRowId == old(table.lastRowId)
    ensures outcome == NoStaffId <==> !(token.None? || IsBlank(token.value)) && staffId.None?
    ensures outcome == NoCallDetails <==>
      !(token.None? || IsBlank(token.value)) && staffId.Some? && CallDetailsFromLog(provider, queryTime).None?
    ensures outcome == AlreadyStored <==>
      && !(token.None? || IsBlank(token.value)) && staffId.Some? && CallDetailsFromLog(provider, queryTime).Some?
      && CallLogExists(old(table.rows), CallDetailsFromLog(provider, queryTime).value.callId) > 0
    ensures outcome.Stored? ==>
      && staffId.Some? && CallDetailsFromLog(provider, queryTime).Some?
      && var e := NewEntity(CallDetailsFromLog(provider, queryTime).value, staffId.value);
      && outcome.rowId == old(table.lastRowId) + 1
      && table.rows == old(table.rows) + [e.(id := outcome.rowId)]
  {
    if token.None? || IsBlank(token.value) {
      return NotLoggedIn;
    }
    if staffId.None? {
      return NoStaffId;
    }
    var details := CallDetailsFromLog(provider, queryTime);
    if details.None? {
      return NoCallDetails;
    }
    var entity := NewEntity(details.value, staffId.value);
    if CallLogExists(table.rows, details.value.callId) > 0 {
      return AlreadyStored;
    }
    var rowId := table.InsertCallLog(entity);
    outcome := Stored(rowId);
  }

  /** `saveCallToDatabase` as written: the call is stored as `StoreCall` says and
      then handed to `SyncToServerAsWritten` as the entity built before the
      insert, whose id is 0. The stored row therefore stays unsynced whether or
      not the upload succeeds. */
  method SaveCallToDatabase(table: CallLogTable, req: SaveRequest, token: Option<string>,
                            staffId: Option<string>, provider: seq<ProviderRow>, queryTime: int,
                            uploadOk: bool) returns (outcome: SaveOutcome)
    requires table.Valid()
    modifies table
    ensures table.Valid()
    ensures outcome == NotLoggedIn <==> token.None? || IsBlank(token.value)
    ensures outcome == NotLoggedIn || outcome == NoStaffId || outcome == NoCallDetails || outcome == AlreadyStored ==>
      table.rows == old(table.rows) && table.lastRowId == old(table.lastRowId)
    ensures outcome == NoStaffId <==> !(token.None? || IsBlank(token.value)) && staffId.None?
    ensures outcome == NoCallDetails <==>
      !(token.None? || IsBlank(token.value)) && staffId.Some? && CallDetailsFromLog(provider, queryTime).None?
    ensures outcome == AlreadyStored <==>
      && !(token.None? || IsBlank(token.value)) && staffId.Some? && CallDetailsFromLog(provider, queryTime).Some?
      && CallLogExists(old(table.rows), CallDetailsFromLog(provider, queryTime).value.callId) > 0
    ensures outcome.Stored? ==>
      && staffId.Some? && CallDetailsFromLog(provider, queryTime).Some?
      && var e := NewEntity(CallDetailsFromLog(provider, queryTime).value, staffId.value);
      && outcome.rowId == old(table.lastRowId) + 1
      && table.rows == old(table.rows) + [e.(id := outcome.rowId)]
  {
    outcome := StoreCall(table, token, staffId, provider, queryTime);
    if outcome.Stored? {
      var entity := NewEntity(CallDetailsFromLog(provider, queryTime).value, staffId.value);
      ghost var inserted := table.rows;
      SyncToServerAsWritten(table, entity, uploadOk);
      MarkSyncedAbsent(inserted, {entity.id});
    }
  }

  /** `saveCallToDatabase` with the corrected sync: as `StoreCall`, and then the
      row id the insert returned is marked as synced if the upload succeeds. */
  method SaveCallToDatabaseCorrected(table: CallLogTable, req: SaveRequest, token: Option<string>,
                                     staffId: Option<string>, provider: seq<ProviderRow>, queryTime: int,
                                     uploadOk: bool) returns (outcome: SaveOutcome)
    requires table.Valid()
    modifies table
    ensures table.Valid()
    ensures outcome == NotLoggedIn <==> token.None? || IsBlank(token.value)
    ensures outcome == NotLoggedIn || outcome == NoStaffId || outcome == NoCallDetails || outcome == AlreadyStored ==>
      table.rows == old(table.rows) && table.lastRowId == old(table.lastRowId)
    ensures outcome == NoStaffId <==> !(token.None? || IsBlank(token.value)) && staffId.None?
    ensures outcome == NoCallDetails <==>
      !(token.None? || IsBlank(token.value)) && staffId.Some? && CallDetailsFromLog(provider, queryTime).None?
    ensures outcome == AlreadyStored <==>
      && !(token.None? || IsBlank(token.value)) && staffId.Some? && CallDetailsFromLog(provider, queryTime).Some?
      && CallLogExists(old(table.rows), CallDetailsFromLog(provider, queryTime).value.callId) > 0
    ensures outcome.Stored? ==>
      && staffId.Some? && CallDetailsFromLog(provider, queryTime).Some?
      && var e := NewEntity(CallDetailsFromLog(provider, queryTime).value, staffId.value);
      && outcome.rowId == old(table.lastRowId) + 1
      && table.rows == old(table.rows) + [e.(id := outcome.rowId, isSynced := uploadOk)]
  {
    ghost var before := table.rows;
    outcome := StoreCall(table, token, staffId, provider, queryTime);
    if outcome.Stored? {
      var entity := NewEntity(CallDetailsFromLog(provider, queryTime).value, staffId.value);
      SyncToServer(table, outcome.rowId, uploadOk);
      CorrectedSyncRows(before, entity.(id := outcome.rowId), uploadOk);
    }
  }

  /** Marking the id of the last row, when no earlier row has it, syncs that row only. */
  lemma CorrectedSyncRows(before: seq<CallLogEntity>, e: CallLogEntity, uploadOk: bool)
    requires forall i :: 0 <= i < |before| ==> before[i].id != e.id
    requires !e.isSynced
    ensures (if uploadOk then MarkSynced(before + [e], {e.id}) else before + [e]) == before + [e.(isSynced := uploadOk)]
  {
    if uploadOk {
      MarkSyncedConcat(before, [e], {e.id});
      MarkSyncedAbsent(before, {e.id});
      assert MarkSynced([e], {e.id}) == [e.(isSynced := true)];
    } else {
      assert e.(isSynced := false) == e;
    }
  }
}
