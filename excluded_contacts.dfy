/** The backend's excluded-contact registry: numbers whose calls the dashboard
    hides. Every endpoint compares numbers after `NormalizePhone`, while the
    table stores each number as it was sent and has a unique constraint on it. */
module ExcludedContacts {
  import opened Wrappers
  import opened Seqs
  import opened PhoneNumbers

  /** A row of `excluded_contacts`; the UUID id is an integer here and
      `createdAt` the time of the save. */
  datatype ExcludedContact = ExcludedContact(id: int, phoneNumber: string, contactName: Option<string>, createdAt: int)

  /** The table, with the next id the database would hand out. */
  datatype Registry = Registry(contacts: seq<ExcludedContact>, nextId: int)

  function Id(c: ExcludedContact): int { c.id }

  function Phone(c: ExcludedContact): string { c.phoneNumber }

  /** The stored number as the controller compares it. */
  function Normalized(c: ExcludedContact): string { NormalizePhone(c.phoneNumber) }

  /** Ids are a primary key, numbers are unique as stored, and the next id is fresh. */
  ghost predicate WellFormed(reg: Registry)
  {
    && DistinctBy(reg.contacts, Id)
    && DistinctBy(reg.contacts, Phone)
    && forall c :: c in reg.contacts ==> c.id < reg.nextId
  }

  /** No two stored numbers normalise alike. */
  ghost predicate NormalizedDistinct(cs: seq<ExcludedContact>)
  {
    DistinctBy(cs, Normalized)
  }

  /** `findAll().any { normalizePhone(it.phoneNumber) == n }`. */
  function HasMatch(cs: seq<ExcludedContact>, n: string): (b: bool)
    ensures b <==> exists c :: c in cs && Normalized(c) == n
    decreases |cs|
  {
    if cs == [] then false
    else
      assert forall c :: c in cs ==> c == cs[0] || c in cs[1..];
      Normalized(cs[0]) == n || HasMatch(cs[1..], n)
  }

  /** `findAll().find { normalizePhone(it.phoneNumber) == n }`. */
  function FindMatch(cs: seq<ExcludedContact>, n: string): (r: Option<ExcludedContact>)
    ensures r.None? <==> !HasMatch(cs, n)
    ensures r.Some? ==> r.value in cs && Normalized(r.value) == n
    decreases |cs|
  {
    if cs == [] then None
    else if Normalized(cs[0]) == n then Some(cs[0])
    else FindMatch(cs[1..], n)
  }

  /** The entry found is the first of the entries that normalise to `n`. */
  lemma {:induction false} FindMatchIsFirst(cs: seq<ExcludedContact>, n: string)
    ensures var matching := Filter(cs, (c: ExcludedContact) => Normalized(c) == n);
      FindMatch(cs, n) == if matching == [] then None else Some(matching[0])
    decreases |cs|
  {
    if cs != [] {
      FindMatchIsFirst(cs[1..], n);
    }
  }

  /** `isExcluded`: some stored number normalises like `phone`. */
  function IsExcluded(cs: seq<ExcludedContact>, phone: string): (b: bool)
    ensures b <==> exists c :: c in cs && Normalized(c) == NormalizePhone(phone)
  {
    HasMatch(cs, NormalizePhone(phone))
  }

  /** `getAllExcludedPhones`: the stored numbers, as stored, in table order. */
  function Phones(cs: seq<ExcludedContact>): (r: seq<string>)
    ensures |r| == |cs| && forall i :: 0 <= i < |cs| ==> r[i] == cs[i].phoneNumber
    decreases |cs|
  {
    if cs == [] then [] else [cs[0].phoneNumber] + Phones(cs[1..])
  }

  /** `addExcluded`: the first stored entry that normalises like the request is
      returned and nothing is saved; otherwise the raw number is saved with the
      next id and returned. */
  function Add(reg: Registry, phone: string, name: Option<string>, now: int): (r: (Registry, ExcludedContact))
    ensures r.1 in r.0.contacts && Normalized(r.1) == NormalizePhone(phone)
    ensures HasMatch(reg.contacts, NormalizePhone(phone)) ==>
      r.0 == reg && FindMatch(reg.contacts, NormalizePhone(phone)) == Some(r.1)
    ensures !HasMatch(reg.contacts, NormalizePhone(phone)) ==>
      && r.1 == ExcludedContact(reg.nextId, phone, name, now)
      && r.0 == Registry(reg.contacts + [r.1], reg.nextId + 1)
  {
    var n := NormalizePhone(phone);
    match FindMatch(reg.contacts, n)
    case Some(e) => (reg, e)
    case None =>
      var c := ExcludedContact(reg.nextId, phone, name, now);
      (Registry(reg.contacts + [c], reg.nextId + 1), c)
  }

  /** `addExcluded` keeps the table's keys and, when stored numbers normalise
      apart, keeps them apart. */
  lemma AddKeepsInvariants(reg: Registry, phone: string, name: Option<string>, now: int)
    ensures WellFormed(reg) ==> WellFormed(Add(reg, phone, name, now).0)
    ensures NormalizedDistinct(reg.contacts) ==> NormalizedDistinct(Add(reg, phone, name, now).0.contacts)
  {
    var r := Add(reg, phone, name, now);
    if !HasMatch(reg.contacts, NormalizePhone(phone)) {
      if WellFormed(reg) {
        AppendDistinctBy(reg.contacts, r.1, Id);
        AppendDistinctBy(reg.contacts, r.1, Phone);
      }
      if NormalizedDistinct(reg.contacts) {
        AppendDistinctBy(reg.contacts, r.1, Normalized);
      }
    }
  }

  /** Searching past an entry-free prefix. */
  lemma {:induction false} FindMatchAppend(cs: seq<ExcludedContact>, c: ExcludedContact, n: string)
    requires !HasMatch(cs, n) && Normalized(c) == n
    ensures FindMatch(cs + [c], n) == Some(c)
    decreases |cs|
  {
    if cs == [] {
      assert cs + [c] == [c];
    } else {
      assert (cs + [c])[1..] == cs[1..] + [c];
      assert cs[0] in cs;
      FindMatchAppend(cs[1..], c, n);
    }
  }

  /** Adding a number a second time changes nothing and returns what the first
      add returned. */
  lemma AddIdempotent(reg: Registry, phone: string, name: Option<string>, now: int, name2: Option<string>, now2: int)
    ensures var first := Add(reg, phone, name, now); Add(first.0, phone, name2, now2) == first
  {
    var n := NormalizePhone(phone);
    var first := Add(reg, phone, name, now);
    if !HasMatch(reg.contacts, n) {
      FindMatchAppend(reg.contacts, first.1, n);
    }
  }

  /** `removeExcluded` as the controller answers it. */
  datatype RemoveResponse = NotFound | Deleted(status: string, phoneNumber: string)

  /** `removeExcluded`: every entry that normalises like `phone` is deleted;
      when there is none the answer is not-found and the table is unchanged.
      Afterwards the number is no longer excluded. */
  function Remove(cs: seq<ExcludedContact>, phone: string): (r: (seq<ExcludedContact>, RemoveResponse))
    ensures r.1.NotFound? <==> !IsExcluded(cs, phone)
    ensures r.1.NotFound? ==> r.0 == cs
    ensures r.1.Deleted? ==> r.1 == Deleted("deleted", phone)
    ensures forall c :: c in r.0 <==> c in cs && Normalized(c) != NormalizePhone(phone)
    ensures !IsExcluded(r.0, phone)
  {
    var n := NormalizePhone(phone);
    var toDelete := Filter(cs, (c: ExcludedContact) => Normalized(c) == n);
    if toDelete == [] then (cs, NotFound)
    else
      assert toDelete[0] in toDelete;
      (Filter(cs, (c: ExcludedContact) => Normalized(c) != n), Deleted("deleted", phone))
  }

  /** Deleting keeps ids, numbers and the next id as they were. */
  lemma RemoveKeepsWellFormed(reg: Registry, phone: string)
    requires WellFormed(reg)
    ensures WellFormed(Registry(Remove(reg.contacts, phone).0, reg.nextId))
  {
    var n := NormalizePhone(phone);
    if IsExcluded(reg.contacts, phone) {
      FilterDistinctBy(reg.contacts, (c: ExcludedContact) => Normalized(c) != n, Id);
      FilterDistinctBy(reg.contacts, (c: ExcludedContact) => Normalized(c) != n, Phone);
    }
  }

  /** Removing a number just added by `addExcluded` gives back the table as it
      was before the add. */
  lemma RemoveUndoesAdd(reg: Registry, phone: string, name: Option<string>, now: int)
    requires !IsExcluded(reg.contacts, phone)
    ensures Remove(Add(reg, phone, name, now).0.contacts, phone) == (reg.contacts, Deleted("deleted", phone))
  {
    var n := NormalizePhone(phone);
    var cs := reg.contacts;
    var c := Add(reg, phone, name, now).1;
    var t := cs + [c];
    assert Add(reg, phone, name, now).0.contacts == t;
    assert c in t;
    assert IsExcluded(t, phone);
    var keep := (e: ExcludedContact) => Normalized(e) != n;
    FilterConcat(cs, [c], keep);
    FilterAll(cs, keep);
    assert [c][1..] == [];
    assert Filter([c], keep) == [];
    assert Filter(t, keep) == cs;
  }

  /** One number of `addExcludedBatch`: saved, without a name, when nothing
      stored normalises like it. */
  function SaveIfNew(reg: Registry, phone: string, now: int): Registry
  {
    if HasMatch(reg.contacts, NormalizePhone(phone)) then reg
    else Registry(reg.contacts + [ExcludedContact(reg.nextId, phone, None, now)], reg.nextId + 1)
  }

  /** The batch treats each number as `addExcluded` treats a request without a name. */
  lemma SaveIfNewIsAdd(reg: Registry, phone: string, now: int)
    ensures SaveIfNew(reg, phone, now) == Add(reg, phone, None, now).0
  {
  }

  /** `addExcludedBatch`'s effect on the table: each number in turn. */
  function AddBatch(reg: Registry, phones: seq<string>, now: int): (r: Registry)
    ensures |reg.contacts| <= |r.contacts| <= |reg.contacts| + |phones|
    ensures r.contacts[..|reg.contacts|] == reg.contacts
    decreases |phones|
  {
    if phones == [] then reg
    else
      var prev := AddBatch(reg, phones[..|phones| - 1], now);
      var next := SaveIfNew(prev, phones[|phones| - 1], now);
      assert next.contacts[..|prev.contacts|] == prev.contacts;
      next
  }

  /** One more number of the batch is one more `addExcluded`. */
  lemma AddBatchStep(reg: Registry, phones: seq<string>, i: nat, now: int)
    requires i < |phones|
    ensures AddBatch(reg, phones[..i + 1], now) == SaveIfNew(AddBatch(reg, phones[..i], now), phones[i], now)
  {
    assert phones[..i + 1][..i] == phones[..i];
  }

  /** A batch keeps the table's keys, and keeps stored numbers normalising apart. */
  lemma {:induction false} AddBatchKeepsInvariants(reg: Registry, phones: seq<string>, now: int)
    ensures WellFormed(reg) ==> WellFormed(AddBatch(reg, phones, now))
    ensures NormalizedDistinct(reg.contacts) ==> NormalizedDistinct(AddBatch(reg, phones, now).contacts)
    decreases |phones|
  {
    if phones != [] {
      var init := phones[..|phones| - 1];
      AddBatchKeepsInvariants(reg, init, now);
      SaveIfNewIsAdd(AddBatch(reg, init, now), phones[|phones| - 1], now);
      AddKeepsInvariants(AddBatch(reg, init, now), phones[|phones| - 1], None, now);
    }
  }

  /** After a batch every number in it is excluded. */
  lemma {:induction false} AddBatchExcludesAll(reg: Registry, phones: seq<string>, now: int)
    ensures forall p :: p in phones ==> IsExcluded(AddBatch(reg, phones, now).contacts, p)
    decreases |phones|
  {
    if phones != [] {
      var init := phones[..|phones| - 1];
      var last := phones[|phones| - 1];
      AddBatchExcludesAll(reg, init, now);
      var prev := AddBatch(reg, init, now);
      var next := Add(prev, last, None, now).0;
      SaveIfNewIsAdd(prev, last, now);
      assert AddBatch(reg, phones, now) == next;
      forall p | p in phones ensures IsExcluded(next.contacts, p) {
        if p != last {
          assert p in init;
          var c :| c in prev.contacts && Normalized(c) == NormalizePhone(p);
          assert c in next.contacts[..|prev.contacts|];
        }
      }
    }
  }

  /** Each entry of `cs` from position `start` on normalises unlike every
      entry before it. */
  ghost predicate FreshFrom(cs: seq<ExcludedContact>, start: int)
  {
    forall j, k :: 0 <= k < j < |cs| && start <= j ==> Normalized(cs[k]) != Normalized(cs[j])
  }

  /** Each entry a batch adds normalises unlike every entry before it, stored or
      added earlier in the batch: a number repeated in the batch, or already
      stored, is added at most once. */
  lemma {:induction false} AddBatchEntriesFresh(reg: Registry, phones: seq<string>, now: int)
    ensures FreshFrom(AddBatch(reg, phones, now).contacts, |reg.contacts|)
    decreases |phones|
  {
    if phones != [] {
      var init := phones[..|phones| - 1];
      AddBatchEntriesFresh(reg, init, now);
      var prev := AddBatch(reg, init, now);
      var last := phones[|phones| - 1];
      var added := Add(prev, last, None, now);
      SaveIfNewIsAdd(prev, last, now);
      assert AddBatch(reg, phones, now) == added.0;
      if !HasMatch(prev.contacts, NormalizePhone(last)) {
        AppendFresh(prev.contacts, added.1, |reg.contacts|);
      }
    }
  }

  /** Appending an entry that normalises unlike every entry keeps `FreshFrom`. */
  lemma AppendFresh(cs: seq<ExcludedContact>, c: ExcludedContact, start: int)
    requires FreshFrom(cs, start)
    requires forall e :: e in cs ==> Normalized(e) != Normalized(c)
    ensures FreshFrom(cs + [c], start)
  {
    var t := cs + [c];
    forall j, k | 0 <= k < j < |t| && start <= j ensures Normalized(t[k]) != Normalized(t[j]) {
      assert t[k] == cs[k];
      if j == |cs| {
        assert cs[k] in cs;
      } else {
        assert t[j] == cs[j];
      }
    }
  }

  /** What `addExcludedBatch` answers. */
  datatype BatchReport = BatchReport(status: string, added: nat, skipped: nat, total: nat)

  /** The table, changed in place by the saves and deletes. */
  class ExcludedContactStore {
    var contacts: seq<ExcludedContact>
    var nextId: int

    function State(): Registry
      reads this
    {
      Registry(contacts, nextId)
    }

    ghost predicate Valid()
      reads this
    {
      WellFormed(State())
    }

    constructor()
      ensures Valid() && contacts == []
    {
      contacts := [];
      nextId := 0;
    }

    method AddExcluded(phoneNumber: string, contactName: Option<string>, now: int) returns (saved: ExcludedContact)
      requires Valid()
      modifies this
      ensures Valid()
      ensures (State(), saved) == Add(old(State()), phoneNumber, contactName, now)
    {
      AddKeepsInvariants(State(), phoneNumber, contactName, now);
      var normalized := NormalizePhone(phoneNumber);
      var existing := FindMatch(contacts, normalized);
      if existing.Some? {
        return existing.value;
      }
      saved := ExcludedContact(nextId, phoneNumber, contactName, now);
      contacts := contacts + [saved];
      nextId := nextId + 1;
    }

    /** `addExcludedBatch`: counts the numbers it saves and the ones it skips,
        and reports the table's size at the end. */
    method AddExcludedBatch(phones: seq<string>, now: int) returns (report: BatchReport)
      requires Valid()
      modifies this
      ensures Valid()
      ensures State() == AddBatch(old(State()), phones, now)
      ensures report.status == "success"
      ensures report.added + report.skipped == |phones|
      ensures report.total == |contacts| == |old(contacts)| + report.added
    {
      var added, skipped := 0, 0;
      var i := 0;
      while i < |phones|
        invariant 0 <= i <= |phones|
        invariant State() == AddBatch(old(State()), phones[..i], now)
        invariant added + skipped == i
        invariant |contacts| == |old(contacts)| + added
      {
        ghost var before := State();
        var normalized := NormalizePhone(phones[i]);
        var found := HasMatch(contacts, normalized);
        if !found {
          contacts := contacts + [ExcludedContact(nextId, phones[i], None, now)];
          nextId := nextId + 1;
          added := added + 1;
        } else {
          skipped := skipped + 1;
        }
        assert State() == SaveIfNew(before, phones[i], now);
        AddBatchStep(old(State()), phones, i, now);
        i := i + 1;
      }
      assert phones[..i] == phones;
      AddBatchKeepsInvariants(old(State()), phones, now);
      report := BatchReport("success", added, skipped, |contacts|);
    }

    /** `removeExcluded`; the deletes of one transaction are one update here. */
    method RemoveExcluded(phoneNumber: string) returns (response: RemoveResponse)
      requires Valid()
      modifies this
      ensures Valid()
      ensures (contacts, response) == Remove(old(contacts), phoneNumber)
      ensures nextId == old(nextId)
    {
      RemoveKeepsWellFormed(State(), phoneNumber);
      var r := Remove(contacts, phoneNumber);
      contacts := r.0;
      response := r.1;
    }
  }
}
