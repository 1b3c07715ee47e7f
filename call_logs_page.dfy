/** The call-logs dashboard page: the locally kept set of excluded numbers,
    `processLogs` (filter, newest-first sort, one row per number), the call
    history of one number, and the distinct-contact counts for today and
    yesterday. Local days are abstracted by `dayOf`, the local-day index of a
    timestamp; `today` is the index of the current day and `customDay` that of
    the chosen custom date. */
module CallLogsPage {
  import opened Wrappers
  import opened Seqs
  import opened Text
  import opened WebLogs

  /** `addExcludedContact`: the trimmed number joins the set. */
  function AddExcludedContact(excluded: set<string>, phone: string): set<string>
  {
    excluded + {Trim(phone, JsSpace)}
  }

  /** `removeExcludedContact`: the exact string leaves the set. */
  function RemoveExcludedContact(excluded: set<string>, phone: string): set<string>
  {
    excluded - {phone}
  }

  /** Adding puts in the trimmed number, which has no surrounding white space,
      removing takes out the exact string, and every other member stays as it was. */
  lemma ExcludedEdits(excluded: set<string>, phone: string)
    ensures var t := Trim(phone, JsSpace);
      && t in AddExcludedContact(excluded, phone)
      && (|t| > 0 ==> !JsSpace(t[0]) && !JsSpace(t[|t| - 1]))
      && (forall x :: x != t ==> (x in AddExcludedContact(excluded, phone) <==> x in excluded))
    ensures phone !in RemoveExcludedContact(excluded, phone)
    ensures forall x :: x != phone ==> (x in RemoveExcludedContact(excluded, phone) <==> x in excluded)
  {
  }

  /** Removing a number just added, already trimmed and not excluded before,
      restores the set. */
  lemma RemoveUndoesAdd(excluded: set<string>, phone: string)
    requires Trim(phone, JsSpace) == phone && phone !in excluded
    ensures RemoveExcludedContact(AddExcludedContact(excluded, phone), phone) == excluded
  {
  }

  datatype FilterMode = All | Today | Yesterday | Custom

  /** The local day a mode selects, if any. */
  function TargetDay(mode: FilterMode, today: int, customDay: int): Option<int>
  {
    match mode
    case All => None
    case Today => Some(today)
    case Yesterday => Some(today - 1)
    case Custom => Some(customDay)
  }

  /** The first filter of `processLogs`: not excluded (exact string), and on the target day. */
  predicate OnTargetDay(l: WebLog, excluded: set<string>, target: Option<int>, dayOf: int -> int)
  {
    l.phoneNumber !in excluded && (target.None? || dayOf(l.timestamp) == target.value)
  }

  /** The second filter: the selected staff member's, or anybody's. */
  predicate BySelectedStaff(l: WebLog, staff: Option<string>)
  {
    staff.None? || l.staffId == staff.value
  }

  /** The logs `processLogs` keeps before sorting, in their raw order. */
  function Selected(rawLogs: seq<WebLog>, excluded: set<string>, target: Option<int>,
                    staff: Option<string>, dayOf: int -> int): (r: seq<WebLog>)
    ensures forall l :: l in r <==>
      && l in rawLogs
      && l.phoneNumber !in excluded
      && (target.None? || dayOf(l.timestamp) == target.value)
      && (staff.None? || l.staffId == staff.value)
  {
    var byDay := Filter(rawLogs, (l: WebLog) => OnTargetDay(l, excluded, target, dayOf));
    Filter(byDay, (l: WebLog) => BySelectedStaff(l, staff))
  }

  function Numbers(s: seq<WebLog>): set<string>
  {
    set l | l in s :: l.phoneNumber
  }

  /** The first log of each number, in order: what the `seenNumbers` loop keeps. */
  function FirstPerNumber(s: seq<WebLog>): (r: seq<WebLog>)
    ensures forall x :: x in r ==> x in s
    ensures Numbers(r) == Numbers(s)
    decreases |s|
  {
    if s == [] then []
    else
      var init := s[..|s| - 1];
      var last := s[|s| - 1];
      var d := FirstPerNumber(init);
      assert s == init + [last];
      if last.phoneNumber in Numbers(d) then d
      else
        assert Numbers(d + [last]) == Numbers(d) + {last.phoneNumber};
        d + [last]
  }

  /** No two displayed logs share a number. */
  lemma {:induction false} FirstPerNumberDistinct(s: seq<WebLog>)
    ensures DistinctBy(FirstPerNumber(s), Number)
    decreases |s|
  {
    if s != [] {
      var init := s[..|s| - 1];
      var last := s[|s| - 1];
      var d := FirstPerNumber(init);
      FirstPerNumberDistinct(init);
      if last.phoneNumber !in Numbers(d) {
        forall y | y in d ensures Number(y) != Number(last) {
          assert y.phoneNumber in Numbers(d);
        }
        AppendDistinctBy(d, last, Number);
      }
    }
  }

  /** In a newest-first sequence the first log of a number is its newest. */
  lemma {:induction false} FirstPerNumberNewest(s: seq<WebLog>)
    requires SortedDesc(s, Timestamp)
    ensures forall x, y :: x in FirstPerNumber(s) && y in s && y.phoneNumber == x.phoneNumber ==>
      y.timestamp <= x.timestamp
    decreases |s|
  {
    if s != [] {
      var init := s[..|s| - 1];
      var last := s[|s| - 1];
      var d := FirstPerNumber(init);
      assert s == init + [last];
      assert SortedDesc(init, Timestamp) by {
        forall i, j | 0 <= i < j < |init| ensures Timestamp(init[i]) >= Timestamp(init[j]) {
          assert init[i] == s[i] && init[j] == s[j];
        }
      }
      FirstPerNumberNewest(init);
      forall x, y | x in FirstPerNumber(s) && y in s && y.phoneNumber == x.phoneNumber
        ensures y.timestamp <= x.timestamp
      {
        if x in d {
          if y == last {
            var i :| 0 <= i < |init| && init[i] == x;
            assert Timestamp(s[i]) >= Timestamp(s[|s| - 1]);
          } else {
            assert y in init;
          }
        } else {
          assert x == last && last.phoneNumber !in Numbers(d);
        }
      }
    }
  }

  /** `processLogs`'s `displayLogs`. */
  function DisplayLogs(rawLogs: seq<WebLog>, excluded: set<string>, mode: FilterMode, today: int,
                       customDay: int, staff: Option<string>, dayOf: int -> int): seq<WebLog>
  {
    var filtered := Selected(rawLogs, excluded, TargetDay(mode, today, customDay), staff, dayOf);
    FirstPerNumber(SortDesc(filtered, Timestamp))
  }

  /** Every number among the filtered logs is displayed, exactly once, by its
      newest filtered log; nothing else is displayed. */
  lemma DisplayIsNewestPerNumber(rawLogs: seq<WebLog>, excluded: set<string>, mode: FilterMode, today: int,
                                 customDay: int, staff: Option<string>, dayOf: int -> int)
    ensures var filtered := Selected(rawLogs, excluded, TargetDay(mode, today, customDay), staff, dayOf);
      var display := DisplayLogs(rawLogs, excluded, mode, today, customDay, staff, dayOf);
      && DistinctBy(display, Number)
      && Numbers(display) == Numbers(filtered)
      && (forall x :: x in display ==> x in filtered)
      && (forall x, y :: x in display && y in filtered && y.phoneNumber == x.phoneNumber ==>
            y.timestamp <= x.timestamp)
  {
    var filtered := Selected(rawLogs, excluded, TargetDay(mode, today, customDay), staff, dayOf);
    var sorted := SortDesc(filtered, Timestamp);
    FirstPerNumberDistinct(sorted);
    FirstPerNumberNewest(sorted);
    forall y ensures y in sorted <==> y in filtered {
      assert y in sorted <==> y in multiset(sorted);
    }
  }

  /** Displayed logs are raw logs that are not excluded, have the selected
      staff member if one is selected, and fall on the target day unless the
      mode is `all`. */
  lemma DisplayRespectsFilters(rawLogs: seq<WebLog>, excluded: set<string>, mode: FilterMode, today: int,
                               customDay: int, staff: Option<string>, dayOf: int -> int)
    ensures forall x :: x in DisplayLogs(rawLogs, excluded, mode, today, customDay, staff, dayOf) ==>
      && x in rawLogs
      && x.phoneNumber !in excluded
      && (staff.Some? ==> x.staffId == staff.value)
      && (mode == Today ==> dayOf(x.timestamp) == today)
      && (mode == Yesterday ==> dayOf(x.timestamp) == today - 1)
      && (mode == Custom ==> dayOf(x.timestamp) == customDay)
  {
    DisplayIsNewestPerNumber(rawLogs, excluded, mode, today, customDay, staff, dayOf);
  }

  /** One more log of the sequence: kept when its number is new. */
  lemma FirstPerNumberStep(s: seq<WebLog>, i: nat)
    requires i < |s|
    ensures var d := FirstPerNumber(s[..i]);
      FirstPerNumber(s[..i + 1]) == if s[i].phoneNumber in Numbers(d) then d else d + [s[i]]
    ensures Numbers(FirstPerNumber(s[..i]) + [s[i]]) == Numbers(FirstPerNumber(s[..i])) + {s[i].phoneNumber}
  {
    assert s[..i + 1][..i] == s[..i];
    var d := FirstPerNumber(s[..i]);
    assert Numbers(d + [s[i]]) == Numbers(d) + {s[i].phoneNumber};
  }

  /** `processLogs`, with the copy sorted as a value. */
  method ProcessLogs(rawLogs: seq<WebLog>, excluded: set<string>, mode: FilterMode, today: int,
                     customDay: int, staff: Option<string>, dayOf: int -> int)
    returns (displayLogs: seq<WebLog>)
    ensures displayLogs == DisplayLogs(rawLogs, excluded, mode, today, customDay, staff, dayOf)
  {
    var filtered := Selected(rawLogs, excluded, TargetDay(mode, today, customDay), staff, dayOf);
    filtered := SortDesc(filtered, Timestamp);
    var deduplicated: seq<WebLog> := [];
    var seenNumbers: set<string> := {};
    for i := 0 to |filtered|
      invariant deduplicated == FirstPerNumber(filtered[..i])
      invariant seenNumbers == Numbers(deduplicated)
    {
      var log := filtered[i];
      FirstPerNumberStep(filtered, i);
      if log.phoneNumber !in seenNumbers {
        deduplicated := deduplicated + [log];
        seenNumbers := seenNumbers + {log.phoneNumber};
      }
    }
    assert filtered[..|filtered|] == filtered;
    displayLogs := deduplicated;
  }

  /** `getContactLogs`: the raw logs of exactly that number, newest first. */
  function ContactLogs(rawLogs: seq<WebLog>, phoneNumber: string): (r: seq<WebLog>)
    ensures forall l :: multiset(r)[l] == if l.phoneNumber == phoneNumber then multiset(rawLogs)[l] else 0
    ensures SortedDesc(r, Timestamp)
  {
    var p := (l: WebLog) => l.phoneNumber == phoneNumber;
    FilterMultiset(rawLogs, p);
    SortDesc(Filter(rawLogs, p), Timestamp)
  }

  /** The "Today" and "Yesterday" cards: how many distinct numbers among the
      raw logs of that day are not excluded. */
  function ContactsOnDay(rawLogs: seq<WebLog>, excluded: set<string>, day: int, dayOf: int -> int): nat
  {
    |Numbers(Filter(rawLogs, (l: WebLog) => OnTargetDay(l, excluded, Some(day), dayOf)))|
  }

  lemma NumbersAppend(s: seq<WebLog>, x: WebLog)
    ensures Numbers(s + [x]) == Numbers(s) + {x.phoneNumber}
  {
    assert forall l :: l in s + [x] <==> l in s || l == x;
  }

  /** A sequence of distinct numbers has as many numbers as elements. */
  lemma {:induction false} DistinctNumbersCount(s: seq<WebLog>)
    requires DistinctBy(s, Number)
    ensures |Numbers(s)| == |s|
    decreases |s|
  {
    if s != [] {
      var init := s[..|s| - 1];
      var last := s[|s| - 1];
      assert s == init + [last];
      assert DistinctBy(init, Number) by {
        forall i, j | 0 <= i < j < |init| ensures Number(init[i]) != Number(init[j]) {
          assert init[i] == s[i] && init[j] == s[j];
        }
      }
      DistinctNumbersCount(init);
      forall y | y in init ensures Number(y) != Number(last) {
        var i :| 0 <= i < |init| && init[i] == y;
        assert Number(s[i]) != Number(s[|s| - 1]);
      }
      assert last.phoneNumber !in Numbers(init);
      NumbersAppend(init, last);
    }
  }

  /** The day's card counts the rows the list shows in that day's mode with
      every staff member selected. */
  lemma ContactsOnDayMatchesDisplay(rawLogs: seq<WebLog>, excluded: set<string>, today: int,
                                    customDay: int, dayOf: int -> int)
    ensures ContactsOnDay(rawLogs, excluded, today, dayOf)
      == |DisplayLogs(rawLogs, excluded, Today, today, customDay, None, dayOf)|
    ensures ContactsOnDay(rawLogs, excluded, today - 1, dayOf)
      == |DisplayLogs(rawLogs, excluded, Yesterday, today, customDay, None, dayOf)|
  {
    DisplayCount(rawLogs, excluded, Today, today, customDay, dayOf);
    DisplayCount(rawLogs, excluded, Yesterday, today, customDay, dayOf);
  }

  lemma DisplayCount(rawLogs: seq<WebLog>, excluded: set<string>, mode: FilterMode, today: int,
                     customDay: int, dayOf: int -> int)
    requires mode != All
    ensures ContactsOnDay(rawLogs, excluded, TargetDay(mode, today, customDay).value, dayOf)
      == |DisplayLogs(rawLogs, excluded, mode, today, customDay, None, dayOf)|
  {
    var target := TargetDay(mode, today, customDay);
    var byDay := Filter(rawLogs, (l: WebLog) => OnTargetDay(l, excluded, target, dayOf));
    var filtered := Selected(rawLogs, excluded, target, None, dayOf);
    FilterAll(byDay, (l: WebLog) => BySelectedStaff(l, None));
    assert filtered == byDay;
    var display := DisplayLogs(rawLogs, excluded, mode, today, customDay, None, dayOf);
    DisplayIsNewestPerNumber(rawLogs, excluded, mode, today, customDay, None, dayOf);
    DistinctNumbersCount(display);
  }
}
