/** The returning-customers dashboard page: the logs from the August 2025
    cutoff on whose numbers are not excluded are grouped by normalised number;
    a group with at least two calls whose first and last call lie `minDays`
    whole days or more apart is a returning customer, reported with its first
    call, its first call back at least `minDays` days after the first, and its
    history; the customers are listed with the longest gap first. */
module ReturningCustomers {
  import opened Wrappers
  import opened Seqs
  import opened Text
  import opened PhoneNumbers
  import opened WebLogs

  const DAY_MS := 86400000

  /** The whole days from `from` to `to`, `Math.floor((to - from) / (1000 * 60 * 60 * 24))`.
      Dafny's `/` by a positive divisor rounds down, as `Math.floor` does. */
  function Days(from: int, to: int): int
  {
    (to - from) / DAY_MS
  }

  lemma DaysMonotonic(from: int, a: int, from': int, b: int)
    requires a - from <= b - from'
    ensures Days(from, a) <= Days(from', b)
  {
  }

  /** The page's `isExcluded`: some excluded entry normalises like the number. */
  function Excluded(phone: string, excluded: seq<string>): (b: bool)
    ensures b <==> exists e :: e in excluded && WebNormalizePhone(e) == WebNormalizePhone(phone)
    decreases |excluded|
  {
    if excluded == [] then false
    else
      assert forall e :: e in excluded ==> e == excluded[0] || e in excluded[1..];
      WebNormalizePhone(excluded[0]) == WebNormalizePhone(phone) || Excluded(phone, excluded[1..])
  }

  /** `isExcluded`, the loop over the entries with its early return. */
  method IsExcluded(phone: string, excluded: seq<string>) returns (b: bool)
    ensures b == Excluded(phone, excluded)
  {
    var normalized := WebNormalizePhone(phone);
    for i := 0 to |excluded|
      invariant forall k :: 0 <= k < i ==> WebNormalizePhone(excluded[k]) != normalized
    {
      if WebNormalizePhone(excluded[i]) == normalized {
        return true;
      }
    }
    return false;
  }

  /** The logs that are analysed: from the cutoff on and not excluded. */
  function Analysed(data: seq<WebLog>, excluded: seq<string>, cutoff: int): (r: seq<WebLog>)
    ensures forall l :: l in r <==> l in data && l.timestamp >= cutoff && !Excluded(l.phoneNumber, excluded)
  {
    Filter(data, (l: WebLog) => l.timestamp >= cutoff && !Excluded(l.phoneNumber, excluded))
  }

  function NormOf(l: WebLog): string
  {
    WebNormalizePhone(l.phoneNumber)
  }

  /** The `contactGroups` entry of a normalised number: its logs in order. */
  function GroupOf(s: seq<WebLog>, key: string): seq<WebLog>
    decreases |s|
  {
    if s == [] then []
    else
      var last := s[|s| - 1];
      GroupOf(s[..|s| - 1], key) + (if NormOf(last) == key then [last] else [])
  }

  /** A group holds exactly the logs with its key. */
  lemma {:induction false} GroupOfMember(s: seq<WebLog>, key: string)
    ensures forall l :: l in GroupOf(s, key) <==> l in s && NormOf(l) == key
    decreases |s|
  {
    if s != [] {
      var init := s[..|s| - 1];
      GroupOfMember(init, key);
      assert s == init + [s[|s| - 1]];
    }
  }

  /** A key no log has has an empty group. */
  lemma {:induction false} GroupOfNone(s: seq<WebLog>, key: string)
    requires forall l :: l in s ==> NormOf(l) != key
    ensures GroupOf(s, key) == []
    decreases |s|
  {
    if s != [] {
      var init := s[..|s| - 1];
      assert forall l :: l in init ==> l in s;
      GroupOfNone(init, key);
      assert s[|s| - 1] in s;
    }
  }

  /** The keys of `contactGroups` in insertion order: each normalised number
      once, where it first occurs. */
  function GroupKeys(s: seq<WebLog>): (keys: seq<string>)
    ensures forall k :: k in keys <==> exists l :: l in s && NormOf(l) == k
    decreases |s|
  {
    if s == [] then []
    else
      var init := s[..|s| - 1];
      var last := s[|s| - 1];
      assert s == init + [last];
      var keys := GroupKeys(init);
      if NormOf(last) in keys then keys else keys + [NormOf(last)]
  }

  lemma {:induction false} GroupKeysDistinct(s: seq<WebLog>)
    ensures Distinct(GroupKeys(s))
    decreases |s|
  {
    if s != [] {
      var init := s[..|s| - 1];
      GroupKeysDistinct(init);
      var keys := GroupKeys(init);
      var n := NormOf(s[|s| - 1]);
      if n !in keys {
        var t := keys + [n];
        forall i, j | 0 <= i < j < |t| ensures t[i] != t[j] {
          if j == |keys| {
            assert t[i] in keys;
          } else {
            assert t[i] == keys[i] && t[j] == keys[j];
          }
        }
      }
    }
  }

  /** One more log of the prefix: its group grows by it, the others stay. */
  lemma GroupStep(s: seq<WebLog>, i: nat, key: string)
    requires i < |s|
    ensures GroupOf(s[..i + 1], key) == GroupOf(s[..i], key) + (if NormOf(s[i]) == key then [s[i]] else [])
  {
    assert s[..i + 1][..i] == s[..i];
  }

  /** `keys` and `groups` are `contactGroups` after the first `n` logs of `s`. */
  ghost predicate GroupsOf(s: seq<WebLog>, n: nat, keys: seq<string>, groups: map<string, seq<WebLog>>)
    requires n <= |s|
  {
    && keys == GroupKeys(s[..n])
    && (forall k :: k in groups <==> k in keys)
    && (forall k :: k in groups ==> groups[k] == GroupOf(s[..n], k))
  }

  /** A log whose number has a group joins the end of it. */
  lemma GroupsStepKnown(s: seq<WebLog>, i: nat, keys: seq<string>, groups: map<string, seq<WebLog>>)
    requires i < |s| && GroupsOf(s, i, keys, groups) && NormOf(s[i]) in groups
    ensures GroupsOf(s, i + 1, keys, groups[NormOf(s[i]) := groups[NormOf(s[i])] + [s[i]]])
  {
    var n := NormOf(s[i]);
    var after := groups[n := groups[n] + [s[i]]];
    assert s[..i + 1][..i] == s[..i];
    assert keys == GroupKeys(s[..i + 1]);
    forall k | k in after ensures after[k] == GroupOf(s[..i + 1], k) {
      GroupStep(s, i, k);
    }
  }

  /** A log whose number has no group yet opens one, and its number becomes the last key. */
  lemma GroupsStepNew(s: seq<WebLog>, i: nat, keys: seq<string>, groups: map<string, seq<WebLog>>)
    requires i < |s| && GroupsOf(s, i, keys, groups) && NormOf(s[i]) !in groups
    ensures GroupsOf(s, i + 1, keys + [NormOf(s[i])], groups[NormOf(s[i]) := [s[i]]])
  {
    var n := NormOf(s[i]);
    var after := groups[n := [s[i]]];
    assert s[..i + 1][..i] == s[..i];
    assert keys + [n] == GroupKeys(s[..i + 1]);
    GroupOfNone(s[..i], n);
    forall k | k in after ensures after[k] == GroupOf(s[..i + 1], k) {
      GroupStep(s, i, k);
    }
  }

  /** Building `contactGroups` by the `forEach` over the analysed logs. */
  method GroupByNumber(s: seq<WebLog>) returns (keys: seq<string>, groups: map<string, seq<WebLog>>)
    ensures keys == GroupKeys(s)
    ensures forall k :: k in groups <==> k in keys
    ensures forall k :: k in groups ==> groups[k] == GroupOf(s, k)
  {
    keys := [];
    groups := map[];
    for i := 0 to |s|
      invariant GroupsOf(s, i, keys, groups)
    {
      var log := s[i];
      var normalized := NormOf(log);
      if normalized in groups {
        GroupsStepKnown(s, i, keys, groups);
        groups := groups[normalized := groups[normalized] + [log]];
      } else {
        GroupsStepNew(s, i, keys, groups);
        keys := keys + [normalized];
        groups := groups[normalized := [log]];
      }
    }
    assert s[..|s|] == s;
  }

  datatype ReturningCustomer = ReturningCustomer(
    phoneNumber: string,
    contactName: Option<string>,
    firstCallDate: int,
    returnCallDate: int,
    daysBetween: int,
    totalCalls: nat,
    staffName: string,
    callHistory: seq<WebLog>)

  function DaysBetween(c: ReturningCustomer): int { c.daysBetween }

  function CustomerKey(c: ReturningCustomer): string { WebNormalizePhone(c.phoneNumber) }

  /** The return-call search from index `i` of the oldest-first logs: the
      first call whose whole-day gap from `first` reaches `minDays`, or the
      last call when none does. */
  function ReturnCallFrom(logs: seq<WebLog>, first: int, minDays: int, i: nat): int
    requires |logs| > 0
    decreases |logs| - i
  {
    if i >= |logs| then logs[|logs| - 1].timestamp
    else if Days(first, logs[i].timestamp) >= minDays then logs[i].timestamp
    else ReturnCallFrom(logs, first, minDays, i + 1)
  }

  /** When the last call qualifies, the search from `i` stops at the first
      qualifying call at or after `i`. */
  lemma {:induction false} ReturnCallFromFinds(logs: seq<WebLog>, first: int, minDays: int, i: nat)
    requires i < |logs|
    requires Days(first, logs[|logs| - 1].timestamp) >= minDays
    ensures var ret := ReturnCallFrom(logs, first, minDays, i);
      exists j :: i <= j < |logs| && logs[j].timestamp == ret && Days(first, ret) >= minDays &&
        forall k :: i <= k < j ==> Days(first, logs[k].timestamp) < minDays
    decreases |logs| - i
  {
    if Days(first, logs[i].timestamp) < minDays {
      assert i + 1 < |logs|;
      ReturnCallFromFinds(logs, first, minDays, i + 1);
      var ret := ReturnCallFrom(logs, first, minDays, i);
      var j :| i + 1 <= j < |logs| && logs[j].timestamp == ret && Days(first, ret) >= minDays &&
        forall k :: i + 1 <= k < j ==> Days(first, logs[k].timestamp) < minDays;
      assert forall k :: i <= k < j ==> Days(first, logs[k].timestamp) < minDays;
    }
  }

  /** The number shown: the first `+91` number of the group, else the oldest call's. */
  function FindPlus91(logs: seq<WebLog>): (r: Option<string>)
    ensures r.Some? ==> StartsWith(r.value, "+91") && exists l :: l in logs && l.phoneNumber == r.value
    ensures r.None? <==> forall l :: l in logs ==> !StartsWith(l.phoneNumber, "+91")
    decreases |logs|
  {
    if logs == [] then None
    else if StartsWith(logs[0].phoneNumber, "+91") then Some(logs[0].phoneNumber)
    else
      assert forall l :: l in logs ==> l == logs[0] || l in logs[1..];
      FindPlus91(logs[1..])
  }

  /** The contact name shown: the first non-empty name of the group, if any. */
  function FirstContactName(logs: seq<WebLog>): (r: Option<string>)
    ensures r.Some? ==> r.value != "" && exists l :: l in logs && l.contactName == r.value
    ensures r.None? <==> forall l :: l in logs ==> l.contactName == ""
    decreases |logs|
  {
    if logs == [] then None
    else if logs[0].contactName != "" then Some(logs[0].contactName)
    else
      assert forall l :: l in logs ==> l == logs[0] || l in logs[1..];
      FirstContactName(logs[1..])
  }

  function StaffNameOf(l: WebLog): string
  {
    if l.staffName == "" then "Unknown" else l.staffName
  }

  /** The customer pushed for oldest-first logs whose return call is `returnCall`. */
  function CustomerOf(logs: seq<WebLog>, returnCall: int): ReturningCustomer
    requires |logs| > 0
  {
    var first := logs[0].timestamp;
    var displayPhone := match FindPlus91(logs) case Some(p) => p case None => logs[0].phoneNumber;
    ReturningCustomer(
      displayPhone,
      FirstContactName(logs),
      first,
      returnCall,
      Days(first, returnCall),
      |logs|,
      StaffNameOf(logs[|logs| - 1]),
      SortDesc(logs, Timestamp))
  }

  /** The customer oldest-first logs yield, if they span `minDays` whole days. */
  function AssessSorted(logs: seq<WebLog>, minDays: int): Option<ReturningCustomer>
    requires |logs| > 0
  {
    var first := logs[0].timestamp;
    var last := logs[|logs| - 1].timestamp;
    if Days(first, last) < minDays then None
    else Some(CustomerOf(logs, ReturnCallFrom(logs, first, minDays, 1)))
  }

  /** The customer a group yields, if it is a returning one. */
  function Assess(group: seq<WebLog>, minDays: int): Option<ReturningCustomer>
  {
    if |group| < 2 then None else AssessSorted(SortAsc(group, Timestamp), minDays)
  }

  /** The callback for one group, with its return-call loop and `break`. */
  method AssessGroup(group: seq<WebLog>, minDays: int) returns (c: Option<ReturningCustomer>)
    ensures c == Assess(group, minDays)
  {
    if |group| < 2 {
      return None;
    }
    var logs := SortAsc(group, Timestamp);
    var firstCall := logs[0].timestamp;
    var lastCall := logs[|logs| - 1].timestamp;
    var diffDays := Days(firstCall, lastCall);
    if diffDays < minDays {
      return None;
    }
    var returnCall := lastCall;
    var i := 1;
    while i < |logs|
      invariant 1 <= i <= |logs|
      invariant ReturnCallFrom(logs, firstCall, minDays, 1) == ReturnCallFrom(logs, firstCall, minDays, i)
      invariant returnCall == lastCall
      decreases |logs| - i
    {
      var callDate := logs[i].timestamp;
      if Days(firstCall, callDate) >= minDays {
        returnCall := callDate;
        break;
      }
      i := i + 1;
    }
    assert returnCall == ReturnCallFrom(logs, firstCall, minDays, 1);
    c := Some(CustomerOf(logs, returnCall));
    assert c == AssessSorted(logs, minDays);
  }

  /** What `f` yields for the keys, in key order, skipping the keys it yields nothing for. */
  function Collect<K, V>(keys: seq<K>, f: K -> Option<V>): seq<V>
    decreases |keys|
  {
    if keys == [] then []
    else
      var last := f(keys[|keys| - 1]);
      Collect(keys[..|keys| - 1], f) + (if last.Some? then [last.value] else [])
  }

  /** One more key adds what it yields at the end. */
  lemma CollectStep<K, V>(keys: seq<K>, f: K -> Option<V>, j: nat)
    requires j < |keys|
    ensures Collect(keys[..j + 1], f) == Collect(keys[..j], f) + (if f(keys[j]).Some? then [f(keys[j]).value] else [])
  {
    assert keys[..j + 1][..j] == keys[..j];
  }

  /** A value is collected exactly when some key yields it. */
  lemma {:induction false} CollectMember<K, V>(keys: seq<K>, f: K -> Option<V>, v: V)
    ensures v in Collect(keys, f) <==> exists k :: k in keys && f(k) == Some(v)
    decreases |keys|
  {
    if keys != [] {
      var init := keys[..|keys| - 1];
      var last := keys[|keys| - 1];
      CollectMember(init, f, v);
      assert keys == init + [last];
      assert forall k :: k in keys <==> k in init || k == last;
    }
  }

  /** Distinct keys, each yielding only values with that key, are collected with unique keys. */
  lemma {:induction false} CollectDistinct<K, V>(keys: seq<K>, f: K -> Option<V>, key: V -> K)
    requires Distinct(keys)
    requires forall k :: k in keys && f(k).Some? ==> key(f(k).value) == k
    ensures DistinctBy(Collect(keys, f), key)
    decreases |keys|
  {
    if keys != [] {
      var init := keys[..|keys| - 1];
      var last := keys[|keys| - 1];
      assert keys == init + [last];
      forall i, j | 0 <= i < j < |init| ensures init[i] != init[j] {
        assert init[i] == keys[i] && init[j] == keys[j];
      }
      CollectDistinct(init, f, key);
      if f(last).Some? {
        forall y | y in Collect(init, f) ensures key(y) != key(f(last).value) {
          CollectMember(init, f, y);
          var k :| k in init && f(k) == Some(y);
          var i :| 0 <= i < |init| && init[i] == k;
          assert keys[i] != keys[|keys| - 1];
        }
        AppendDistinctBy(Collect(init, f), f(last).value, key);
      }
    }
  }

  /** The callback's result for a normalised number. */
  function CustomerFor(s: seq<WebLog>, minDays: int): string -> Option<ReturningCustomer>
  {
    k => Assess(GroupOf(s, k), minDays)
  }

  /** The `returning` list before its sort: the customers of the groups, in key order. */
  function Customers(s: seq<WebLog>, keys: seq<string>, minDays: int): seq<ReturningCustomer>
  {
    Collect(keys, CustomerFor(s, minDays))
  }

  /** What `fetchAndAnalyze` stores. */
  function Analysis(data: seq<WebLog>, excluded: seq<string>, minDays: int, cutoff: int): seq<ReturningCustomer>
  {
    var filtered := Analysed(data, excluded, cutoff);
    SortDesc(Customers(filtered, GroupKeys(filtered), minDays), DaysBetween)
  }

  /** The `contactGroups.forEach` that pushes each returning customer. */
  method CollectCustomers(s: seq<WebLog>, keys: seq<string>, groups: map<string, seq<WebLog>>, minDays: int)
    returns (found: seq<ReturningCustomer>)
    requires forall k :: k in keys ==> k in groups && groups[k] == GroupOf(s, k)
    ensures found == Customers(s, keys, minDays)
  {
    ghost var f := CustomerFor(s, minDays);
    found := [];
    for j := 0 to |keys|
      invariant found == Collect(keys[..j], f)
    {
      CollectStep(keys, f, j);
      var group := groups[keys[j]];
      assert group == GroupOf(s, keys[j]);
      var c := AssessGroup(group, minDays);
      assert c == f(keys[j]);
      if c.Some? {
        found := found + [c.value];
      }
    }
    assert keys[..|keys|] == keys;
  }

  /** The analysis body of `fetchAndAnalyze`, with the sorts taken as values. */
  method FetchAndAnalyze(data: seq<WebLog>, excluded: seq<string>, minDays: int, cutoff: int)
    returns (returning: seq<ReturningCustomer>)
    ensures returning == Analysis(data, excluded, minDays, cutoff)
  {
    var filteredData := Analysed(data, excluded, cutoff);
    var keys, contactGroups := GroupByNumber(filteredData);
    var found := CollectCustomers(filteredData, keys, contactGroups, minDays);
    returning := SortDesc(found, DaysBetween);
  }

  // ---- What a reported customer says about its group ----

  /** The oldest-first order of a group holds its calls, oldest first. */
  lemma SortedAscFacts(group: seq<WebLog>)
    requires |group| >= 2
    ensures var logs := SortAsc(group, Timestamp);
      && (forall l :: l in logs <==> l in group)
      && (forall l :: l in group ==> logs[0].timestamp <= l.timestamp <= logs[|logs| - 1].timestamp)
  {
    var logs := SortAsc(group, Timestamp);
    forall l ensures l in logs <==> l in group {
      assert l in logs <==> l in multiset(logs);
    }
    forall l | l in group ensures logs[0].timestamp <= l.timestamp <= logs[|logs| - 1].timestamp {
      var i :| 0 <= i < |logs| && logs[i] == l;
      assert Timestamp(logs[0]) <= Timestamp(logs[i]) <= Timestamp(logs[|logs| - 1]);
    }
  }

  /** A group is a returning customer exactly when it has two calls or more
      and its first and last call lie at least `minDays` whole days apart. */
  lemma AssessWhen(group: seq<WebLog>, minDays: int)
    ensures Assess(group, minDays).Some? <==>
      |group| >= 2 &&
      exists a, b :: a in group && b in group && Days(a.timestamp, b.timestamp) >= minDays
  {
    if |group| >= 2 {
      SortedAscFacts(group);
      var logs := SortAsc(group, Timestamp);
      var a, b := logs[0], logs[|logs| - 1];
      assert a in logs && b in logs;
      forall x, y | x in group && y in group ensures Days(x.timestamp, y.timestamp) <= Days(a.timestamp, b.timestamp) {
        DaysMonotonic(x.timestamp, y.timestamp, a.timestamp, b.timestamp);
      }
    }
  }

  /** The counts and the history: at least two calls, as many as the group
      has, and the history is the group newest first. */
  lemma AssessHistory(group: seq<WebLog>, minDays: int)
    requires Assess(group, minDays).Some?
    ensures var c := Assess(group, minDays).value;
      && c.totalCalls >= 2
      && c.totalCalls == |c.callHistory| == |group|
      && multiset(c.callHistory) == multiset(group)
      && SortedDesc(c.callHistory, Timestamp)
  {
  }

  /** In oldest-first logs spanning `minDays >= 1` whole days, the search from
      the second log finds the earliest call at least `minDays` days after the first. */
  lemma ReturnCallEarliest(logs: seq<WebLog>, minDays: int)
    requires |logs| >= 2 && SortedAsc(logs, Timestamp) && minDays >= 1
    requires Days(logs[0].timestamp, logs[|logs| - 1].timestamp) >= minDays
    ensures var first := logs[0].timestamp;
      var ret := ReturnCallFrom(logs, first, minDays, 1);
      && (exists l :: l in logs && l.timestamp == ret)
      && Days(first, ret) >= minDays
      && forall l :: l in logs && Days(first, l.timestamp) >= minDays ==> ret <= l.timestamp
  {
    var first := logs[0].timestamp;
    var ret := ReturnCallFrom(logs, first, minDays, 1);
    ReturnCallFromFinds(logs, first, minDays, 1);
    var j :| 1 <= j < |logs| && logs[j].timestamp == ret && Days(first, ret) >= minDays &&
      forall k :: 1 <= k < j ==> Days(first, logs[k].timestamp) < minDays;
    assert logs[j] in logs;
    forall l | l in logs && Days(first, l.timestamp) >= minDays ensures ret <= l.timestamp {
      var i :| 0 <= i < |logs| && logs[i] == l;
      assert Days(first, logs[0].timestamp) == 0;
      assert i >= j;
      if i > j {
        assert Timestamp(logs[j]) <= Timestamp(logs[i]);
      }
    }
  }

  /** The dates of the customer that oldest-first logs yield. */
  lemma AssessSortedDates(logs: seq<WebLog>, minDays: int)
    requires |logs| >= 2 && SortedAsc(logs, Timestamp) && minDays >= 1
    requires AssessSorted(logs, minDays).Some?
    ensures var c := AssessSorted(logs, minDays).value;
      && c.firstCallDate == logs[0].timestamp
      && (exists l :: l in logs && l.timestamp == c.returnCallDate)
      && c.daysBetween == Days(c.firstCallDate, c.returnCallDate)
      && c.daysBetween >= minDays
      && (forall l :: l in logs && Days(c.firstCallDate, l.timestamp) >= minDays ==> c.returnCallDate <= l.timestamp)
      && c.daysBetween <= Days(c.firstCallDate, logs[|logs| - 1].timestamp)
  {
    var c := AssessSorted(logs, minDays).value;
    var first := logs[0].timestamp;
    ReturnCallEarliest(logs, minDays);
    var newest := logs[|logs| - 1];
    assert newest in logs;
    DaysMonotonic(first, c.returnCallDate, first, newest.timestamp);
  }

  /** The history holds calls of the group only. */
  lemma HistoryFromGroup(group: seq<WebLog>, minDays: int)
    requires Assess(group, minDays).Some?
    ensures forall l :: l in Assess(group, minDays).value.callHistory ==> l in group
  {
    var h := Assess(group, minDays).value.callHistory;
    AssessHistory(group, minDays);
    forall l | l in h ensures l in group {
      assert l in multiset(h);
    }
  }

  /** The dates: the first call is the group's oldest; the return call is a
      call of the group at least `minDays` whole days after it and no later
      than any other such call; the reported gap is at least `minDays` and at
      most the gap to the group's newest call. */
  lemma AssessDates(group: seq<WebLog>, minDays: int)
    requires minDays >= 1
    requires Assess(group, minDays).Some?
    ensures var c := Assess(group, minDays).value;
      && (exists l :: l in group && l.timestamp == c.firstCallDate)
      && (forall l :: l in group ==> c.firstCallDate <= l.timestamp)
      && (exists l :: l in group && l.timestamp == c.returnCallDate)
      && c.daysBetween == Days(c.firstCallDate, c.returnCallDate)
      && c.daysBetween >= minDays
      && (forall l :: l in group && Days(c.firstCallDate, l.timestamp) >= minDays ==> c.returnCallDate <= l.timestamp)
      && (exists l :: l in group && c.daysBetween <= Days(c.firstCallDate, l.timestamp) &&
            forall m :: m in group ==> m.timestamp <= l.timestamp)
  {
    var logs := SortAsc(group, Timestamp);
    AssessSortedDates(logs, minDays);
    SortedAscFacts(group);
    assert logs[0] in logs && logs[|logs| - 1] in logs;
  }

  /** The number shown is a `+91` number of the group if there is one, and
      otherwise the number of an oldest call; either way it normalises to the
      group's key. */
  lemma AssessPhone(group: seq<WebLog>, minDays: int, key: string)
    requires Assess(group, minDays).Some?
    requires forall l :: l in group ==> NormOf(l) == key
    ensures var c := Assess(group, minDays).value;
      && CustomerKey(c) == key
      && ((exists l :: l in group && StartsWith(l.phoneNumber, "+91")) ==> StartsWith(c.phoneNumber, "+91"))
      && (exists l :: l in group && l.phoneNumber == c.phoneNumber &&
            ((forall m :: m in group ==> !StartsWith(m.phoneNumber, "+91")) ==> l.timestamp == c.firstCallDate))
  {
    var logs := SortAsc(group, Timestamp);
    SortedAscFacts(group);
    assert logs[0] in logs;
  }

  // ---- What the whole list says ----

  /** Every customer of the unsorted list is that of one of the keys. */
  lemma CustomersFromKeys(s: seq<WebLog>, keys: seq<string>, minDays: int, c: ReturningCustomer)
    requires c in Customers(s, keys, minDays)
    ensures exists k :: k in keys && Assess(GroupOf(s, k), minDays) == Some(c)
  {
    CollectMember(keys, CustomerFor(s, minDays), c);
    var k :| k in keys && CustomerFor(s, minDays)(k) == Some(c);
    assert Assess(GroupOf(s, k), minDays) == Some(c);
  }

  /** A key whose group is a returning customer is in the unsorted list. */
  lemma KeysYieldCustomers(s: seq<WebLog>, keys: seq<string>, minDays: int, k: string)
    requires k in keys && Assess(GroupOf(s, k), minDays).Some?
    ensures Assess(GroupOf(s, k), minDays).value in Customers(s, keys, minDays)
  {
    var c := Assess(GroupOf(s, k), minDays).value;
    assert CustomerFor(s, minDays)(k) == Some(c);
    CollectMember(keys, CustomerFor(s, minDays), c);
  }

  /** Distinct keys give customers with distinct keys. */
  lemma CustomersDistinct(s: seq<WebLog>, keys: seq<string>, minDays: int)
    requires Distinct(keys)
    ensures DistinctBy(Customers(s, keys, minDays), CustomerKey)
  {
    var f := CustomerFor(s, minDays);
    forall k | k in keys && f(k).Some? ensures CustomerKey(f(k).value) == k {
      assert f(k) == Assess(GroupOf(s, k), minDays);
      GroupOfMember(s, k);
      AssessPhone(GroupOf(s, k), minDays, k);
    }
    CollectDistinct(keys, f, CustomerKey);
  }

  /** The membership of the sorted list is that of the unsorted one. */
  lemma InAnalysis(data: seq<WebLog>, excluded: seq<string>, minDays: int, cutoff: int, c: ReturningCustomer)
    ensures var filtered := Analysed(data, excluded, cutoff);
      c in Analysis(data, excluded, minDays, cutoff) <==> c in Customers(filtered, GroupKeys(filtered), minDays)
  {
    var r := Analysis(data, excluded, minDays, cutoff);
    assert c in r <==> c in multiset(r);
  }

  /** The customer of a number's group carries that number and only its calls. */
  lemma GroupCustomer(s: seq<WebLog>, k: string, minDays: int)
    requires Assess(GroupOf(s, k), minDays).Some?
    ensures var c := Assess(GroupOf(s, k), minDays).value;
      CustomerKey(c) == k && forall l :: l in c.callHistory ==> l in s && NormOf(l) == k
  {
    var g := GroupOf(s, k);
    GroupOfMember(s, k);
    AssessPhone(g, minDays, k);
    HistoryFromGroup(g, minDays);
  }

  /** Each reported customer is the customer of one normalised number of the
      analysed logs: the logs of its history are from the cutoff on, not
      excluded, and all normalise to that number, which the shown number
      normalises to as well. */
  lemma ReportedCustomer(data: seq<WebLog>, excluded: seq<string>, minDays: int, cutoff: int, c: ReturningCustomer)
    requires c in Analysis(data, excluded, minDays, cutoff)
    ensures var filtered := Analysed(data, excluded, cutoff);
      exists k :: k in GroupKeys(filtered) && Assess(GroupOf(filtered, k), minDays) == Some(c)
    ensures forall l :: l in c.callHistory ==>
      l in data && l.timestamp >= cutoff && !Excluded(l.phoneNumber, excluded) && NormOf(l) == CustomerKey(c)
  {
    var filtered := Analysed(data, excluded, cutoff);
    InAnalysis(data, excluded, minDays, cutoff, c);
    CustomersFromKeys(filtered, GroupKeys(filtered), minDays, c);
    var k :| k in GroupKeys(filtered) && Assess(GroupOf(filtered, k), minDays) == Some(c);
    GroupCustomer(filtered, k, minDays);
  }

  /** The list has each normalised number at most once, is ordered by the gap,
      longest first, and misses no returning customer. */
  lemma AnalysisList(data: seq<WebLog>, excluded: seq<string>, minDays: int, cutoff: int)
    ensures var r := Analysis(data, excluded, minDays, cutoff);
      && DistinctBy(r, CustomerKey)
      && SortedDesc(r, DaysBetween)
    ensures var filtered := Analysed(data, excluded, cutoff);
      forall k :: k in GroupKeys(filtered) && Assess(GroupOf(filtered, k), minDays).Some? ==>
        Assess(GroupOf(filtered, k), minDays).value in Analysis(data, excluded, minDays, cutoff)
  {
    var filtered := Analysed(data, excluded, cutoff);
    var keys := GroupKeys(filtered);
    GroupKeysDistinct(filtered);
    CustomersDistinct(filtered, keys, minDays);
    var u := Customers(filtered, keys, minDays);
    DistinctByPermutation(u, SortDesc(u, DaysBetween), CustomerKey);
    forall k | k in keys && Assess(GroupOf(filtered, k), minDays).Some?
      ensures Assess(GroupOf(filtered, k), minDays).value in Analysis(data, excluded, minDays, cutoff)
    {
      KeysYieldCustomers(filtered, keys, minDays, k);
      InAnalysis(data, excluded, minDays, cutoff, Assess(GroupOf(filtered, k), minDays).value);
    }
  }
}
