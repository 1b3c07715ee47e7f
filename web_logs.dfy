/** What the two dashboard pages share: the call log as the web client
    receives it, the August 2025 cutoff, and `formatDuration`. Timestamps are
    milliseconds since the epoch, already parsed from the JSON strings. */
module WebLogs {
  import opened Wrappers
  import opened Seqs
  import opened Text

  /** A fetched log. A missing `staff.name` or `contactName` is the empty
      string, which is falsy in the pages' `||` and `find` tests just as
      `null` would be. */
  datatype WebLog = WebLog(
    id: int,
    staffId: string,
    staffName: string,
    phoneNumber: string,
    contactName: string,
    callType: string,
    duration: string,
    timestamp: int)

  function Timestamp(l: WebLog): int { l.timestamp }

  function Number(l: WebLog): string { l.phoneNumber }

  /** 2025-08-01T00:00:00Z. */
  const AUG_2025_UTC_MS := 1754006400000

  /** `new Date(2025, 7, 1).getTime()`: local midnight of 1 August 2025 in a
      zone `tzOffsetMs` milliseconds east of UTC. */
  function Cutoff(tzOffsetMs: int): int
  {
    AUG_2025_UTC_MS - tzOffsetMs
  }

  /** The logs from the cutoff on, in fetched order. */
  function AfterCutoff(data: seq<WebLog>, cutoff: int): (r: seq<WebLog>)
    ensures forall l :: multiset(r)[l] == if l.timestamp >= cutoff then multiset(data)[l] else 0
  {
    var p := (l: WebLog) => l.timestamp >= cutoff;
    FilterMultiset(data, p);
    Filter(data, p)
  }

  /** The cutoff filter keeps the fetched order: it filters each part of the
      fetched list on its own, and keeps a single log exactly when it is not
      older than the cutoff. */
  lemma AfterCutoffKeepsOrder(a: seq<WebLog>, b: seq<WebLog>, l: WebLog, cutoff: int)
    ensures AfterCutoff(a + b, cutoff) == AfterCutoff(a, cutoff) + AfterCutoff(b, cutoff)
    ensures AfterCutoff([l], cutoff) == if l.timestamp >= cutoff then [l] else []
  {
    var p := (l: WebLog) => l.timestamp >= cutoff;
    FilterConcat(a, b, p);
    assert [l][1..] == [];
  }

  /** `formatDuration` for a duration that parses to `secs`. */
  function FormatDuration(secs: nat): string
  {
    if secs >= 60 then Decimal(secs / 60) + "m " + Decimal(secs % 60) + "s"
    else Decimal(secs) + "s"
  }

  /** The length of the run of digits at the start of `s`. */
  function DigitRun(s: string): (n: nat)
    ensures n <= |s|
    decreases |s|
  {
    if s == [] || !IsDigit(s[0]) then 0 else 1 + DigitRun(s[1..])
  }

  /** A run of digits followed by a non-digit, or by nothing, is read whole. */
  lemma {:induction false} DigitRunPrefix(d: string, rest: string)
    requires AllDigits(d)
    requires rest == [] || !IsDigit(rest[0])
    ensures DigitRun(d + rest) == |d|
    decreases |d|
  {
    if d != [] {
      assert (d + rest)[1..] == d[1..] + rest;
      DigitRunPrefix(d[1..], rest);
    } else {
      assert d + rest == rest;
    }
  }

  /** Reads a rendered duration back: `<n>s`, or `<m>m <s>s` meaning `m * 60 + s`. */
  function ReadDuration(t: string): Option<nat>
  {
    var k := DigitRun(t);
    if k == 0 then None
    else
      var a := t[..k];
      var rest := t[k..];
      if !AllDigits(a) then None
      else if rest == "s" then Some(DigitsValue(a))
      else if |rest| >= 2 && rest[..2] == "m " then
        var u := rest[2..];
        var k2 := DigitRun(u);
        if k2 == 0 || !AllDigits(u[..k2]) || u[k2..] != "s" then None
        else Some(DigitsValue(a) * 60 + DigitsValue(u[..k2]))
      else None
  }

  /** Reading `Decimal(n)` followed by `rest` takes exactly the numeral. */
  lemma ReadNumeral(n: nat, rest: string)
    requires rest == [] || !IsDigit(rest[0])
    ensures var t := Decimal(n) + rest; var k := DigitRun(t);
      k == |Decimal(n)| && t[..k] == Decimal(n) && t[k..] == rest &&
      AllDigits(t[..k]) && DigitsValue(t[..k]) == n && k > 0
  {
    DecimalRoundTrip(n);
    DigitRunPrefix(Decimal(n), rest);
    var t := Decimal(n) + rest;
    assert t[..|Decimal(n)|] == Decimal(n);
    assert t[|Decimal(n)|..] == rest;
  }

  lemma Regroup(a: string, b: string, c: string, d: string)
    ensures a + b + c + d == a + (b + (c + d))
  {
  }

  /** `<m>m <s>s` reads back as `m * 60 + s`. */
  lemma ReadMinutes(m: nat, s: nat)
    ensures ReadDuration(Decimal(m) + ("m " + (Decimal(s) + "s"))) == Some(m * 60 + s)
  {
    var tail := Decimal(s) + "s";
    var rest := "m " + tail;
    var t := Decimal(m) + rest;
    ReadNumeral(m, rest);
    ReadNumeral(s, "s");
    var k := DigitRun(t);
    assert t[k..] == rest && |rest| >= 3 && rest[..2] == "m " && rest[2..] == tail;
    var k2 := DigitRun(tail);
    assert tail[..k2] == Decimal(s) && tail[k2..] == "s";
  }

  /** A rendered duration reads back as the seconds it was made from. Below a
      minute it is the seconds alone, `<secs>s`; from a minute on it is `<m>m <s>s`
      with `s < 60` and `m * 60 + s` the whole duration. */
  lemma FormatDurationRoundTrip(secs: nat)
    ensures ReadDuration(FormatDuration(secs)) == Some(secs)
    ensures secs < 60 ==> FormatDuration(secs) == Decimal(secs) + "s"
    ensures secs >= 60 ==> exists m: nat, s: nat ::
      s < 60 && m * 60 + s == secs && FormatDuration(secs) == Decimal(m) + "m " + Decimal(s) + "s"
  {
    if secs >= 60 {
      var m, s := secs / 60, secs % 60;
      assert m * 60 + s == secs;
      ReadMinutes(m, s);
      Regroup(Decimal(m), "m ", Decimal(s), "s");
      assert s < 60 && FormatDuration(secs) == Decimal(m) + "m " + Decimal(s) + "s";
    } else {
      ReadNumeral(secs, "s");
    }
  }

  /** Different durations are rendered differently. */
  lemma FormatDurationInjective(a: nat, b: nat)
    ensures FormatDuration(a) == FormatDuration(b) ==> a == b
  {
    FormatDurationRoundTrip(a);
    FormatDurationRoundTrip(b);
  }
}
