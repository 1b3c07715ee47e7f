/** The system-config controller: the sync interval stored under one key of
    a key-value table, read with a default and updated after validation. */
module Settings {
  import opened Wrappers
  import opened Text

  const SYNC_INTERVAL_KEY := "sync_interval_minutes"
  const DEFAULT_SYNC_INTERVAL := "15"
  const VALUE_REQUIRED := "Value is required"
  const NOT_A_NUMBER := "Value must be a number"

  /** The `system_config` table: config key to config value. */
  type ConfigTable = map<string, string>

  /** `getSyncInterval`: the stored value, or "15" when there is none. */
  function SyncInterval(entries: ConfigTable): string
  {
    if SYNC_INTERVAL_KEY in entries then entries[SYNC_INTERVAL_KEY] else DEFAULT_SYNC_INTERVAL
  }

  /** `updateSyncInterval`: the table afterwards and the value returned, or the
      error the controller throws. */
  function Update(entries: ConfigTable, request: map<string, string>)
    : (r: (ConfigTable, Result<string, string>))
  {
    if "value" !in request then (entries, Err(VALUE_REQUIRED))
    else
      var newValue := request["value"];
      if ToIntOrNull(newValue).None? then (entries, Err(NOT_A_NUMBER))
      else (entries[SYNC_INTERVAL_KEY := newValue], Ok(newValue))
  }

  /** An update fails exactly when the value is missing or is not a 32-bit
      integer, and then the table is unchanged. */
  lemma UpdateRejects(entries: ConfigTable, request: map<string, string>)
    ensures var r := Update(entries, request);
      && (r.1 == Err(VALUE_REQUIRED) <==> "value" !in request)
      && (r.1 == Err(NOT_A_NUMBER) <==> "value" in request && ToIntOrNull(request["value"]).None?)
      && (r.1.Err? ==> r.0 == entries)
  {
  }

  /** After a successful update the interval reads back as the new value, which
      is also what the update returned; the key exists afterwards, and no other
      key is touched. */
  lemma UpdateRoundTrip(entries: ConfigTable, request: map<string, string>)
    ensures var r := Update(entries, request);
      r.1.Ok? ==>
        && r.1.value == request["value"]
        && SyncInterval(r.0) == r.1.value
        && SYNC_INTERVAL_KEY in r.0
        && r.0.Keys == entries.Keys + {SYNC_INTERVAL_KEY}
        && forall k :: k in entries && k != SYNC_INTERVAL_KEY ==> r.0[k] == entries[k]
  {
  }

  /** Any 32-bit integer written as a numeral is accepted. */
  lemma UpdateAcceptsNumbers(entries: ConfigTable, n: int)
    requires INT_MIN <= n <= INT_MAX
    ensures Update(entries, map["value" := IntToString(n)]).1 == Ok(IntToString(n))
  {
    ToIntOrNullRoundTrip(n);
  }

  /** A stored interval is always a valid number. */
  ghost predicate Valid(entries: ConfigTable)
  {
    SYNC_INTERVAL_KEY in entries ==> ToIntOrNull(entries[SYNC_INTERVAL_KEY]).Some?
  }

  /** Updates keep the table valid, so the interval read is always a number. */
  lemma UpdateKeepsValid(entries: ConfigTable, request: map<string, string>)
    requires Valid(entries)
    ensures Valid(Update(entries, request).0)
    ensures ToIntOrNull(SyncInterval(Update(entries, request).0)).Some?
  {
    ToIntOrNullRoundTrip(15);
    assert IntToString(15) == DEFAULT_SYNC_INTERVAL by {
      assert Decimal(15) == Decimal(1) + [DigitChar(5)];
    }
  }

  /** Repeating an update changes nothing more. */
  lemma UpdateIdempotent(entries: ConfigTable, request: map<string, string>)
    ensures var first := Update(entries, request);
      Update(first.0, request) == first
  {
    var first := Update(entries, request);
    if first.1.Ok? {
      var v := request["value"];
      assert first.0[SYNC_INTERVAL_KEY := v] == first.0;
    }
  }

  /** The config repository, changed in place. */
  class ConfigStore {
    var entries: ConfigTable

    constructor(initial: ConfigTable)
      ensures entries == initial
    {
      entries := initial;
    }

    /** `findByKey`. */
    method FindByKey(key: string) returns (value: Option<string>)
      ensures value == if key in entries then Some(entries[key]) else None
    {
      value := if key in entries then Some(entries[key]) else None;
    }

    /** `save` of one row. */
    method Save(key: string, value: string)
      modifies this
      ensures entries == old(entries)[key := value]
    {
      entries := entries[key := value];
    }

    method GetSyncInterval() returns (value: string)
      ensures value == SyncInterval(entries)
    {
      var config := FindByKey(SYNC_INTERVAL_KEY);
      value := config.GetOr(DEFAULT_SYNC_INTERVAL);
    }

    method UpdateSyncInterval(request: map<string, string>) returns (r: Result<string, string>)
      modifies this
      ensures (entries, r) == Update(old(entries), request)
    {
      if "value" !in request {
        return Err(VALUE_REQUIRED);
      }
      var newValue := request["value"];
      if ToIntOrNull(newValue).None? {
        return Err(NOT_A_NUMBER);
      }
      Save(SYNC_INTERVAL_KEY, newValue);
      r := Ok(newValue);
    }
  }
}
