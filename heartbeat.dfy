/** The heartbeat controller: an in-memory map from a user's id (as a string)
    to the time of that user's last heartbeat, written by `sendHeartbeat` and
    read by `getStatus`. Token parsing is an oracle `usernameOf` that yields the
    phone number a token names, or nothing when parsing throws; the clock is
    the parameter `now`, in milliseconds. */
module Heartbeat {
  import opened Wrappers
  import opened Seqs
  import opened Text
  import opened Users

  /** A staff member is live when the last heartbeat is less than two minutes old. */
  const LIVE_WINDOW_MS := 120000

  datatype HeartbeatResponse = HeartbeatResponse(status: string, timestamp: int)

  datatype UserStatus = UserStatus(staffId: string, staffName: string, isLive: bool, lastHeartbeat: Option<int>)

  /** `user.id.toString()`. */
  function IdKey(id: int): string
  {
    IntToString(id)
  }

  /** The header with a leading `Bearer ` removed, then trimmed as Kotlin's `trim()` does. */
  function BearerToken(auth: string): string
  {
    Trim(RemovePrefix(auth, "Bearer "), KotlinSpace)
  }

  /** The user the Authorization header names, if the token parses and the
      phone it carries belongs to a user. */
  function Sender(users: seq<User>, auth: string, usernameOf: string -> Option<string>): Option<User>
  {
    match usernameOf(BearerToken(auth))
    case None => None
    case Some(phone) => FindByPhone(users, phone)
  }

  /** `sendHeartbeat`: the new map and the response. */
  function Send(heartbeats: map<string, int>, users: seq<User>, auth: string, now: int,
                         usernameOf: string -> Option<string>): (r: (map<string, int>, HeartbeatResponse))
  {
    var after := match Sender(users, auth, usernameOf)
      case None => heartbeats
      case Some(u) => heartbeats[IdKey(u.id) := now];
    (after, HeartbeatResponse("ok", now))
  }

  /** The response is always `ok` with the current time, whatever the token;
      the sender's entry, and only it, is set to `now`; without a sender the
      map is unchanged. */
  lemma SendHeartbeatEffect(heartbeats: map<string, int>, users: seq<User>, auth: string, now: int,
                            usernameOf: string -> Option<string>)
    ensures var r := Send(heartbeats, users, auth, now, usernameOf);
      && r.1 == HeartbeatResponse("ok", now)
      && (Sender(users, auth, usernameOf).None? ==> r.0 == heartbeats)
      && (Sender(users, auth, usernameOf).Some? ==>
            var key := IdKey(Sender(users, auth, usernameOf).value.id);
            && key in r.0 && r.0[key] == now
            && r.0.Keys == heartbeats.Keys + {key}
            && forall k :: k in heartbeats && k != key ==> r.0[k] == heartbeats[k])
  {
  }

  /** A sender is a user whose phone the token carries. */
  lemma SenderIsTokenUser(users: seq<User>, auth: string, usernameOf: string -> Option<string>)
    ensures var s := Sender(users, auth, usernameOf);
      && (s.Some? ==> s.value in users && usernameOf(BearerToken(auth)) == Some(s.value.phone))
      && (s.None? <==> usernameOf(BearerToken(auth)).None?
                       || forall u :: u in users ==> Some(u.phone) != usernameOf(BearerToken(auth)))
  {
  }

  /** Two users with different ids never share a heartbeat entry. */
  lemma IdKeysDistinct(a: int, b: int)
    ensures a != b ==> IdKey(a) != IdKey(b)
  {
    IntToStringInjective(a, b);
  }

  /** The status of one user at time `now`. */
  function StatusOf(heartbeats: map<string, int>, now: int, u: User): UserStatus
  {
    var key := IdKey(u.id);
    var last := if key in heartbeats then Some(heartbeats[key]) else None;
    UserStatus(key, u.name, last.Some? && last.value > now - LIVE_WINDOW_MS, last)
  }

  function LastOrZero(s: UserStatus): int
  {
    s.lastHeartbeat.GetOr(0)
  }

  /** The statuses before sorting, in table order. */
  function Statuses(users: seq<User>, heartbeats: map<string, int>, now: int): seq<UserStatus>
  {
    MapSeq(FindByRole(users, STAFF), (u: User) => StatusOf(heartbeats, now, u))
  }

  /** `getStatus`: one entry per STAFF user, most recent heartbeat first, a
      missing heartbeat counting as 0. */
  function GetStatus(users: seq<User>, heartbeats: map<string, int>, now: int): (r: seq<UserStatus>)
    ensures multiset(r) == multiset(Statuses(users, heartbeats, now))
    ensures SortedDesc(r, LastOrZero)
  {
    SortDesc(Statuses(users, heartbeats, now), LastOrZero)
  }

  /** An entry reports the stored heartbeat of its id, and is live exactly when
      that heartbeat exists and is later than `now - 120000`. */
  predicate Reports(heartbeats: map<string, int>, now: int, s: UserStatus)
  {
    && s.lastHeartbeat == (if s.staffId in heartbeats then Some(heartbeats[s.staffId]) else None)
    && (s.isLive <==> s.lastHeartbeat.Some? && s.lastHeartbeat.value > now - LIVE_WINDOW_MS)
  }

  /** The entries of the sorted list are those of the unsorted one. */
  lemma InGetStatus(users: seq<User>, heartbeats: map<string, int>, now: int, s: UserStatus)
    ensures s in GetStatus(users, heartbeats, now) <==> s in Statuses(users, heartbeats, now)
  {
    var r := GetStatus(users, heartbeats, now);
    assert s in r <==> s in multiset(r);
  }

  /** There is one entry per STAFF user. */
  lemma GetStatusLength(users: seq<User>, heartbeats: map<string, int>, now: int)
    ensures |GetStatus(users, heartbeats, now)| == |FindByRole(users, STAFF)|
  {
    var m := Statuses(users, heartbeats, now);
    var r := GetStatus(users, heartbeats, now);
    assert |r| == |multiset(r)| == |multiset(m)| == |m|;
  }

  /** Every STAFF user has an entry carrying that user's id and name. */
  lemma StaffHasStatus(users: seq<User>, heartbeats: map<string, int>, now: int, u: User)
    requires u in users && u.role == STAFF
    ensures exists s :: s in GetStatus(users, heartbeats, now) && s.staffId == IdKey(u.id) && s.staffName == u.name
  {
    var staff := FindByRole(users, STAFF);
    var m := Statuses(users, heartbeats, now);
    assert multiset(staff)[u] > 0;
    var i :| 0 <= i < |staff| && staff[i] == u;
    assert m[i] == StatusOf(heartbeats, now, u);
    InGetStatus(users, heartbeats, now, m[i]);
  }

  /** Every entry is that of a STAFF user, with that user's id and name. */
  lemma StatusIsStaff(users: seq<User>, heartbeats: map<string, int>, now: int, s: UserStatus)
    requires s in GetStatus(users, heartbeats, now)
    ensures exists u :: u in users && u.role == STAFF && s.staffId == IdKey(u.id) && s.staffName == u.name
  {
    var staff := FindByRole(users, STAFF);
    var m := Statuses(users, heartbeats, now);
    InGetStatus(users, heartbeats, now, s);
    var i :| 0 <= i < |m| && m[i] == s;
    assert m[i] == StatusOf(heartbeats, now, staff[i]);
    assert multiset(staff)[staff[i]] > 0;
  }

  /** Every entry reports its id's heartbeat and liveness. */
  lemma GetStatusLiveness(users: seq<User>, heartbeats: map<string, int>, now: int)
    ensures forall s :: s in GetStatus(users, heartbeats, now) ==> Reports(heartbeats, now, s)
  {
    var staff := FindByRole(users, STAFF);
    var m := Statuses(users, heartbeats, now);
    forall s | s in GetStatus(users, heartbeats, now) ensures Reports(heartbeats, now, s) {
      InGetStatus(users, heartbeats, now, s);
      var i :| 0 <= i < |m| && m[i] == s;
      assert m[i] == StatusOf(heartbeats, now, staff[i]);
    }
  }

  /** A staff member who has just sent a heartbeat shows as live until two
      minutes have passed. */
  lemma HeartbeatThenLive(heartbeats: map<string, int>, users: seq<User>, auth: string, now: int,
                          usernameOf: string -> Option<string>, later: int)
    requires Sender(users, auth, usernameOf).Some? && Sender(users, auth, usernameOf).value.role == STAFF
    requires now <= later < now + LIVE_WINDOW_MS
    ensures var u := Sender(users, auth, usernameOf).value;
      var after := Send(heartbeats, users, auth, now, usernameOf).0;
      forall s :: s in GetStatus(users, after, later) && s.staffId == IdKey(u.id) ==>
        s.isLive && s.lastHeartbeat == Some(now)
  {
    var after := Send(heartbeats, users, auth, now, usernameOf).0;
    GetStatusLiveness(users, after, later);
  }

  /** The controller's companion-object map, updated in place. */
  class HeartbeatMonitor {
    var heartbeats: map<string, int>

    constructor()
      ensures heartbeats == map[]
    {
      heartbeats := map[];
    }

    method SendHeartbeat(users: seq<User>, auth: string, now: int, usernameOf: string -> Option<string>)
      returns (response: HeartbeatResponse)
      modifies this
      ensures (heartbeats, response) == Send(old(heartbeats), users, auth, now, usernameOf)
    {
      var token := BearerToken(auth);
      var phone := usernameOf(token);
      if phone.Some? {
        var user := FindByPhone(users, phone.value);
        if user.Some? {
          heartbeats := heartbeats[IdKey(user.value.id) := now];
        }
      }
      response := HeartbeatResponse("ok", now);
    }
  }
}
