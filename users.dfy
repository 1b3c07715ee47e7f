/** The backend's user table as the staff controller, the heartbeat controller
    and the data initializer use it: look-ups by phone and by role, saving a new
    user and deleting one by id. */
module Users {
  import opened Wrappers
  import opened Seqs

  datatype Role = ADMIN | STAFF

  /** A user; the UUID id is an integer here. */
  datatype User = User(id: int, name: string, phone: string, passwordHash: string, role: Role)

  /** The table, with the next id the database would hand out. */
  datatype Directory = Directory(users: seq<User>, nextId: int)

  function Id(u: User): int { u.id }

  function Phone(u: User): string { u.phone }

  /** Ids are a primary key, the next id is fresh, and no two users share a
      phone (which every insertion below checks first). */
  ghost predicate WellFormed(d: Directory)
  {
    && DistinctBy(d.users, Id)
    && DistinctBy(d.users, Phone)
    && forall u :: u in d.users ==> u.id < d.nextId
  }

  /** `findByPhone`. */
  function FindByPhone(users: seq<User>, phone: string): (r: Option<User>)
    ensures r.None? <==> forall u :: u in users ==> u.phone != phone
    ensures r.Some? ==> r.value in users && r.value.phone == phone
    decreases |users|
  {
    if users == [] then None
    else if users[0].phone == phone then Some(users[0])
    else
      assert forall u :: u in users ==> u == users[0] || u in users[1..];
      FindByPhone(users[1..], phone)
  }

  /** With phones unique, the user found is the only one with that phone. */
  lemma FindByPhoneUnique(d: Directory, phone: string)
    requires WellFormed(d)
    ensures forall u :: u in d.users && u.phone == phone ==> FindByPhone(d.users, phone) == Some(u)
  {
    forall u | u in d.users && u.phone == phone ensures FindByPhone(d.users, phone) == Some(u) {
      var v := FindByPhone(d.users, phone).value;
      var i :| 0 <= i < |d.users| && d.users[i] == u;
      var j :| 0 <= j < |d.users| && d.users[j] == v;
      assert Phone(d.users[i]) == Phone(d.users[j]);
    }
  }

  /** `findByRole`: the users of that role, each as often as stored, in table order. */
  function FindByRole(users: seq<User>, role: Role): (r: seq<User>)
    ensures forall u :: multiset(r)[u] == if u.role == role then multiset(users)[u] else 0
  {
    var p := (u: User) => u.role == role;
    FilterMultiset(users, p);
    Filter(users, p)
  }

  /** `save` of a new user: appended with the next id. */
  function SaveNew(d: Directory, name: string, phone: string, passwordHash: string, role: Role): (r: (Directory, User))
    ensures r.1 == User(d.nextId, name, phone, passwordHash, role)
    ensures r.0.users == d.users + [r.1] && r.0.nextId == d.nextId + 1
  {
    var u := User(d.nextId, name, phone, passwordHash, role);
    (Directory(d.users + [u], d.nextId + 1), u)
  }

  /** Saving a user whose phone nobody has keeps the table well formed. */
  lemma SaveNewKeepsWellFormed(d: Directory, name: string, phone: string, passwordHash: string, role: Role)
    requires WellFormed(d)
    requires FindByPhone(d.users, phone).None?
    ensures WellFormed(SaveNew(d, name, phone, passwordHash, role).0)
  {
    var u := SaveNew(d, name, phone, passwordHash, role).1;
    AppendDistinctBy(d.users, u, Id);
    AppendDistinctBy(d.users, u, Phone);
  }

  /** What `deleteById` leaves: every user but the one with that id, in order. */
  function WithoutId(users: seq<User>, id: int): (r: seq<User>)
    ensures forall u :: u in r <==> u in users && u.id != id
  {
    Filter(users, (u: User) => u.id != id)
  }

  /** Deleting keeps the table well formed, and removes at most one user. */
  lemma DeleteByIdKeepsWellFormed(d: Directory, id: int)
    requires WellFormed(d)
    ensures WellFormed(Directory(WithoutId(d.users, id), d.nextId))
    ensures |d.users| - 1 <= |WithoutId(d.users, id)| <= |d.users|
  {
    var p := (u: User) => u.id != id;
    FilterDistinctBy(d.users, p, Id);
    FilterDistinctBy(d.users, p, Phone);
    DeleteRemovesAtMostOne(d.users, id);
  }

  /** With ids unique, at most one user has a given id. */
  lemma {:induction false} DeleteRemovesAtMostOne(users: seq<User>, id: int)
    requires DistinctBy(users, Id)
    ensures |users| - 1 <= |WithoutId(users, id)| <= |users|
    decreases |users|
  {
    if users != [] {
      var rest := users[1..];
      assert DistinctBy(rest, Id) by {
        forall i, j | 0 <= i < j < |rest| ensures Id(rest[i]) != Id(rest[j]) {
          assert rest[i] == users[i + 1] && rest[j] == users[j + 1];
        }
      }
      DeleteRemovesAtMostOne(rest, id);
      if users[0].id == id {
        forall u | u in rest ensures u.id != id {
          var k :| 0 <= k < |rest| && rest[k] == u;
          assert Id(users[0]) != Id(users[k + 1]);
        }
        FilterAll(rest, (u: User) => u.id != id);
      }
    }
  }

  /** The user table, changed in place. */
  class UserRepository {
    var users: seq<User>
    var nextId: int

    function State(): Directory
      reads this
    {
      Directory(users, nextId)
    }

    ghost predicate Valid()
      reads this
    {
      WellFormed(State())
    }

    constructor()
      ensures Valid() && users == []
    {
      users := [];
      nextId := 0;
    }

    /** `save` of a new user, whose phone the caller checked to be unused. */
    method Save(name: string, phone: string, passwordHash: string, role: Role) returns (saved: User)
      requires Valid()
      requires FindByPhone(users, phone).None?
      modifies this
      ensures Valid()
      ensures (State(), saved) == SaveNew(old(State()), name, phone, passwordHash, role)
    {
      SaveNewKeepsWellFormed(State(), name, phone, passwordHash, role);
      saved := User(nextId, name, phone, passwordHash, role);
      users := users + [saved];
      nextId := nextId + 1;
    }

    method DeleteById(id: int)
      requires Valid()
      modifies this
      ensures Valid()
      ensures users == WithoutId(old(users), id) && nextId == old(nextId)
    {
      DeleteByIdKeepsWellFormed(State(), id);
      users := WithoutId(users, id);
    }
  }
}
