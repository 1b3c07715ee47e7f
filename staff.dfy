/** The staff controller: listing the STAFF users, creating one when the phone
    number is free, and deleting one by id. Password hashing is an oracle
    `encode` passed in. */
module Staff {
  import opened Wrappers
  import opened Seqs
  import opened Users

  const DUPLICATE_PHONE := "Staff with this phone number already exists"

  /** What the controller returns for a user: no password hash, the role by name. */
  datatype UserResponse = UserResponse(id: int, name: string, phone: string, role: string)

  function RoleName(r: Role): string
  {
    match r
    case ADMIN => "ADMIN"
    case STAFF => "STAFF"
  }

  function ToResponse(u: User): UserResponse
  {
    UserResponse(u.id, u.name, u.phone, RoleName(u.role))
  }

  /** `getAllStaff`: the STAFF users, in table order, as responses. */
  function AllStaff(users: seq<User>): (r: seq<UserResponse>)
    ensures forall x :: x in r <==> exists u :: u in users && u.role == STAFF && ToResponse(u) == x
    ensures forall x :: x in r ==> x.role == "STAFF"
  {
    var staff := FindByRole(users, STAFF);
    var r := MapSeq(staff, ToResponse);
    assert forall u :: u in staff <==> u in users && u.role == STAFF by {
      forall u ensures u in staff <==> u in users && u.role == STAFF {
        assert u in staff <==> multiset(staff)[u] > 0;
      }
    }
    assert forall x :: x in r ==> exists u :: u in staff && ToResponse(u) == x by {
      forall x | x in r ensures exists u :: u in staff && ToResponse(u) == x {
        var i :| 0 <= i < |r| && r[i] == x;
        assert staff[i] in staff;
      }
    }
    assert forall u :: u in staff ==> ToResponse(u) in r by {
      forall u | u in staff ensures ToResponse(u) in r {
        var i :| 0 <= i < |staff| && staff[i] == u;
        assert r[i] == ToResponse(u);
      }
    }
    r
  }

  /** `createStaff`: rejected with the table unchanged when the phone is taken;
      otherwise a STAFF user is saved with the next id and returned. */
  function Create(d: Directory, name: string, phone: string, password: string, encode: string -> string)
    : (r: (Directory, Result<UserResponse, string>))
  {
    if FindByPhone(d.users, phone).Some? then (d, Err(DUPLICATE_PHONE))
    else
      var saved := SaveNew(d, name, phone, encode(password), STAFF);
      (saved.0, Ok(ToResponse(saved.1)))
  }

  /** The outcome of `createStaff`: failure exactly when some user has the
      phone, and then nothing changes; on success one user is appended, with the
      request's name and phone, role STAFF and the encoded password. */
  lemma CreateStaffOutcome(d: Directory, name: string, phone: string, password: string, encode: string -> string)
    ensures var r := Create(d, name, phone, password, encode);
      && (r.1.Err? <==> exists u :: u in d.users && u.phone == phone)
      && (r.1.Err? ==> r.0 == d && r.1.error == DUPLICATE_PHONE)
      && (r.1.Ok? ==>
            && r.0.nextId == d.nextId + 1
            && r.0.users == d.users + [User(d.nextId, name, phone, encode(password), STAFF)]
            && r.1.value == UserResponse(d.nextId, name, phone, "STAFF"))
  {
  }

  /** A created staff member is listed by `getAllStaff`, and nobody else is added
      to the list. */
  lemma CreateStaffIsListed(d: Directory, name: string, phone: string, password: string, encode: string -> string)
    requires FindByPhone(d.users, phone).None?
    ensures var r := Create(d, name, phone, password, encode);
      && r.1.Ok?
      && r.1.value in AllStaff(r.0.users)
      && forall x :: x in AllStaff(r.0.users) <==> x in AllStaff(d.users) || x == r.1.value
  {
    var r := Create(d, name, phone, password, encode);
    var u := User(d.nextId, name, phone, encode(password), STAFF);
    var before := AllStaff(d.users);
    var after := AllStaff(d.users + [u]);
    assert r.0.users == d.users + [u] && r.1 == Ok(ToResponse(u));
    assert u in d.users + [u];
    forall x | x in after ensures x in before || x == ToResponse(u) {
      var v :| v in d.users + [u] && v.role == STAFF && ToResponse(v) == x;
      if v != u {
        assert v in d.users;
      }
    }
    forall x | x in before ensures x in after {
      var v :| v in d.users && v.role == STAFF && ToResponse(v) == x;
      assert v in d.users + [u];
    }
  }

  /** Creating keeps the table well formed, in particular phone numbers unique. */
  lemma CreateStaffKeepsWellFormed(d: Directory, name: string, phone: string, password: string, encode: string -> string)
    requires WellFormed(d)
    ensures WellFormed(Create(d, name, phone, password, encode).0)
  {
    if FindByPhone(d.users, phone).None? {
      SaveNewKeepsWellFormed(d, name, phone, encode(password), STAFF);
    }
  }

  /** The same phone cannot be registered twice. */
  lemma CreateStaffTwiceFails(d: Directory, name: string, phone: string, password: string,
                              name2: string, password2: string, encode: string -> string)
    ensures var first := Create(d, name, phone, password, encode);
      Create(first.0, name2, phone, password2, encode) == (first.0, Err(DUPLICATE_PHONE))
  {
    var first := Create(d, name, phone, password, encode);
    if first.1.Ok? {
      assert User(d.nextId, name, phone, encode(password), STAFF) in first.0.users;
    }
  }

  /** After `deleteStaff(id)` the list is the old one without that id. */
  lemma DeleteStaffUnlists(users: seq<User>, id: int)
    ensures forall x :: x in AllStaff(WithoutId(users, id)) <==> x in AllStaff(users) && x.id != id
  {
    var after := WithoutId(users, id);
    forall x ensures x in AllStaff(after) <==> x in AllStaff(users) && x.id != id {
      if x in AllStaff(users) && x.id != id {
        var u :| u in users && u.role == STAFF && ToResponse(u) == x;
        assert u in after;
      }
    }
  }

  /** The controller over the shared user repository. */
  class StaffController {
    const repository: UserRepository

    constructor(repository: UserRepository)
      ensures this.repository == repository
    {
      this.repository := repository;
    }

    method CreateStaff(name: string, phone: string, password: string, encode: string -> string)
      returns (r: Result<UserResponse, string>)
      requires repository.Valid()
      modifies repository
      ensures repository.Valid()
      ensures (repository.State(), r) == Create(old(repository.State()), name, phone, password, encode)
    {
      if FindByPhone(repository.users, phone).Some? {
        return Err(DUPLICATE_PHONE);
      }
      var saved := repository.Save(name, phone, encode(password), STAFF);
      r := Ok(ToResponse(saved));
    }

    method DeleteStaff(id: int)
      requires repository.Valid()
      modifies repository
      ensures repository.Valid()
      ensures repository.users == WithoutId(old(repository.users), id)
      ensures repository.nextId == old(repository.nextId)
    {
      repository.DeleteById(id);
    }
  }
}
