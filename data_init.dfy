/** The start-up seeding: an admin user, a field-staff user and the default
    sync interval, each created only when missing. Password hashing is the
    oracle `encode`. */
module DataInit {
  import opened Wrappers
  import opened Users
  import opened Settings

  const ADMIN_NAME := "Admin User"
  const ADMIN_PHONE := "9999999999"
  const ADMIN_PASSWORD := "10006"
  const STAFF_NAME := "Field Staff"
  const STAFF_PHONE := "1234567890"
  const STAFF_PASSWORD := "1234"

  /** Saves the user unless someone already has the phone. */
  function SeedUser(d: Directory, name: string, phone: string, passwordHash: string, role: Role): Directory
  {
    if FindByPhone(d.users, phone).None? then SaveNew(d, name, phone, passwordHash, role).0 else d
  }

  /** The config table after seeding: the interval set to "15" only when absent. */
  function SeedConfig(entries: ConfigTable): ConfigTable
  {
    if SYNC_INTERVAL_KEY in entries then entries else entries[SYNC_INTERVAL_KEY := DEFAULT_SYNC_INTERVAL]
  }

  /** The user table after `run`. */
  function SeedUsers(d: Directory, encode: string -> string): Directory
  {
    var withAdmin := SeedUser(d, ADMIN_NAME, ADMIN_PHONE, encode(ADMIN_PASSWORD), ADMIN);
    SeedUser(withAdmin, STAFF_NAME, STAFF_PHONE, encode(STAFF_PASSWORD), STAFF)
  }

  /** A seeded user is present afterwards, an existing holder of the phone is
      kept as it was, and nothing already stored is lost. */
  lemma SeedUserEffect(d: Directory, name: string, phone: string, passwordHash: string, role: Role)
    ensures var after := SeedUser(d, name, phone, passwordHash, role);
      && (exists u :: u in after.users && u.phone == phone)
      && (forall u :: u in d.users ==> u in after.users)
      && ((exists u :: u in d.users && u.phone == phone) ==> after == d)
      && (!(exists u :: u in d.users && u.phone == phone) ==>
            after.users == d.users + [User(d.nextId, name, phone, passwordHash, role)])
  {
    var after := SeedUser(d, name, phone, passwordHash, role);
    if FindByPhone(d.users, phone).None? {
      assert User(d.nextId, name, phone, passwordHash, role) in after.users;
    }
  }

  /** After `run` both seeded phones have a user; the admin is created with
      role ADMIN only when the phone was free, likewise the staff user; no
      existing user is changed or lost, and at most two are added. */
  lemma SeedUsersEffect(d: Directory, encode: string -> string)
    ensures var after := SeedUsers(d, encode);
      && (exists u :: u in after.users && u.phone == ADMIN_PHONE)
      && (exists u :: u in after.users && u.phone == STAFF_PHONE)
      && (forall u :: u in d.users ==> u in after.users)
      && |d.users| <= |after.users| <= |d.users| + 2
      && ((exists u :: u in d.users && u.phone == ADMIN_PHONE) ==>
            forall u :: u in after.users && u.phone == ADMIN_PHONE ==> u in d.users)
  {
    var withAdmin := SeedUser(d, ADMIN_NAME, ADMIN_PHONE, encode(ADMIN_PASSWORD), ADMIN);
    SeedUserEffect(d, ADMIN_NAME, ADMIN_PHONE, encode(ADMIN_PASSWORD), ADMIN);
    SeedUserEffect(withAdmin, STAFF_NAME, STAFF_PHONE, encode(STAFF_PASSWORD), STAFF);
    var after := SeedUsers(d, encode);
    if exists u :: u in d.users && u.phone == ADMIN_PHONE {
      forall u | u in after.users && u.phone == ADMIN_PHONE ensures u in d.users {
        assert u in withAdmin.users || u.phone == STAFF_PHONE;
      }
    }
  }

  /** Seeding keeps the user table well formed. */
  lemma SeedUsersKeepsWellFormed(d: Directory, encode: string -> string)
    requires WellFormed(d)
    ensures WellFormed(SeedUsers(d, encode))
  {
    var withAdmin := SeedUser(d, ADMIN_NAME, ADMIN_PHONE, encode(ADMIN_PASSWORD), ADMIN);
    if FindByPhone(d.users, ADMIN_PHONE).None? {
      SaveNewKeepsWellFormed(d, ADMIN_NAME, ADMIN_PHONE, encode(ADMIN_PASSWORD), ADMIN);
    }
    if FindByPhone(withAdmin.users, STAFF_PHONE).None? {
      SaveNewKeepsWellFormed(withAdmin, STAFF_NAME, STAFF_PHONE, encode(STAFF_PASSWORD), STAFF);
    }
  }

  /** An existing interval is never overwritten, and afterwards there always is one. */
  lemma SeedConfigEffect(entries: ConfigTable)
    ensures SYNC_INTERVAL_KEY in SeedConfig(entries)
    ensures SYNC_INTERVAL_KEY in entries ==> SeedConfig(entries) == entries
    ensures SYNC_INTERVAL_KEY !in entries ==> SyncInterval(SeedConfig(entries)) == DEFAULT_SYNC_INTERVAL
    ensures forall k :: k in entries ==> k in SeedConfig(entries) && SeedConfig(entries)[k] == entries[k]
  {
  }

  /** A second `run`, whatever the password hashes it computes, changes nothing. */
  lemma SeedIdempotent(d: Directory, entries: ConfigTable, encode: string -> string, encode2: string -> string)
    ensures SeedUsers(SeedUsers(d, encode), encode2) == SeedUsers(d, encode)
    ensures SeedConfig(SeedConfig(entries)) == SeedConfig(entries)
  {
    var once := SeedUsers(d, encode);
    SeedUsersEffect(d, encode);
    var withAdmin := SeedUser(once, ADMIN_NAME, ADMIN_PHONE, encode2(ADMIN_PASSWORD), ADMIN);
    assert FindByPhone(once.users, ADMIN_PHONE).Some?;
    assert withAdmin == once;
    assert FindByPhone(once.users, STAFF_PHONE).Some?;
  }

  /** One `if (findByPhone(phone) == null) save(user)` step of `run`. */
  method SeedUserIn(users: UserRepository, name: string, phone: string, passwordHash: string, role: Role)
    requires users.Valid()
    modifies users
    ensures users.Valid()
    ensures users.State() == SeedUser(old(users.State()), name, phone, passwordHash, role)
  {
    if FindByPhone(users.users, phone).None? {
      var _ := users.Save(name, phone, passwordHash, role);
    }
  }

  /** `run` over the two repositories. */
  method Run(users: UserRepository, config: ConfigStore, encode: string -> string)
    requires users.Valid()
    modifies users, config
    ensures users.Valid()
    ensures users.State() == SeedUsers(old(users.State()), encode)
    ensures config.entries == SeedConfig(old(config.entries))
  {
    SeedUserIn(users, ADMIN_NAME, ADMIN_PHONE, encode(ADMIN_PASSWORD), ADMIN);
    SeedUserIn(users, STAFF_NAME, STAFF_PHONE, encode(STAFF_PASSWORD), STAFF);
    var existing := config.FindByKey(SYNC_INTERVAL_KEY);
    if existing.None? {
      config.Save(SYNC_INTERVAL_KEY, DEFAULT_SYNC_INTERVAL);
    }
  }
}
