/** Registration and lookup of members (`User`) and of staff accounts
    (`AdminUser`) in database/models.py. Both tables declare `username`
    and `email` UNIQUE; an insert that breaks either raises
    `sqlite3.IntegrityError`, which `create` turns into `None`. The password
    hash is computed outside the store and arrives here as opaque text. */
module Users {
  import opened Wrappers
  import opened Schema

  /** Some user row already holds this username or this email. */
  predicate Taken(users: seq<User>, username: string, email: string) {
    exists u :: u in users && (u.username == username || u.email == email)
  }

  /** Some admin row already holds this username or this email. */
  predicate AdminTaken(admins: seq<Admin>, username: string, email: string) {
    exists a :: a in admins && (a.username == username || a.email == email)
  }

  /** `User.create`: inserts a member with the column defaults (no bio,
      picture `default.jpg`) and returns the new id, or returns `None` and
      writes nothing when the username or the email is in use. */
  function Create(db: Db, username: string, email: string, passwordHash: string,
                  fullName: string, now: nat): (r: Step<Option<nat>>)
    ensures r.out.None? <==> Taken(db.users, username, email)
    ensures r.out.None? ==> r.db == db
    ensures r.out.Some? ==>
      && r.db.users == db.users + [User(r.out.value, username, email, passwordHash, fullName, None, "default.jpg", now)]
      && r.db == db.(users := r.db.users, userSeq := r.out.value)
    ensures Valid(db) && r.out.Some? ==> forall u :: u in db.users ==> u.id < r.out.value
    ensures Valid(db) ==> Valid(r.db)
  {
    if Taken(db.users, username, email) then Step(db, None)
    else
      var id := db.userSeq + 1;
      var row := User(id, username, email, passwordHash, fullName, None, "default.jpg", now);
      AppendKeepsIdsAscending(db.users, UserId, db.userSeq, row);
      Step(db.(users := db.users + [row], userSeq := id), Some(id))
  }

  /** `User.get_by_id`: the row with that id, if any. */
  function GetById(db: Db, id: nat): (r: Option<User>)
    ensures r.Some? ==> r.value in db.users && r.value.id == id
    ensures r.None? <==> forall u :: u in db.users ==> u.id != id
  {
    FindUser(db.users, id)
  }

  /** The first row with that username. */
  function FindByUsername(users: seq<User>, username: string): (r: Option<User>)
    ensures r.Some? ==> r.value in users && r.value.username == username
    ensures r.None? <==> forall u :: u in users ==> u.username != username
  {
    if |users| == 0 then None
    else if users[0].username == username then Some(users[0])
    else FindByUsername(users[1..], username)
  }

  /** `User.get_by_username`: the row with that username, if any. */
  function GetByUsername(db: Db, username: string): (r: Option<User>)
    ensures r.Some? ==> r.value in db.users && r.value.username == username
    ensures r.None? <==> forall u :: u in db.users ==> u.username != username
  {
    FindByUsername(db.users, username)
  }

  /** `AdminUser.create`: the same uniqueness rule as `User.create`, on the
      separate `admin_users` table. */
  function CreateAdmin(db: Db, username: string, email: string, passwordHash: string,
                       fullName: string, role: string, permissions: string, now: nat): (r: Step<Option<nat>>)
    ensures r.out.None? <==> AdminTaken(db.admins, username, email)
    ensures r.out.None? ==> r.db == db
    ensures r.out.Some? ==>
      && r.db.admins == db.admins + [Admin(r.out.value, username, email, passwordHash, fullName, role, permissions, now)]
      && r.db == db.(admins := r.db.admins, adminSeq := r.out.value)
    ensures Valid(db) && r.out.Some? ==> forall a :: a in db.admins ==> a.id < r.out.value
    ensures Valid(db) ==> Valid(r.db)
  {
    if AdminTaken(db.admins, username, email) then Step(db, None)
    else
      var id := db.adminSeq + 1;
      var row := Admin(id, username, email, passwordHash, fullName, role, permissions, now);
      AppendKeepsIdsAscending(db.admins, AdminId, db.adminSeq, row);
      Step(db.(admins := db.admins + [row], adminSeq := id), Some(id))
  }

  /** Looking up an id that no earlier row holds finds the appended row. */
  lemma {:induction false} FindUserAppended(users: seq<User>, row: User)
    requires forall u :: u in users ==> u.id != row.id
    ensures FindUser(users + [row], row.id) == Some(row)
  {
    if |users| == 0 {
    } else {
      assert (users + [row])[1..] == users[1..] + [row];
      FindUserAppended(users[1..], row);
    }
  }

  /** Looking up a username that no earlier row holds finds the appended row. */
  lemma {:induction false} FindByUsernameAppended(users: seq<User>, row: User)
    requires forall u :: u in users ==> u.username != row.username
    ensures FindByUsername(users + [row], row.username) == Some(row)
  {
    if |users| == 0 {
    } else {
      assert (users + [row])[1..] == users[1..] + [row];
      FindByUsernameAppended(users[1..], row);
    }
  }

  /** A successful registration is visible to both lookups, and registering
      the same username again (with any email) is refused without a write. */
  lemma CreateThenLookup(db: Db, username: string, email: string, passwordHash: string,
                         fullName: string, now: nat, email2: string, now2: nat)
    requires Valid(db)
    requires Create(db, username, email, passwordHash, fullName, now).out.Some?
    ensures var r := Create(db, username, email, passwordHash, fullName, now);
      var row := User(r.out.value, username, email, passwordHash, fullName, None, "default.jpg", now);
      && GetById(r.db, r.out.value) == Some(row)
      && GetByUsername(r.db, username) == Some(row)
      && Create(r.db, username, email2, passwordHash, fullName, now2) == Step(r.db, None)
  {
    var r := Create(db, username, email, passwordHash, fullName, now);
    var row := User(r.out.value, username, email, passwordHash, fullName, None, "default.jpg", now);
    FindUserAppended(db.users, row);
    FindByUsernameAppended(db.users, row);
    assert row in r.db.users;
  }
}
