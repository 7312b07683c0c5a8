/**
 * The users table: rows keyed by their primary key, and the next key the
 * database will hand out. `passwordHash` is the stored bcrypt output.
 */
module Users {
  import opened Wrappers

  datatype User = User(
    id: nat,
    username: string,
    email: string,
    passwordHash: string,
    passwordChangedAt: Option<int>)

  datatype UserTable = UserTable(rows: map<nat, User>, nextId: nat) {

    /** Every row sits under its own id, and every id is below `nextId`. */
    ghost predicate WellKeyed() {
      forall k | k in rows :: rows[k].id == k && k < nextId
    }

    /** The database's unique constraints on username and email. */
    ghost predicate UniqueAccounts() {
      forall j, k | j in rows && k in rows && j != k ::
        rows[j].username != rows[k].username && rows[j].email != rows[k].email
    }

    ghost predicate Valid() {
      WellKeyed() && UniqueAccounts()
    }
  }

  /**
   * `First(&user)` under `WHERE email = ?`: the row with the smallest id in
   * `[from, bound)` whose email is exactly `email`.
   */
  function FirstWithEmail(rows: map<nat, User>, email: string, from: nat, bound: nat): (r: Option<nat>)
    ensures r.Some? ==> from <= r.value < bound && r.value in rows && rows[r.value].email == email
    ensures r.Some? ==> forall k :: from <= k < r.value && k in rows ==> rows[k].email != email
    ensures r.None? ==> forall k :: from <= k < bound && k in rows ==> rows[k].email != email
    decreases bound - from
  {
    if from >= bound then None
    else if from in rows && rows[from].email == email then Some(from)
    else FirstWithEmail(rows, email, from + 1, bound)
  }

  /** The user a query by exact email finds, if any. */
  function FindByEmail(t: UserTable, email: string): (r: Option<User>)
    requires t.WellKeyed()
    ensures r.Some? ==> r.value.id in t.rows && t.rows[r.value.id] == r.value && r.value.email == email
    ensures r.None? <==> forall k :: k in t.rows ==> t.rows[k].email != email
  {
    match FirstWithEmail(t.rows, email, 0, t.nextId)
    case Some(k) => Some(t.rows[k])
    case None => None
  }

  /** Under the unique constraint, the user found by email is the one holding it. */
  lemma FindByEmailUnique(t: UserTable, email: string, k: nat)
    requires t.Valid()
    requires k in t.rows && t.rows[k].email == email
    ensures FindByEmail(t, email) == Some(t.rows[k])
  {
    var r := FindByEmail(t, email);
    assert r.Some?;
    assert r.value.id == k;
  }

  /** `Count(...) > 0` under `WHERE username = ? AND id != ?`. */
  predicate UsernameTakenByOther(t: UserTable, username: string, id: nat) {
    exists k :: k in t.rows && k != id && t.rows[k].username == username
  }

  /** `Count(...) > 0` under `WHERE email = ? AND id != ?`. */
  predicate EmailTakenByOther(t: UserTable, email: string, id: nat) {
    exists k :: k in t.rows && k != id && t.rows[k].email == email
  }
}
