/**
  The `User` record of the users table and the store of users it lives in.
  The store is kept in insertion order. The unique constraint on `email` leaves at most one
  row a `findOne` by email can return; where a store has several, the model takes the first.
 */
module UserModel {
  import opened Wrappers

  /** The `role` column is an enumeration of exactly two values. */
  datatype Role = USER | ADMIN

  /** Column defaults applied when an insert does not give a value. */
  const DefaultRole: Role := USER
  const DefaultVerified: bool := false

  /**
    One row of the users table. The primary key is a UUID in the database; here it is a
    natural number, which is all the model needs of it (identity and freshness).
    Creation and update timestamps are not modelled.
   */
  datatype User = User(id: nat, name: string, email: string, hash: string, role: Role, isVerified: bool)

  type Users = seq<User>

  predicate EmailTaken(users: Users, email: string) {
    exists i :: 0 <= i < |users| && users[i].email == email
  }

  predicate IdTaken(users: Users, id: nat) {
    exists i :: 0 <= i < |users| && users[i].id == id
  }

  /** The unique constraint on `email`. */
  predicate UniqueEmails(users: Users) {
    forall i, j :: 0 <= i < j < |users| ==> users[i].email != users[j].email
  }

  /** The primary-key constraint on `id`. */
  predicate UniqueIds(users: Users) {
    forall i, j :: 0 <= i < j < |users| ==> users[i].id != users[j].id
  }

  /**
    Name and email are never empty. The columns only forbid NULL; the non-empty part is
    what the registration handler's guards add before every insert.
   */
  predicate FieldsPresent(users: Users) {
    forall i :: 0 <= i < |users| ==> users[i].name != "" && users[i].email != ""
  }

  /** The invariant every reachable store satisfies. */
  predicate Valid(users: Users) {
    UniqueEmails(users) && UniqueIds(users) && FieldsPresent(users)
  }

  /** Number of stored users carrying `email`. */
  function CountEmail(users: Users, email: string): nat {
    if users == [] then 0
    else CountEmail(users[..|users| - 1], email) + (if users[|users| - 1].email == email then 1 else 0)
  }

  /** The lookup by email: the first stored match (at most one under the unique constraint), if any. */
  function FindByEmail(users: Users, email: string): (r: Option<User>)
    ensures r.Some? <==> EmailTaken(users, email)
    ensures r.Some? ==> r.value in users && r.value.email == email
    ensures r.Some? && UniqueEmails(users) ==>
      forall i :: 0 <= i < |users| && users[i].email == email ==> users[i] == r.value
  {
    if users == [] then None
    else if users[0].email == email then Some(users[0])
    else
      var r := FindByEmail(users[1..], email);
      assert forall i :: 1 <= i < |users| ==> users[i] == users[1..][i - 1];
      r
  }

  /** An upper bound of every stored id. */
  function MaxId(users: Users): (m: nat)
    ensures forall i :: 0 <= i < |users| ==> users[i].id <= m
  {
    if users == [] then 0
    else
      var m := MaxId(users[1..]);
      assert forall i :: 1 <= i < |users| ==> users[i] == users[1..][i - 1];
      if users[0].id > m then users[0].id else m
  }

  /** The id given to a new row: one that no stored user carries. */
  function FreshId(users: Users): (id: nat)
    ensures !IdTaken(users, id)
  {
    MaxId(users) + 1
  }

  /** The row `User.create({ name, email, hash })` inserts: the unset columns take their defaults. */
  function NewUser(users: Users, name: string, email: string, hash: string): (u: User)
    ensures u.name == name && u.email == email && u.hash == hash
    ensures u.role == USER && !u.isVerified
    ensures !IdTaken(users, u.id)
  {
    User(FreshId(users), name, email, hash, DefaultRole, DefaultVerified)
  }

  /** Appending a row that respects every constraint keeps the store valid, and only then. */
  lemma InsertValid(users: Users, u: User)
    requires Valid(users)
    ensures Valid(users + [u]) <==>
      !EmailTaken(users, u.email) && !IdTaken(users, u.id) && u.name != "" && u.email != ""
  {
    var s := users + [u];
    assert s[|users|] == u;
    assert forall i :: 0 <= i < |users| ==> s[i] == users[i];
  }

  /** In a valid store an email belongs to at most one user; it belongs to none exactly when it is not taken. */
  lemma {:induction false} CountEmailValid(users: Users, email: string)
    requires UniqueEmails(users)
    ensures CountEmail(users, email) <= 1
    ensures CountEmail(users, email) == 0 <==> !EmailTaken(users, email)
  {
    if users != [] {
      var init := users[..|users| - 1];
      assert forall i :: 0 <= i < |init| ==> init[i] == users[i];
      assert UniqueEmails(init);
      CountEmailValid(init, email);
      if users[|users| - 1].email == email {
        assert !EmailTaken(init, email);
      }
      if EmailTaken(init, email) {
        var k :| 0 <= k < |init| && init[k].email == email;
        assert users[k].email == email;
      }
      if EmailTaken(users, email) && users[|users| - 1].email != email {
        var k :| 0 <= k < |users| && users[k].email == email;
        assert init[k].email == email;
      }
    }
  }
}
