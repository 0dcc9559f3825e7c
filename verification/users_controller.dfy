/** Registration: the `createUser` handler of the users controller. */
module UsersController {
  import opened Wrappers
  import opened UserModel
  import opened Crypto
  import opened Http

  const NameRequired := "Name is required"
  const EmailRequired := "Email is required"
  const PasswordRequired := "Password is required"
  const EmailExists := "A user with that email already exists"

  /** The fields of a registration request body. */
  datatype RegisterBody = RegisterBody(name: Option<string>, email: Option<string>, password: Option<string>)

  predicate Complete(body: RegisterBody) {
    Present(body.name) && Present(body.email) && Present(body.password)
  }

  /**
    Validates name, email and password in that order, rejects an email already stored,
    and otherwise stores a new user whose hash is the hashed password and answers with
    the stored record itself (hash included).
   */
  function CreateUser(users: Users, body: RegisterBody, crypto: Crypto): (r: Step<Users>)
    ensures !Present(body.name) ==> r == Step(Response(400, Message(NameRequired)), users)
    ensures Present(body.name) && !Present(body.email) ==>
      r == Step(Response(400, Message(EmailRequired)), users)
    ensures Present(body.name) && Present(body.email) && !Present(body.password) ==>
      r == Step(Response(400, Message(PasswordRequired)), users)
    ensures Complete(body) && EmailTaken(users, body.email.value) ==>
      r == Step(Response(409, Message(EmailExists)), users)
    ensures Complete(body) && !EmailTaken(users, body.email.value) ==>
      && |r.state| == |users| + 1
      && r.state[..|users|] == users
      && var u := r.state[|users|];
         && u.name == body.name.value
         && u.email == body.email.value
         && u.hash == crypto.hashPassword(body.password.value)
         && u.role == USER && !u.isVerified
         && !IdTaken(users, u.id)
         && r.response == Response(201, Created(u))
    ensures r.response.status == 201 <==> r.state != users
    ensures Valid(users) ==> Valid(r.state)
  {
    if !Present(body.name) then Step(Response(400, Message(NameRequired)), users)
    else if !Present(body.email) then Step(Response(400, Message(EmailRequired)), users)
    else if !Present(body.password) then Step(Response(400, Message(PasswordRequired)), users)
    else
      match FindByEmail(users, body.email.value)
      case Some(_) => Step(Response(409, Message(EmailExists)), users)
      case None =>
        var u := NewUser(users, body.name.value, body.email.value, crypto.hashPassword(body.password.value));
        assert Valid(users) ==> Valid(users + [u]) by {
          if Valid(users) { InsertValid(users, u); }
        }
        assert (users + [u])[..|users|] == users;
        Step(Response(201, Created(u)), users + [u])
  }

  /** The store after a sequence of registration requests, handled one at a time. */
  function RegisterAll(users: Users, bodies: seq<RegisterBody>, crypto: Crypto): Users
    decreases |bodies|
  {
    if bodies == [] then users
    else RegisterAll(CreateUser(users, bodies[0], crypto).state, bodies[1..], crypto)
  }

  /** No sequence of registrations can make two users share an email (or an id). */
  lemma {:induction false} RegisterAllValid(users: Users, bodies: seq<RegisterBody>, crypto: Crypto)
    requires Valid(users)
    ensures Valid(RegisterAll(users, bodies, crypto))
    ensures forall e :: CountEmail(RegisterAll(users, bodies, crypto), e) <= 1
    decreases |bodies|
  {
    if bodies != [] {
      RegisterAllValid(CreateUser(users, bodies[0], crypto).state, bodies[1..], crypto);
    }
    var final := RegisterAll(users, bodies, crypto);
    forall e { CountEmailValid(final, e); }
  }

  /** Registering the same complete request twice gives 201 then 409, leaving one user with that email. */
  lemma RegisterTwice(users: Users, body: RegisterBody, crypto: Crypto)
    requires Valid(users) && Complete(body) && !EmailTaken(users, body.email.value)
    ensures CreateUser(users, body, crypto).response.status == 201
    ensures var after := CreateUser(users, body, crypto).state;
      && CreateUser(after, body, crypto) == Step(Response(409, Message(EmailExists)), after)
      && CountEmail(after, body.email.value) == 1
  {
    var after := CreateUser(users, body, crypto).state;
    assert after[|users|].email == body.email.value;
    assert EmailTaken(after, body.email.value);
    CountEmailValid(after, body.email.value);
  }
}
