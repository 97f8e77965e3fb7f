/** The account handlers: `register` and `login` over the user collection. */
module Accounts {
  import opened Wrappers
  import Text
  import Http
  import Users
  import Tokens

  const DuplicateMessage: string := "User already exists with this email"
  const RegisteredMessage: string := "User registered successfully"
  const BadCredentialsMessage: string := "Invalid email or password"
  const LoggedInMessage: string := "Login successful"
  const RegisterErrorMessage: string := "Error registering user"
  const LoginErrorMessage: string := "Error logging in"

  /** The `data` of a successful register or login: the token and the
      `{ id, name, email }` projection of the user. */
  datatype Session = Session(token: string, user: Users.PublicUser)

  /** Some stored user has this (normalised) email. */
  ghost predicate EmailTaken(users: map<Users.UserId, Users.UserRecord>, email: string) {
    exists id :: id in users && users[id].email == email
  }

  /** The unique index on `email`. */
  ghost predicate EmailsUnique(users: map<Users.UserId, Users.UserRecord>) {
    forall a, b :: a in users && b in users && users[a].email == users[b].email ==> a == b
  }

  /** The credentials `login` accepts: a stored user with that email whose
      digest matches the password. */
  ghost predicate Accepts(users: map<Users.UserId, Users.UserRecord>, email: string, password: string) {
    exists id :: id in users && users[id].email == Users.NormalizeEmail(email) &&
                 Users.ComparePassword(users[id], password)
  }

  /** The user collection, with ObjectId generation as a counter. */
  class UserStore {
    var users: map<Users.UserId, Users.UserRecord>
    var nextId: Users.UserId

    /** Ids are fresh and match their key, emails are stored normalised and
        unique, and no stored password is plaintext. */
    ghost predicate Valid()
      reads this
    {
      && (forall id :: id in users ==>
            id < nextId && users[id].id == id && users[id].password.Digest? &&
            users[id].email == Users.NormalizeEmail(users[id].email))
      && EmailsUnique(users)
    }

    constructor ()
      ensures Valid() && users == map[] && nextId == 0
    {
      users := map[];
      nextId := 0;
    }

    /** `User.findOne({ email })`; the query goes through the field's setters,
        so it looks up the normalised address. */
    method FindByEmail(email: string) returns (r: Option<Users.UserId>)
      ensures r.Some? ==> r.value in users && users[r.value].email == Users.NormalizeEmail(email)
      ensures r.None? <==> !EmailTaken(users, Users.NormalizeEmail(email))
    {
      var key := Users.NormalizeEmail(email);
      if id :| id in users && users[id].email == key {
        r := Some(id);
      } else {
        r := None;
      }
    }

    /** `register`. A store failure (`outage`) or a failed validation on save
        answers 500; an email already in use answers 400; otherwise exactly
        one user is added, with the trimmed name, the normalised email and a
        digest of the password, and the answer is 201 with a token for the
        new id. Every answer but 201 leaves the store unchanged. */
    method Register(name: string, email: string, password: string, salt: nat,
                    codec: Tokens.Codec, outage: bool)
      returns (resp: Http.Response<Session>)
      requires Valid()
      modifies this
      ensures Valid()
      ensures resp.status != 201 ==> users == old(users) && nextId == old(nextId)
      ensures outage ==> resp == Http.Fail(500, RegisterErrorMessage)
      ensures !outage && EmailTaken(old(users), Users.NormalizeEmail(email)) ==>
                resp == Http.Fail(400, DuplicateMessage)
      ensures !outage && !EmailTaken(old(users), Users.NormalizeEmail(email)) &&
              !Users.SchemaValid(Text.Trim(name), Users.NormalizeEmail(email), Users.Plain(password)) ==>
                resp == Http.Fail(500, RegisterErrorMessage)
      ensures resp.status == 201 <==>
                !outage && !EmailTaken(old(users), Users.NormalizeEmail(email)) &&
                Users.SchemaValid(Text.Trim(name), Users.NormalizeEmail(email), Users.Plain(password))
      ensures resp.status == 201 ==>
                var id := old(nextId);
                var u := Users.UserRecord(id, Text.Trim(name), Users.NormalizeEmail(email),
                                          Users.Hash(password, salt));
                && id !in old(users)
                && users == old(users)[id := u]
                && nextId == id + 1
                && resp == Http.Succeed(201, Some(RegisteredMessage), Some(Session(codec.sign(id), Users.Public(u))))
    {
      if outage {
        return Http.Fail(500, RegisterErrorMessage);
      }
      var existing := FindByEmail(email);
      if existing.Some? {
        return Http.Fail(400, DuplicateMessage);
      }
      var doc := new Users.UserDocument(name, email, password);
      var saved := doc.Save(salt);
      if !saved {
        // the validation error thrown by `save()` reaches the `catch`
        return Http.Fail(500, RegisterErrorMessage);
      }
      var id := nextId;
      var u := doc.Record(id);
      assert u == Users.UserRecord(id, Text.Trim(name), Users.NormalizeEmail(email), Users.Hash(password, salt));
      Users.NormalizeIdempotent(email);
      InsertKeepsUnique(users, id, u);
      users := users[id := u];
      nextId := nextId + 1;
      var token := codec.sign(id);
      resp := Http.Succeed(201, Some(RegisteredMessage), Some(Session(token, Users.Public(u))));
    }

    /** `login`. Unknown email and wrong password give the same 401 answer;
        accepted credentials give 200 with a token for that user's id. The
        store is only read. */
    method Login(email: string, password: string, codec: Tokens.Codec, outage: bool)
      returns (resp: Http.Response<Session>)
      requires Valid()
      ensures outage ==> resp == Http.Fail(500, LoginErrorMessage)
      ensures !outage && !Accepts(users, email, password) ==> resp == Http.Fail(401, BadCredentialsMessage)
      ensures resp.status == 200 <==> !outage && Accepts(users, email, password)
      ensures resp.status == 200 ==>
                exists id :: id in users && users[id].email == Users.NormalizeEmail(email) &&
                  resp == Http.Succeed(200, Some(LoggedInMessage), Some(Session(codec.sign(id), Users.Public(users[id]))))
    {
      if outage {
        return Http.Fail(500, LoginErrorMessage);
      }
      var found := FindByEmail(email);
      if found.None? {
        return Http.Fail(401, BadCredentialsMessage);
      }
      var u := users[found.value];
      if !Users.ComparePassword(u, password) {
        return Http.Fail(401, BadCredentialsMessage);
      }
      var token := codec.sign(u.id);
      resp := Http.Succeed(200, Some(LoggedInMessage), Some(Session(token, Users.Public(u))));
    }
  }

  /** Adding a user whose email is not taken keeps emails unique. */
  lemma InsertKeepsUnique(users: map<Users.UserId, Users.UserRecord>, id: Users.UserId, u: Users.UserRecord)
    requires EmailsUnique(users) && id !in users && !EmailTaken(users, u.email)
    ensures EmailsUnique(users[id := u])
  {
  }

  /** After a successful registration the same email (in any letter case or
      padding that normalises alike) and password are accepted by `login`,
      and, under the idealised injective hash, no other password is. */
  lemma RegisteredCredentialsAccepted(users: map<Users.UserId, Users.UserRecord>, id: Users.UserId,
                                      u: Users.UserRecord, email: string, password: string,
                                      salt: nat, other: string)
    requires EmailsUnique(users)
    requires id in users && users[id] == u
    requires u.email == Users.NormalizeEmail(email) && u.password == Users.Hash(password, salt)
    ensures Accepts(users, email, password)
    ensures Accepts(users, email, other) <==> other == password
  {
    assert Users.ComparePassword(users[id], password);
  }
}
