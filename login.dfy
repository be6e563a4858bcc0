// POST /api/auth/login: checks the credentials against the stored user and
// builds the session user from it.
module Login {
  import opened Http
  import opened Db
  import Register
  import PasswordPatch

  datatype Body = Body(email: Field<string>, password: Field<string>)

  /** One error for an unknown email and for a wrong password alike. */
  const InvalidCredentials := HttpError(401, "Neteisingas el. paštas arba slaptažodis")

  predicate ValidBody(b: Body, isEmail: string -> bool) {
    b.email.Present? && isEmail(b.email.value) && b.password.Present? && |b.password.value| >= 8
  }

  /** `verifyPassword` on the stored column; a null column never verifies. */
  predicate Verifies(stored: Option<string>, plain: string, verify: (string, string) -> bool) {
    stored.Some? && verify(stored.value, plain)
  }

  /** Looks the user up by email and verifies the password. The store is not
      written: the method has no frame to write it. */
  method Handle(db: Store, body: Body, isEmail: string -> bool, verify: (string, string) -> bool)
    returns (r: Result<SessionUser>)
    requires db.Valid()
    ensures !ValidBody(body, isEmail) ==> r == Err(ValidationError)
    ensures ValidBody(body, isEmail) ==>
              (r.Ok? <==> exists k :: k in db.users && db.users[k].email == body.email.value &&
                                      Verifies(db.users[k].password, body.password.value, verify))
    ensures ValidBody(body, isEmail) && r.Err? ==> r.error == InvalidCredentials
    ensures r.Ok? ==>
              && r.value.id in db.users
              && var u := db.users[r.value.id];
              && u.email == body.email.value
              && Verifies(u.password, body.password.value, verify)
              && r.value == SessionFor(u)
  {
    if !ValidBody(body, isEmail) {
      return Err(ValidationError);
    }
    var email := body.email.value;
    if !EmailInUse(db.users, email) {
      return Err(InvalidCredentials);
    }
    var k :| k in db.users && db.users[k].email == email;
    var user := db.users[k];
    if !Verifies(user.password, body.password.value, verify) {
      return Err(InvalidCredentials);
    }
    r := Ok(SessionFor(user));
  }

  /** With a hash that `verify` accepts, a fresh registration can log in at
      once with the same email and password, and gets the session the
      registration opened. */
  method LoginAfterRegister(db: Store, body: Register.Body, isEmail: string -> bool,
                            hash: string -> string, verify: (string, string) -> bool)
    returns (reg: Result<Register.Registered>, login: Result<SessionUser>)
    requires db.Valid()
    requires forall p :: verify(hash(p), p)
    requires Register.ValidBody(body, isEmail) && !EmailInUse(db.users, body.email.value)
    modifies db
    ensures reg.Ok? && login == Ok(reg.value.session)
  {
    reg := Register.Handle(db, body, isEmail, hash);
    var u := reg.value.user;
    assert db.users[u.id] == u;
    login := Handle(db, Body(body.email, body.password), isEmail, verify);
  }

  /** After a password change, the new password logs in. */
  method LoginAfterPasswordChange(db: Store, session: Session, body: PasswordPatch.Body, isEmail: string -> bool,
                                  hash: string -> string, verify: (string, string) -> bool)
    returns (change: Result<()>, login: Result<SessionUser>)
    requires db.Valid()
    requires forall p :: verify(hash(p), p)
    requires session.user.id in db.users && isEmail(db.users[session.user.id].email)
    modifies db
    ensures change.Ok? ==> login.Ok? && login.value.id == session.user.id
  {
    var email := db.users[session.user.id].email;
    change := PasswordPatch.Handle(db, Some(session), body, hash, verify);
    if change.Ok? {
      var uid := session.user.id;
      assert db.users[uid].email == email;
      assert Verifies(db.users[uid].password, body.newPassword.value, verify);
      login := Handle(db, Body(Present(email), body.newPassword), isEmail, verify);
    } else {
      login := Err(InvalidCredentials);
    }
  }
}
