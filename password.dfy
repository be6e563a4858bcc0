// PATCH /api/user/password: sets a first password or changes the existing
// one of the session user.
module PasswordPatch {
  import opened Http
  import opened Db

  datatype Body = Body(
    currentPassword: Field<string>,
    newPassword: Field<string>,
    confirmPassword: Field<string>)

  const UserNotFound := HttpError(404, "Nepavyko rasti vartotojo")
  const CurrentPasswordRequired := HttpError(400, "Dabartinis slaptažodis yra privalomas")
  const WrongCurrentPassword := HttpError(401, "Neteisingas dabartinis slaptažodis")

  /** The body schema with its refinement that the two new passwords agree. */
  predicate ValidBody(b: Body) {
    && Optional(b.currentPassword)
    && b.newPassword.Present? && |b.newPassword.value| >= 8
    && b.confirmPassword.Present?
    && b.newPassword.value == b.confirmPassword.value
  }

  lemma ValidBodyRejects(b: Body)
    ensures b.newPassword.Present? && |b.newPassword.value| < 8 ==> !ValidBody(b)
    ensures (b.newPassword.Present? && b.confirmPassword.Present? &&
             b.newPassword.value != b.confirmPassword.value) ==> !ValidBody(b)
  {
  }

  /** Session, body, user lookup, then the current password when one is
      stored; on success only this user's password column changes. */
  method Handle(db: Store, session: Option<Session>, body: Body,
                hash: string -> string, verify: (string, string) -> bool)
    returns (r: Result<()>)
    requires db.Valid()
    modifies db
    ensures db.Valid()
    ensures r.Err? ==> db.State() == old(db.State())
    ensures session.None? ==> r == Err(Unauthorized)
    ensures session.Some? && !ValidBody(body) ==> r == Err(ValidationError)
    ensures session.Some? && ValidBody(body) && session.value.user.id !in old(db.users) ==>
              r == Err(UserNotFound)
    ensures session.Some? && ValidBody(body) && session.value.user.id in old(db.users) ==>
              var uid := session.value.user.id;
              var stored := old(db.users)[uid].password;
              var current := ValueOf(body.currentPassword);
              && (Truthy(stored) && !Truthy(current) ==> r == Err(CurrentPasswordRequired))
              && (Truthy(stored) && Truthy(current) && !verify(stored.value, current.value) ==>
                    r == Err(WrongCurrentPassword))
              && (!Truthy(stored) || (Truthy(current) && verify(stored.value, current.value)) ==> r.Ok?)
    ensures r.Ok? ==>
              && session.Some? && session.value.user.id in old(db.users)
              && var uid := session.value.user.id;
              && db.State() == old(db.State()).(users := old(db.users)[uid :=
                   old(db.users)[uid].(password := Some(hash(body.newPassword.value)))])
  {
    if session.None? {
      return Err(Unauthorized);
    }
    if !ValidBody(body) {
      return Err(ValidationError);
    }
    var uid := session.value.user.id;
    if uid !in db.users {
      return Err(UserNotFound);
    }
    var dbUser := db.users[uid];
    if Truthy(dbUser.password) {
      var current := ValueOf(body.currentPassword);
      if !Truthy(current) {
        return Err(CurrentPasswordRequired);
      }
      if !verify(dbUser.password.value, current.value) {
        return Err(WrongCurrentPassword);
      }
    }
    db.users := db.users[uid := dbUser.(password := Some(hash(body.newPassword.value)))];
    r := Ok(());
  }
}
