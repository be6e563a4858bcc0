// PATCH /api/user/profile: stores the session user's phone number and
// replaces the session with one that carries it.
module ProfilePatch {
  import opened Http
  import opened Db

  datatype Body = Body(phoneNumber: Field<string>)

  /** A missing phone number leaves the column as it is. */
  function NewPhone(stored: Option<string>, f: Field<string>): Option<string> {
    if f.Present? then Some(f.value) else stored
  }

  /** Updates one column of one row; an update of a row that does not exist
      fails in the store and surfaces as an internal error. */
  method Handle(db: Store, session: Option<Session>, body: Body) returns (r: Result<SessionUser>)
    requires db.Valid()
    modifies db
    ensures db.Valid()
    ensures r.Err? ==> db.State() == old(db.State())
    ensures session.None? ==> r == Err(Unauthorized)
    ensures session.Some? && body.phoneNumber.Invalid? ==> r == Err(ValidationError)
    ensures session.Some? && Optional(body.phoneNumber) && session.value.user.id !in old(db.users) ==>
              r == Err(InternalError)
    ensures session.Some? && Optional(body.phoneNumber) && session.value.user.id in old(db.users) ==> r.Ok?
    ensures r.Ok? ==>
              && session.Some? && session.value.user.id in old(db.users)
              && var uid := session.value.user.id;
              && var stored := NewPhone(old(db.users)[uid].phoneNumber, body.phoneNumber);
              && db.State() == old(db.State()).(users := old(db.users)[uid := old(db.users)[uid].(phoneNumber := stored)])
              && r.value == session.value.user.(phoneNumber := db.users[uid].phoneNumber)
  {
    if session.None? {
      return Err(Unauthorized);
    }
    if body.phoneNumber.Invalid? {
      return Err(ValidationError);
    }
    var uid := session.value.user.id;
    if uid !in db.users {
      return Err(InternalError);
    }
    var updated := db.users[uid].(phoneNumber := NewPhone(db.users[uid].phoneNumber, body.phoneNumber));
    db.users := db.users[uid := updated];
    r := Ok(session.value.user.(phoneNumber := updated.phoneNumber));
  }
}
