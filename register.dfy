// POST /api/auth/register: the body schema, and the handler that creates a
// user when the email is unused and opens a session for it.
module Register {
  import opened Http
  import opened Db

  datatype Body = Body(
    email: Field<string>,
    password: Field<string>,
    name: Field<string>,
    phoneNumber: Field<string>)

  /** What a successful registration returns and puts in the session. */
  datatype Registered = Registered(user: User, session: SessionUser)

  const EmailTaken := HttpError(409, "Vartotojas su šiuo el. paštu jau egzistuoja")

  predicate IsDigit(c: char) {
    '0' <= c <= '9'
  }

  /** Matches the tail `\d{7,14}$` of the phone pattern when `count` digits of
      the run have already been read. */
  function MatchDigitRun(s: string, count: nat): bool
    decreases |s|
  {
    if s == [] then 7 <= count
    else IsDigit(s[0]) && count < 14 && MatchDigitRun(s[1..], count + 1)
  }

  /** The digits of a phone number: the text after an optional leading '+'. */
  function PhoneDigits(s: string): string {
    if s != [] && s[0] == '+' then s[1..] else s
  }

  /** The phone pattern `^\+?[1-9]\d{7,14}$`, matched left to right. */
  function MatchesPhonePattern(s: string): bool {
    var rest := PhoneDigits(s);
    rest != [] && '1' <= rest[0] <= '9' && MatchDigitRun(rest[1..], 0)
  }

  /** A phone number as the schema describes it: an optional '+', then 8 to 15
      digits of which the first is not 0. */
  ghost predicate PhoneShape(s: string) {
    var d := PhoneDigits(s);
    8 <= |d| <= 15 && d[0] != '0' && forall i :: 0 <= i < |d| ==> IsDigit(d[i])
  }

  lemma {:induction false} MatchDigitRunIff(s: string, count: nat)
    requires count <= 14
    ensures MatchDigitRun(s, count) <==>
              7 <= count + |s| <= 14 && forall i :: 0 <= i < |s| ==> IsDigit(s[i])
    decreases |s|
  {
    if s != [] && count < 14 {
      MatchDigitRunIff(s[1..], count + 1);
      if IsDigit(s[0]) && forall i :: 0 <= i < |s| - 1 ==> IsDigit(s[1..][i]) {
        forall i | 0 <= i < |s| ensures IsDigit(s[i]) {
          if i > 0 { assert s[i] == s[1..][i - 1]; }
        }
      }
    }
  }

  /** The matcher accepts exactly the numbers of the described shape. */
  lemma PhonePatternIff(s: string)
    ensures MatchesPhonePattern(s) <==> PhoneShape(s)
  {
    var d := PhoneDigits(s);
    if d != [] {
      MatchDigitRunIff(d[1..], 0);
      if MatchesPhonePattern(s) {
        forall i | 0 <= i < |d| ensures IsDigit(d[i]) {
          if i > 0 { assert d[i] == d[1..][i - 1]; }
        }
      }
    }
  }

  /** Numbers of the expected shape, with and without '+', are accepted. */
  lemma PhonePatternAccepts()
    ensures MatchesPhonePattern("+37061234567")
    ensures MatchesPhonePattern("861234567")
  {
    PhonePatternIff("+37061234567");
    PhonePatternIff("861234567");
  }

  /** A leading zero and too few digits are rejected. */
  lemma PhonePatternRejectsShape()
    ensures !MatchesPhonePattern("061234567")
    ensures !MatchesPhonePattern("+3706123")
  {
    PhonePatternIff("061234567");
    PhonePatternIff("+3706123");
  }

  /** A '+' that is not the first character, and 16 digits, are rejected. */
  lemma PhonePatternRejectsPlacement()
    ensures !MatchesPhonePattern("3706+1234567")
    ensures !MatchesPhonePattern("1234567890123456")
  {
    PhonePatternIff("3706+1234567");
    assert !IsDigit("3706+1234567"[4]);
    PhonePatternIff("1234567890123456");
  }

  /** The optional name: when given, 2 to 50 characters. */
  predicate ValidName(f: Field<string>) {
    f.Absent? || (f.Present? && 2 <= |f.value| <= 50)
  }

  /** The optional phone number: when given, empty or matching the pattern. */
  predicate ValidPhone(f: Field<string>) {
    f.Absent? || (f.Present? && (f.value == "" || MatchesPhonePattern(f.value)))
  }

  predicate ValidPassword(f: Field<string>) {
    f.Present? && |f.value| >= 8
  }

  /** The body schema; `isEmail` is the email-format check of the validator. */
  predicate ValidBody(b: Body, isEmail: string -> bool) {
    && b.email.Present? && isEmail(b.email.value)
    && ValidPassword(b.password)
    && ValidName(b.name)
    && ValidPhone(b.phoneNumber)
  }

  lemma ValidBodyRequires(b: Body, isEmail: string -> bool)
    ensures ValidBody(b, isEmail) ==>
              |b.password.value| >= 8
              && (b.name.Present? ==> 2 <= |b.name.value| <= 50)
              && (b.phoneNumber.Present? && b.phoneNumber.value != "" ==> PhoneShape(b.phoneNumber.value))
  {
    if ValidBody(b, isEmail) && b.phoneNumber.Present? {
      PhonePatternIff(b.phoneNumber.value);
    }
  }

  /** An empty phone number is accepted, and so is a missing one. */
  lemma EmptyPhoneAccepted()
    ensures ValidPhone(Present("")) && ValidPhone(Absent)
  {
  }

  /** Validates the body, rejects a used email with 409, otherwise stores the
      user with the hash of its password and returns it with its session. */
  method Handle(db: Store, body: Body, isEmail: string -> bool, hash: string -> string)
    returns (r: Result<Registered>)
    requires db.Valid()
    modifies db
    ensures db.Valid()
    ensures r.Err? ==> db.State() == old(db.State())
    ensures !ValidBody(body, isEmail) ==> r == Err(ValidationError)
    ensures ValidBody(body, isEmail) && EmailInUse(old(db.users), body.email.value) ==> r == Err(EmailTaken)
    ensures ValidBody(body, isEmail) && !EmailInUse(old(db.users), body.email.value) ==> r.Ok?
    ensures r.Ok? ==>
              var u := r.value.user;
              && u.id !in old(db.users)
              && db.State() == old(db.State()).(users := old(db.users)[u.id := u])
              && u.email == body.email.value
              && u.password == Some(hash(body.password.value))
              && u.name == ValueOf(body.name)
              && u.phoneNumber == ValueOf(body.phoneNumber)
              && u.role == USER
              && r.value.session == SessionFor(u)
  {
    if !ValidBody(body, isEmail) {
      return Err(ValidationError);
    }
    var email := body.email.value;
    if EmailInUse(db.users, email) {
      return Err(EmailTaken);
    }
    var id := db.FreshId();
    var user := User(id, email, Some(hash(body.password.value)), ValueOf(body.name), ValueOf(body.phoneNumber), USER);
    db.users := db.users[id := user];
    r := Ok(Registered(user, SessionFor(user)));
  }
}
