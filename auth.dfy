/**
 * Authentication routes: login (who may open a session), logout, and the
 * administrator's own password change with its chain of checks.
 */
module Auth {
  import opened Options
  import opened Text
  import opened Models
  import opened Store

  /** Whom a request or a socket connection acts for (`current_user`). */
  datatype Identity = Anonymous | Authenticated(id: UserId)

  datatype LoginOutcome = AlreadyLoggedIn | LoggedIn | InvalidCredentials

  /** The minimum length of a new password in `change_password`. */
  const MinPasswordLength: nat := 6

  /** `User.query.filter_by(username=name).first()`: the one user with that name. */
  function FindUser(db: Db, name: string): (r: Option<UserId>)
    requires db.Valid()
    ensures r.Some? ==> r.value in db.users && db.users[r.value].username == name
    ensures r.None? <==> !UsernameTaken(db.users, name)
  {
    if UsernameTaken(db.users, name) then
      var id :| id in db.users && db.users[id].username == name;
      Some(id)
    else
      None
  }

  /** The credentials check of `login`: the user exists, the password checks, the account is active. */
  predicate Accepts(db: Db, id: UserId, username: string, password: string, h: Hasher) {
    && id in db.users
    && db.users[id].username == Strip(username)
    && CheckPassword(db.users[id], h, Strip(password))
    && db.users[id].active
  }

  /**
   * `login` (POST): a session that is already authenticated is left as it
   * is; otherwise the form's username and password are stripped, and the
   * session is opened for the user they name when the password checks and
   * the account is active. No table changes.
   */
  function LoginStep(db: Db, who: Identity, username: string, password: string, h: Hasher): (r: (LoginOutcome, Identity))
    requires db.Valid()
    ensures who.Authenticated? ==> r == (AlreadyLoggedIn, who)
    ensures who.Anonymous? ==> (r.0 == LoggedIn <==> exists id :: Accepts(db, id, username, password, h))
    ensures r.0 == LoggedIn ==> r.1.Authenticated? && Accepts(db, r.1.id, username, password, h)
    ensures r.0 == InvalidCredentials ==> r.1 == Anonymous
    ensures r.0 == AlreadyLoggedIn <==> who.Authenticated?
    ensures who.Anonymous? && r.0 != LoggedIn ==> r == (InvalidCredentials, Anonymous)
  {
    if who.Authenticated? then
      (AlreadyLoggedIn, who)
    else
      var name := Strip(username);
      var pw := Strip(password);
      match FindUser(db, name)
      case Some(id) =>
        if CheckPassword(db.users[id], h, pw) && db.users[id].active then
          assert Accepts(db, id, username, password, h);
          (LoggedIn, Authenticated(id))
        else
          (InvalidCredentials, Anonymous)
      case None => (InvalidCredentials, Anonymous)
  }

  /** An inactive account never logs in, whatever the password. */
  lemma InactiveNeverLogsIn(db: Db, username: string, password: string, h: Hasher)
    requires db.Valid()
    requires forall id :: id in db.users && db.users[id].username == Strip(username) ==> !db.users[id].active
    ensures LoginStep(db, Anonymous, username, password, h).0 == InvalidCredentials
  {
  }

  /** `logout`: afterwards the session is anonymous, whether or not it was before. */
  function LogoutStep(who: Identity): (r: Identity)
    ensures r == Anonymous
  {
    if who.Authenticated? then Anonymous else who
  }

  lemma LogoutIdempotent(who: Identity)
    ensures LogoutStep(LogoutStep(who)) == LogoutStep(who)
  {
  }

  /**
   * `change_password` (POST): administrators only; the old password must
   * check first, and only then is the new one's length tested.
   */
  function ChangePasswordStep(db: Db, actor: UserId, oldPassword: string, newPassword: string, h: Hasher): (r: Step)
    requires db.Valid() && actor in db.users
    ensures r.outcome == Forbidden <==> !IsAdmin(db.users[actor])
    ensures r.outcome == Rejected <==> IsAdmin(db.users[actor]) && !CheckPassword(db.users[actor], h, oldPassword)
    ensures r.outcome == TooShort <==>
      IsAdmin(db.users[actor]) && CheckPassword(db.users[actor], h, oldPassword) && |newPassword| < MinPasswordLength
    ensures r.outcome in {Ok, Forbidden, Rejected, TooShort}
    ensures r.outcome != Ok ==> r.db == db
    ensures r.outcome == Ok ==> OnlyUserChanged(db, r.db, actor)
    ensures r.outcome == Ok ==> r.db.users[actor] == SetPassword(db.users[actor], h, newPassword)
    ensures r.outcome == Ok && Sound(h) ==> CheckPassword(r.db.users[actor], h, newPassword)
    ensures r.db.Valid()
  {
    var user := db.users[actor];
    if !IsAdmin(user) then Step(Forbidden, db)
    else if !CheckPassword(user, h, oldPassword) then Step(Rejected, db)
    else if |newPassword| < MinPasswordLength then Step(TooShort, db)
    else Step(Ok, db.(users := db.users[actor := SetPassword(user, h, newPassword)]))
  }

  /** The state of one browser session: whom `current_user` is. */
  class Session {
    var current: Identity

    constructor ()
      ensures current == Anonymous
    {
      current := Anonymous;
    }

    method Login(db: Database, username: string, password: string, h: Hasher) returns (o: LoginOutcome)
      requires db.Valid()
      modifies this
      ensures (o, current) == LoginStep(db.State(), old(current), username, password, h)
    {
      if current.Authenticated? {
        return AlreadyLoggedIn;
      }
      var name := Strip(username);
      var pw := Strip(password);
      var found := FindUser(db.State(), name);
      if found.Some? && CheckPassword(db.users[found.value], h, pw) && db.users[found.value].active {
        current := Authenticated(found.value);
        o := LoggedIn;
      } else {
        o := InvalidCredentials;
      }
    }

    method Logout()
      modifies this
      ensures current == LogoutStep(old(current))
    {
      if current.Authenticated? {
        current := Anonymous;
      }
    }
  }

  /** `change_password` on the database. */
  method ChangePassword(db: Database, actor: UserId, oldPassword: string, newPassword: string, h: Hasher) returns (o: Outcome)
    requires db.Valid() && actor in db.users
    modifies db
    ensures Step(o, db.State()) == ChangePasswordStep(old(db.State()), actor, oldPassword, newPassword, h)
  {
    var user := db.users[actor];
    if user.role != AdminRole {
      return Forbidden;
    }
    if !CheckPassword(user, h, oldPassword) {
      return Rejected;
    }
    if |newPassword| < MinPasswordLength {
      return TooShort;
    }
    db.users := db.users[actor := SetPassword(user, h, newPassword)];
    o := Ok;
  }
}
