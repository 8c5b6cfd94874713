/**
 * The administration routes: the dashboard, the user list with its search
 * and pagination, and the handlers that add, activate or deactivate,
 * promote or demote, delete, edit and reset the password of a user. Every
 * handler is for administrators only, and none of the handlers that act on
 * one user touches the account whose username is `admin`.
 */
module Admin {
  import opened Options
  import opened Text
  import opened Sorting
  import opened Models
  import opened Store
  import Auth

  /** The username of the account no handler may change. */
  const ProtectedUsername: string := "admin"
  /** The password `reset_password` sets. */
  const TempPassword: string := "Temp1234!"
  /** Users per page of the user list. */
  const PerPage: nat := 10
  /** Length of the dashboard's ranking of authors. */
  const TopUsersLimit: nat := 5

  /**
   * The checks every single-user handler makes in order: the actor is an
   * administrator, the target exists (`get_or_404`), the target is not the
   * protected account.
   */
  function Guard(db: Db, actor: UserId, target: UserId): (o: Outcome)
    requires actor in db.users
    ensures o == Forbidden <==> !IsAdmin(db.users[actor])
    ensures o == NotFound <==> IsAdmin(db.users[actor]) && target !in db.users
    ensures o == Protected <==>
      IsAdmin(db.users[actor]) && target in db.users && db.users[target].username == ProtectedUsername
    ensures o == Ok <==>
      IsAdmin(db.users[actor]) && target in db.users && db.users[target].username != ProtectedUsername
  {
    if !IsAdmin(db.users[actor]) then Forbidden
    else if target !in db.users then NotFound
    else if db.users[target].username == ProtectedUsername then Protected
    else Ok
  }

  /**
   * `users` (POST): adds a user. Both fields must be non-empty and the
   * username free; the role is the form's, `member` when the field is
   * absent. The new user is active and gets the next identifier.
   */
  function AddUserStep(db: Db, actor: UserId, username: string, password: string, role: Option<string>, h: Hasher): (r: Step)
    requires db.Valid() && actor in db.users
    ensures r.outcome == Forbidden <==> !IsAdmin(db.users[actor])
    ensures r.outcome == Empty <==> IsAdmin(db.users[actor]) && (username == "" || password == "")
    ensures r.outcome == Conflict <==>
      IsAdmin(db.users[actor]) && username != "" && password != "" && UsernameTaken(db.users, username)
    ensures r.outcome in {Ok, Forbidden, Empty, Conflict}
    ensures r.outcome != Ok ==> r.db == db
    ensures r.outcome == Ok ==>
      && db.nextUserId !in db.users
      && r.db.users.Keys == db.users.Keys + {db.nextUserId}
      && (forall id :: id in db.users ==> r.db.users[id] == db.users[id])
      && r.db.users[db.nextUserId].username == username
      && r.db.users[db.nextUserId].role == role.GetOr(MemberRole)
      && r.db.users[db.nextUserId].active
      && (Sound(h) ==> CheckPassword(r.db.users[db.nextUserId], h, password))
      && r.db.nextUserId == db.nextUserId + 1
      && r.db.rooms == db.rooms && r.db.messages == db.messages && r.db.nextRoomId == db.nextRoomId
    ensures r.db.Valid()
  {
    if !IsAdmin(db.users[actor]) then Step(Forbidden, db)
    else if username == "" || password == "" then Step(Empty, db)
    else if UsernameTaken(db.users, username) then Step(Conflict, db)
    else
      var id := db.nextUserId;
      var u := NewUser(username, role.GetOr(MemberRole), password, h);
      Step(Ok, db.(users := db.users[id := u], nextUserId := id + 1))
  }

  /** `toggle_user`: flips the target's `active` flag. */
  function ToggleUserStep(db: Db, actor: UserId, target: UserId): (r: Step)
    requires db.Valid() && actor in db.users
    ensures Guard(db, actor, target) != Ok ==> r == Step(Guard(db, actor, target), db)
    ensures Guard(db, actor, target) == Ok ==>
      && r.outcome == Ok
      && OnlyUserChanged(db, r.db, target)
      && r.db.users[target] == db.users[target].(active := !db.users[target].active)
    ensures r.db.Valid()
  {
    var g := Guard(db, actor, target);
    if g != Ok then Step(g, db)
    else
      var u := db.users[target];
      Step(Ok, db.(users := db.users[target := u.(active := !u.active)]))
  }

  /** `promote_user`: an administrator becomes a member, anyone else an administrator. */
  function PromoteUserStep(db: Db, actor: UserId, target: UserId): (r: Step)
    requires db.Valid() && actor in db.users
    ensures Guard(db, actor, target) != Ok ==> r == Step(Guard(db, actor, target), db)
    ensures Guard(db, actor, target) == Ok ==>
      && r.outcome == Ok
      && OnlyUserChanged(db, r.db, target)
      && r.db.users[target] == db.users[target].(role := if IsAdmin(db.users[target]) then MemberRole else AdminRole)
    ensures r.db.Valid()
  {
    var g := Guard(db, actor, target);
    if g != Ok then Step(g, db)
    else
      var u := db.users[target];
      Step(Ok, db.(users := db.users[target := u.(role := if u.role == AdminRole then MemberRole else AdminRole)]))
  }

  /**
   * `delete_user`: removes the target. A user who wrote messages cannot be
   * removed: the messages' author column may not be null, so the commit
   * fails and nothing changes. Messages are never removed.
   */
  function DeleteUserStep(db: Db, actor: UserId, target: UserId): (r: Step)
    requires db.Valid() && actor in db.users
    ensures Guard(db, actor, target) != Ok ==> r == Step(Guard(db, actor, target), db)
    ensures Guard(db, actor, target) == Ok ==>
      (r.outcome == Rejected <==> AuthoredCount(db.messages, target) > 0) && r.outcome in {Ok, Rejected}
    ensures r.outcome != Ok ==> r.db == db
    ensures r.outcome == Ok ==>
      && target in db.users && target !in r.db.users
      && r.db.users.Keys == db.users.Keys - {target}
      && (forall id :: id in r.db.users ==> r.db.users[id] == db.users[id])
      && r.db.rooms == db.rooms && r.db.nextUserId == db.nextUserId && r.db.nextRoomId == db.nextRoomId
    ensures r.db.messages == db.messages
    ensures r.db.Valid()
  {
    var g := Guard(db, actor, target);
    if g != Ok then Step(g, db)
    else if AuthoredCount(db.messages, target) > 0 then Step(Rejected, db)
    else
      CountZero(db.messages, (m: Message) => m.author == target);
      Step(Ok, db.(users := db.users - {target}))
  }

  /**
   * `edit_user`: the form's role replaces the target's when it is given
   * (the empty string stands for an absent field), and a given password is
   * set; the username and the active flag stay.
   */
  function EditUserStep(db: Db, actor: UserId, target: UserId, newRole: string, newPassword: string, h: Hasher): (r: Step)
    requires db.Valid() && actor in db.users
    ensures Guard(db, actor, target) != Ok ==> r == Step(Guard(db, actor, target), db)
    ensures Guard(db, actor, target) == Ok ==>
      && r.outcome == Ok
      && OnlyUserChanged(db, r.db, target)
      && r.db.users[target].username == db.users[target].username
      && r.db.users[target].active == db.users[target].active
      && r.db.users[target].role == (if newRole != "" then newRole else db.users[target].role)
      && (newPassword == "" ==> r.db.users[target].passwordHash == db.users[target].passwordHash)
      && (newPassword != "" ==> r.db.users[target].passwordHash == h.generate(newPassword))
      && (newPassword != "" && Sound(h) ==> CheckPassword(r.db.users[target], h, newPassword))
    ensures r.db.Valid()
  {
    var g := Guard(db, actor, target);
    if g != Ok then Step(g, db)
    else
      var u := db.users[target];
      var u1 := if newRole != "" && newRole != u.role then u.(role := newRole) else u;
      var u2 := if newPassword != "" then SetPassword(u1, h, newPassword) else u1;
      Step(Ok, db.(users := db.users[target := u2]))
  }

  /** `reset_password`: the target's password becomes the temporary one. */
  function ResetPasswordStep(db: Db, actor: UserId, target: UserId, h: Hasher): (r: Step)
    requires db.Valid() && actor in db.users
    ensures Guard(db, actor, target) != Ok ==> r == Step(Guard(db, actor, target), db)
    ensures Guard(db, actor, target) == Ok ==>
      && r.outcome == Ok
      && OnlyUserChanged(db, r.db, target)
      && r.db.users[target] == SetPassword(db.users[target], h, TempPassword)
      && (Sound(h) ==> CheckPassword(r.db.users[target], h, TempPassword))
    ensures r.db.Valid()
  {
    var g := Guard(db, actor, target);
    if g != Ok then Step(g, db)
    else Step(Ok, db.(users := db.users[target := SetPassword(db.users[target], h, TempPassword)]))
  }

  /** The requests of the administration routes that change the user table. */
  datatype Request =
    | AddUser(username: string, password: string, role: Option<string>)
    | ToggleUser(target: UserId)
    | PromoteUser(target: UserId)
    | DeleteUser(target: UserId)
    | EditUser(target: UserId, newRole: string, newPassword: string)
    | ResetPassword(target: UserId)

  function Handle(db: Db, actor: UserId, req: Request, h: Hasher): (r: Step)
    requires db.Valid() && actor in db.users
    ensures !IsAdmin(db.users[actor]) ==> r == Step(Forbidden, db)
    ensures r.outcome != Ok ==> r.db == db
    ensures r.db.Valid()
  {
    match req
    case AddUser(u, p, role) => AddUserStep(db, actor, u, p, role, h)
    case ToggleUser(t) => ToggleUserStep(db, actor, t)
    case PromoteUser(t) => PromoteUserStep(db, actor, t)
    case DeleteUser(t) => DeleteUserStep(db, actor, t)
    case EditUser(t, role, p) => EditUserStep(db, actor, t, role, p, h)
    case ResetPassword(t) => ResetPasswordStep(db, actor, t, h)
  }

  /**
   * No request of the administration routes changes the protected account
   * or any existing user's username; the protected account is never removed.
   */
  lemma ProtectedAccountUntouched(db: Db, actor: UserId, req: Request, h: Hasher, a: UserId)
    requires db.Valid() && actor in db.users
    requires a in db.users && db.users[a].username == ProtectedUsername
    ensures a in Handle(db, actor, req, h).db.users
    ensures Handle(db, actor, req, h).db.users[a] == db.users[a]
  {
  }

  /** Toggling a user twice restores the tables. */
  lemma ToggleTwiceRestores(db: Db, actor: UserId, target: UserId)
    requires db.Valid() && actor in db.users
    ensures ToggleUserStep(ToggleUserStep(db, actor, target).db, actor, target).db == db
  {
    var s1 := ToggleUserStep(db, actor, target);
    if s1.outcome == Ok {
      var s2 := ToggleUserStep(s1.db, actor, target);
      assert Guard(s1.db, actor, target) == Ok;
      assert s2.db.users == db.users;
    }
  }

  /**
   * Promoting a user twice restores an administrator or a member; any other
   * role (a moderator, say) ends as `member`.
   */
  lemma PromoteTwice(db: Db, actor: UserId, target: UserId)
    requires db.Valid() && actor in db.users && actor != target
    requires Guard(db, actor, target) == Ok
    ensures var r := PromoteUserStep(PromoteUserStep(db, actor, target).db, actor, target);
      && r.outcome == Ok
      && r.db.users[target].role == (if IsAdmin(db.users[target]) then AdminRole else MemberRole)
      && (r.db == db <==> db.users[target].role in {AdminRole, MemberRole})
  {
    var s1 := PromoteUserStep(db, actor, target);
    assert Guard(s1.db, actor, target) == Ok;
    var s2 := PromoteUserStep(s1.db, actor, target);
    if db.users[target].role in {AdminRole, MemberRole} {
      assert s2.db.users == db.users;
    } else {
      assert s2.db.users[target] != db.users[target];
    }
  }

  /** The temporary password has no surrounding whitespace. */
  lemma TempPasswordStripped()
    ensures Strip(TempPassword) == TempPassword
  {
    assert !IsSpace(TempPassword[0]) && !IsSpace(TempPassword[|TempPassword| - 1]);
    assert LeadingRun(TempPassword, IsSpace) == 0;
    assert TempPassword[0..] == TempPassword;
    assert TrailingRun(TempPassword, IsSpace) == 0;
  }

  /**
   * After `reset_password`, the user logs in with the temporary password,
   * provided the account is active and its username has no surrounding
   * whitespace (`login` strips what it is given).
   */
  lemma ResetThenLogin(db: Db, actor: UserId, target: UserId, h: Hasher)
    requires db.Valid() && actor in db.users && Sound(h)
    requires Guard(db, actor, target) == Ok
    requires db.users[target].active
    requires Strip(db.users[target].username) == db.users[target].username
    ensures var db' := ResetPasswordStep(db, actor, target, h).db;
      Auth.LoginStep(db', Auth.Anonymous, db.users[target].username, TempPassword, h)
        == (Auth.LoggedIn, Auth.Authenticated(target))
  {
    var db' := ResetPasswordStep(db, actor, target, h).db;
    var name := db.users[target].username;
    TempPasswordStripped();
    assert Auth.Accepts(db', target, name, TempPassword, h);
    var r := Auth.LoginStep(db', Auth.Anonymous, name, TempPassword, h);
    assert r.1.id == target by {
      assert db'.users[r.1.id].username == name == db'.users[target].username;
    }
  }

  /**
   * A user added with a username and password free of surrounding
   * whitespace logs in with them, as the identifier the addition handed out.
   */
  lemma AddThenLogin(db: Db, actor: UserId, username: string, password: string, role: Option<string>, h: Hasher)
    requires db.Valid() && actor in db.users && Sound(h)
    requires AddUserStep(db, actor, username, password, role, h).outcome == Ok
    requires Strip(username) == username && Strip(password) == password
    ensures var db' := AddUserStep(db, actor, username, password, role, h).db;
      Auth.LoginStep(db', Auth.Anonymous, username, password, h)
        == (Auth.LoggedIn, Auth.Authenticated(db.nextUserId))
  {
    var db' := AddUserStep(db, actor, username, password, role, h).db;
    assert Auth.Accepts(db', db.nextUserId, username, password, h);
  }

  /**
   * Deleting a user frees the username: adding a user under it again
   * succeeds, under a new identifier.
   */
  lemma DeleteFreesUsername(db: Db, actor: UserId, target: UserId, password: string, role: Option<string>, h: Hasher)
    requires db.Valid() && actor in db.users && actor != target
    requires DeleteUserStep(db, actor, target).outcome == Ok
    requires db.users[target].username != "" && password != ""
    ensures actor in DeleteUserStep(db, actor, target).db.users
    ensures AddUserStep(DeleteUserStep(db, actor, target).db, actor, db.users[target].username, password, role, h).outcome == Ok
  {
    var db' := DeleteUserStep(db, actor, target).db;
    var name := db.users[target].username;
    assert !UsernameTaken(db'.users, name) by {
      forall id | id in db'.users ensures db'.users[id].username != name {
        assert db'.users[id] == db.users[id];
      }
    }
  }

  // ---------------------------------------------------------------------
  // The user list: search and pagination
  // ---------------------------------------------------------------------

  /**
   * `User.username.ilike('%q%')` on the default SQLite database: a substring
   * match after folding ASCII letters only, as SQLite's `lower()` does.
   */
  predicate Matches(u: User, q: string) {
    Contains(LowerAscii(u.username), LowerAscii(q))
  }

  /** The empty query matches every user. */
  lemma EverythingMatchesEmpty()
    ensures forall u: User :: Matches(u, "")
  {
    forall u: User ensures Matches(u, "") {
      ContainsEmpty(LowerAscii(u.username));
    }
  }

  /** The rows of `es` whose user matches `q`, in the order of `es`. */
  function MatchingEntries(es: seq<(UserId, User)>, q: string): (r: seq<(UserId, User)>)
    ensures forall e :: e in r <==> e in es && Matches(e.1, q)
    ensures (forall i, j :: 0 <= i < j < |es| ==> es[i].0 != es[j].0) ==>
              forall i, j :: 0 <= i < j < |r| ==> r[i].0 != r[j].0
  {
    if es == [] then []
    else
      var rest := MatchingEntries(es[1..], q);
      if Matches(es[0].1, q) then
        assert forall k :: 0 <= k < |rest| ==> rest[k] in es[1..];
        [es[0]] + rest
      else
        rest
  }

  function EntryUsername(e: (UserId, User)): string {
    e.1.username
  }

  /**
   * The rows a search keeps, in key order: all of them for an empty query,
   * otherwise those whose username contains the query, ignoring case.
   */
  function SearchEntries(db: Db, query: string): (es: seq<(UserId, User)>)
    requires db.Valid()
    ensures forall k :: 0 <= k < |es| ==>
      es[k].0 in db.users && db.users[es[k].0] == es[k].1 && Matches(es[k].1, query)
    ensures forall i, j :: 0 <= i < j < |es| ==> es[i].0 != es[j].0
  {
    var all := Entries(db.users, db.nextUserId);
    if query == "" then
      EverythingMatchesEmpty();
      all
    else
      MatchingRows(db, all, query);
      MatchingEntries(all, query)
  }

  /** The matching rows of a list of user rows are user rows that match. */
  lemma MatchingRows(db: Db, all: seq<(UserId, User)>, query: string)
    requires forall k :: 0 <= k < |all| ==> all[k].0 in db.users && db.users[all[k].0] == all[k].1
    ensures forall k :: 0 <= k < |MatchingEntries(all, query)| ==>
      var e := MatchingEntries(all, query)[k];
      e.0 in db.users && db.users[e.0] == e.1 && Matches(e.1, query)
  {
    var r := MatchingEntries(all, query);
    forall k | 0 <= k < |r| ensures r[k].0 in db.users && db.users[r[k].0] == r[k].1 {
      assert r[k] in r;
      var i :| 0 <= i < |all| && all[i] == r[k];
    }
  }

  /** A search keeps every matching user. */
  lemma SearchEntriesHas(db: Db, query: string, id: UserId)
    requires db.Valid() && id in db.users && Matches(db.users[id], query)
    ensures exists k :: 0 <= k < |SearchEntries(db, query)| && SearchEntries(db, query)[k].0 == id
  {
    var all := Entries(db.users, db.nextUserId);
    var es := SearchEntries(db, query);
    var k :| 0 <= k < |all| && all[k].0 == id;
    assert all[k] in es;
  }

  /** A reordering of the search's rows keeps the search's rows, each once, and misses none. */
  lemma SearchRowsReordered(db: Db, query: string, r: seq<(UserId, User)>)
    requires db.Valid()
    requires multiset(r) == multiset(SearchEntries(db, query))
    ensures forall k :: 0 <= k < |r| ==>
      r[k].0 in db.users && db.users[r[k].0] == r[k].1 && Matches(r[k].1, query)
    ensures forall id :: id in db.users && Matches(db.users[id], query) ==>
      exists k :: 0 <= k < |r| && r[k].0 == id
    ensures forall i, j :: 0 <= i < j < |r| ==> r[i].0 != r[j].0
  {
    var es := SearchEntries(db, query);
    Reordered(db.users, es, r);
    forall id | id in db.users && Matches(db.users[id], query)
      ensures exists k :: 0 <= k < |r| && r[k].0 == id
    {
      SearchEntriesHas(db, query, id);
      var i :| 0 <= i < |es| && es[i].0 == id;
      assert es[i] in r;
      var k :| 0 <= k < |r| && r[k] == es[i];
    }
    forall k | 0 <= k < |r| ensures Matches(r[k].1, query) {
      var i :| 0 <= i < |es| && es[i] == r[k];
    }
  }

  /** Distinct users sorted by username are in strictly ascending order of username. */
  lemma SortedUsersStrictly(db: Db, r: seq<(UserId, User)>)
    requires db.Valid()
    requires Sorted(r, ByName(EntryUsername))
    requires forall k :: 0 <= k < |r| ==> r[k].0 in db.users && db.users[r[k].0] == r[k].1
    requires forall i, j :: 0 <= i < j < |r| ==> r[i].0 != r[j].0
    ensures forall i, j :: 0 <= i < j < |r| ==>
      LexLe(r[i].1.username, r[j].1.username) && r[i].1.username != r[j].1.username
  {
    forall i, j | 0 <= i < j < |r|
      ensures LexLe(r[i].1.username, r[j].1.username) && r[i].1.username != r[j].1.username
    {
      ByNameOrdered(EntryUsername, r, i, j);
    }
  }

  /**
   * The search the user list runs: the users whose username contains the
   * stripped query, ignoring case, each once, by ascending username.
   */
  function SearchUsers(db: Db, q: string): (r: seq<(UserId, User)>)
    requires db.Valid()
    ensures forall k :: 0 <= k < |r| ==>
      r[k].0 in db.users && db.users[r[k].0] == r[k].1 && Matches(r[k].1, Strip(q))
    ensures forall id :: id in db.users && Matches(db.users[id], Strip(q)) ==>
      exists k :: 0 <= k < |r| && r[k].0 == id
    ensures forall i, j :: 0 <= i < j < |r| ==>
      LexLe(r[i].1.username, r[j].1.username) && r[i].1.username != r[j].1.username
  {
    ByNameTotalPreorder(EntryUsername);
    var r := Sort(SearchEntries(db, Strip(q)), ByName(EntryUsername));
    SearchRowsReordered(db, Strip(q), r);
    SortedUsersStrictly(db, r);
    r
  }

  /** The offset of a page; pages below the first are read as the first. */
  function Offset(page: int): nat {
    (if page < 1 then 0 else page - 1) * PerPage
  }

  /**
   * `paginate(page, per_page=10, error_out=False)`: the slice of the
   * listing that page shows, empty past the end.
   */
  function Page<T>(s: seq<T>, page: int): (r: seq<T>)
    ensures |r| <= PerPage
    ensures forall k :: 0 <= k < |r| ==> Offset(page) + k < |s| && r[k] == s[Offset(page) + k]
    ensures |r| == PerPage || Offset(page) + |r| >= |s|
  {
    var start := Offset(page);
    if start >= |s| then []
    else if start + PerPage <= |s| then s[start..start + PerPage]
    else s[start..]
  }

  /** Every listed user is on the page its position names, and on no other. */
  lemma PageCovers<T>(s: seq<T>, i: nat)
    requires i < |s|
    ensures var p := i / PerPage + 1;
      i - Offset(p) < |Page(s, p)| && Page(s, p)[i - Offset(p)] == s[i]
    ensures forall p: int :: p >= 1 && Offset(p) <= i < Offset(p) + PerPage ==> p == i / PerPage + 1
  {
    var p := i / PerPage + 1;
    assert Offset(p) == (i / PerPage) * PerPage;
    forall p': int | p' >= 1 && Offset(p') <= i < Offset(p') + PerPage
      ensures p' == p
    {
      assert (p' - 1) * PerPage <= i < (p' - 1) * PerPage + PerPage;
    }
  }

  /** A page of matching users in username order holds matching users in username order. */
  lemma PageOfUsers(db: Db, q: string, s: seq<(UserId, User)>, page: int)
    requires forall k :: 0 <= k < |s| ==> s[k].0 in db.users && db.users[s[k].0] == s[k].1 && Matches(s[k].1, q)
    requires forall i, j :: 0 <= i < j < |s| ==> LexLe(s[i].1.username, s[j].1.username)
    ensures forall k :: 0 <= k < |Page(s, page)| ==>
      var e := Page(s, page)[k];
      e.0 in db.users && db.users[e.0] == e.1 && Matches(e.1, q)
    ensures forall i, j :: 0 <= i < j < |Page(s, page)| ==>
      LexLe(Page(s, page)[i].1.username, Page(s, page)[j].1.username)
  {
    var r := Page(s, page);
    var start := Offset(page);
    forall i, j | 0 <= i < j < |r| ensures LexLe(r[i].1.username, r[j].1.username) {
      assert r[i] == s[start + i] && r[j] == s[start + j];
    }
  }

  /** `users` (GET): one page of the matching users. */
  function UserListing(db: Db, q: string, page: int): (r: seq<(UserId, User)>)
    requires db.Valid()
    ensures |r| <= PerPage
    ensures forall k :: 0 <= k < |r| ==>
      r[k].0 in db.users && db.users[r[k].0] == r[k].1 && Matches(r[k].1, Strip(q))
    ensures forall i, j :: 0 <= i < j < |r| ==> LexLe(r[i].1.username, r[j].1.username)
    ensures forall k :: 0 <= k < |r| ==>
      Offset(page) + k < |SearchUsers(db, q)| && r[k] == SearchUsers(db, q)[Offset(page) + k]
    ensures |r| == PerPage || Offset(page) + |r| >= |SearchUsers(db, q)|
  {
    var all := SearchUsers(db, q);
    PageOfUsers(db, Strip(q), all, page);
    Page(all, page)
  }

  // ---------------------------------------------------------------------
  // The dashboard
  // ---------------------------------------------------------------------

  datatype RoomStat = RoomStat(name: string, count: nat)
  datatype UserStat = UserStat(username: string, count: nat)

  datatype Dashboard = Dashboard(
    totalUsers: nat,
    totalRooms: nat,
    totalMessages: nat,
    roomStats: seq<RoomStat>,
    topUsers: seq<UserStat>)

  function StatCount(s: UserStat): int {
    s.count
  }

  /** One row per user of `es` who wrote at least one message (the inner join). */
  function AuthorStats(ms: seq<Message>, es: seq<(UserId, User)>): (r: seq<UserStat>)
    ensures forall k :: 0 <= k < |r| ==> r[k].count > 0
  {
    if es == [] then []
    else
      var rest := AuthorStats(ms, es[1..]);
      var n := AuthoredCount(ms, es[0].0);
      if n > 0 then [UserStat(es[0].1.username, n)] + rest else rest
  }

  /** Each row of `AuthorStats` is a user of `es` with the number of messages they wrote. */
  lemma {:induction false} AuthorStatsRow(ms: seq<Message>, es: seq<(UserId, User)>, k: nat)
    requires k < |AuthorStats(ms, es)|
    ensures exists i :: 0 <= i < |es| && AuthorStats(ms, es)[k] == UserStat(es[i].1.username, AuthoredCount(ms, es[i].0))
  {
    var r := AuthorStats(ms, es);
    var rest := AuthorStats(ms, es[1..]);
    var n := AuthoredCount(ms, es[0].0);
    if n > 0 && k == 0 {
      assert r[k] == UserStat(es[0].1.username, AuthoredCount(ms, es[0].0));
    } else {
      var k' := if n > 0 then k - 1 else k;
      assert r[k] == rest[k'];
      AuthorStatsRow(ms, es[1..], k');
      var i :| 0 <= i < |es[1..]| && rest[k'] == UserStat(es[1..][i].1.username, AuthoredCount(ms, es[1..][i].0));
      assert es[1..][i] == es[i + 1];
    }
  }

  /** Every user of `es` who wrote a message has a row in `AuthorStats`. */
  lemma {:induction false} AuthorStatsHas(ms: seq<Message>, es: seq<(UserId, User)>, i: nat)
    requires i < |es| && AuthoredCount(ms, es[i].0) > 0
    ensures UserStat(es[i].1.username, AuthoredCount(ms, es[i].0)) in AuthorStats(ms, es)
  {
    if i > 0 {
      assert es[1..][i - 1] == es[i];
      AuthorStatsHas(ms, es[1..], i - 1);
    }
  }

  /** Users of `es` with distinct names give rows of `AuthorStats` with distinct names. */
  lemma {:induction false} AuthorStatsDistinct(ms: seq<Message>, es: seq<(UserId, User)>)
    requires forall i, j :: 0 <= i < j < |es| ==> es[i].1.username != es[j].1.username
    ensures DistinctUsers(AuthorStats(ms, es))
  {
    if es != [] {
      var r := AuthorStats(ms, es);
      var rest := AuthorStats(ms, es[1..]);
      AuthorStatsDistinct(ms, es[1..]);
      if AuthoredCount(ms, es[0].0) > 0 {
        forall k | 0 <= k < |rest| ensures rest[k].username != es[0].1.username {
          AuthorStatsRow(ms, es[1..], k);
          var i :| 0 <= i < |es[1..]| && rest[k] == UserStat(es[1..][i].1.username, AuthoredCount(ms, es[1..][i].0));
          assert es[1..][i] == es[i + 1];
        }
        forall i, j | 0 <= i < j < |r| ensures r[i].username != r[j].username {
          assert r[j] == rest[j - 1];
          if i > 0 {
            assert r[i] == rest[i - 1];
          }
        }
      }
    }
  }

  /** The authors by number of messages, most first. */
  function Ranking(db: Db): (r: seq<UserStat>)
    ensures Sorted(r, ByRankDescending(StatCount))
    ensures multiset(r) == multiset(AuthorStats(db.messages, Entries(db.users, db.nextUserId)))
  {
    ByRankDescendingTotalPreorder(StatCount);
    Sort(AuthorStats(db.messages, Entries(db.users, db.nextUserId)), ByRankDescending(StatCount))
  }

  /** Each row of the ranking is a user with the number of messages they wrote, at least one. */
  lemma RankingRow(db: Db, k: nat)
    requires k < |Ranking(db)|
    ensures Ranking(db)[k].count > 0
    ensures exists id :: id in db.users && Ranking(db)[k] == UserStat(db.users[id].username, AuthoredCount(db.messages, id))
  {
    var all := Ranking(db);
    var es := Entries(db.users, db.nextUserId);
    var stats := AuthorStats(db.messages, es);
    assert all[k] in multiset(stats);
    var j :| 0 <= j < |stats| && stats[j] == all[k];
    AuthorStatsRow(db.messages, es, j);
    var i :| 0 <= i < |es| && stats[j] == UserStat(es[i].1.username, AuthoredCount(db.messages, es[i].0));
    assert es[i].0 in db.users && db.users[es[i].0] == es[i].1;
  }

  /** Every user who wrote a message has a row in the ranking. */
  lemma RankingHas(db: Db, id: UserId)
    requires db.Valid() && id in db.users && AuthoredCount(db.messages, id) > 0
    ensures UserStat(db.users[id].username, AuthoredCount(db.messages, id)) in Ranking(db)
  {
    var es := Entries(db.users, db.nextUserId);
    var stats := AuthorStats(db.messages, es);
    var i :| 0 <= i < |es| && es[i].0 == id;
    AuthorStatsHas(db.messages, es, i);
    assert UserStat(db.users[id].username, AuthoredCount(db.messages, id)) in multiset(stats);
  }

  /** No two rows of `s` carry the same username. */
  predicate DistinctUsers(s: seq<UserStat>) {
    forall i, j :: 0 <= i < j < |s| ==> s[i].username != s[j].username
  }

  /** The table's entries name distinct users, since usernames are unique. */
  lemma EntriesDistinctNames(db: Db)
    requires db.Valid()
    ensures var es := Entries(db.users, db.nextUserId);
      forall i, j :: 0 <= i < j < |es| ==> es[i].1.username != es[j].1.username
  {
    var es := Entries(db.users, db.nextUserId);
    forall i, j | 0 <= i < j < |es| ensures es[i].1.username != es[j].1.username {
      assert es[i].0 < es[j].0;
      assert db.users[es[i].0] == es[i].1 && db.users[es[j].0] == es[j].1;
    }
  }

  /** Reordering rows with distinct usernames keeps them distinct. */
  lemma PermutationDistinctUsers(a: seq<UserStat>, b: seq<UserStat>)
    requires multiset(a) == multiset(b) && DistinctUsers(a)
    ensures DistinctUsers(b)
  {
    assert NoDuplicates(a);
    PermutationNoDuplicates(a, b);
    forall i, j | 0 <= i < j < |b| ensures b[i].username != b[j].username {
      assert b[i] in multiset(b) && b[j] in multiset(b);
      var x :| 0 <= x < |a| && a[x] == b[i];
      var y :| 0 <= y < |a| && a[y] == b[j];
      assert x != y;
    }
  }

  /** The ranking has one row per user: no two rows carry the same username. */
  lemma RankingDistinct(db: Db)
    requires db.Valid()
    ensures DistinctUsers(Ranking(db))
  {
    var es := Entries(db.users, db.nextUserId);
    EntriesDistinctNames(db);
    AuthorStatsDistinct(db.messages, es);
    PermutationDistinctUsers(AuthorStats(db.messages, es), Ranking(db));
  }

  /**
   * The dashboard's top authors: at most five users, each with the number
   * of messages they wrote (at least one), most first; an author left out
   * wrote no more than any author listed.
   */
  function TopUsers(db: Db): (r: seq<UserStat>)
    requires db.Valid()
    ensures |r| <= TopUsersLimit
    ensures forall i, j :: 0 <= i < j < |r| ==> r[i].count >= r[j].count
    ensures forall k :: 0 <= k < |r| ==> r[k].count > 0
    ensures forall i, j :: 0 <= i < j < |r| ==> r[i].username != r[j].username
    ensures forall k :: 0 <= k < |r| ==>
      exists id :: id in db.users && r[k] == UserStat(db.users[id].username, AuthoredCount(db.messages, id))
    ensures forall id :: id in db.users && AuthoredCount(db.messages, id) > 0 ==>
      || UserStat(db.users[id].username, AuthoredCount(db.messages, id)) in r
      || (|r| == TopUsersLimit && forall k :: 0 <= k < |r| ==> r[k].count >= AuthoredCount(db.messages, id))
  {
    var all := Ranking(db);
    var r := if |all| <= TopUsersLimit then all else all[..TopUsersLimit];
    assert forall k :: 0 <= k < |r| ==> r[k] == all[k];
    RankingDistinct(db);
    forall i, j | 0 <= i < j < |r| ensures r[i].count >= r[j].count {
      ByRankDescendingOrdered(StatCount, all, i, j);
    }
    forall k | 0 <= k < |r|
      ensures r[k].count > 0
      ensures exists id :: id in db.users && r[k] == UserStat(db.users[id].username, AuthoredCount(db.messages, id))
    {
      RankingRow(db, k);
    }
    forall id | id in db.users && AuthoredCount(db.messages, id) > 0
      ensures var s := UserStat(db.users[id].username, AuthoredCount(db.messages, id));
        s in r || (|r| == TopUsersLimit && forall k :: 0 <= k < |r| ==> r[k].count >= s.count)
    {
      RankingHas(db, id);
      RankedPrefix(all, TopUsersLimit, UserStat(db.users[id].username, AuthoredCount(db.messages, id)));
    }
    r
  }

  /**
   * A row of a ranking is within its first `n` rows, or those `n` rows all
   * rank at least as high.
   */
  lemma RankedPrefix(all: seq<UserStat>, n: nat, s: UserStat)
    requires Sorted(all, ByRankDescending(StatCount)) && s in all
    ensures var r := if |all| <= n then all else all[..n];
      s in r || (|r| == n && forall k :: 0 <= k < |r| ==> r[k].count >= s.count)
  {
    var r := if |all| <= n then all else all[..n];
    var j :| 0 <= j < |all| && all[j] == s;
    if j < |r| {
      assert r[j] == s;
    } else {
      forall k | 0 <= k < |r| ensures r[k].count >= s.count {
        ByRankDescendingOrdered(StatCount, all, k, j);
      }
    }
  }

  // ---------------------------------------------------------------------
  // The handlers on the database
  // ---------------------------------------------------------------------

  /** `dashboard`: the totals, the message count of each room by name, the top authors. */
  method ShowDashboard(db: Database, actor: UserId) returns (o: Outcome, d: Dashboard)
    requires db.Valid() && actor in db.users
    ensures o in {Ok, Forbidden}
    ensures o == Forbidden <==> !IsAdmin(db.users[actor])
    ensures o == Ok ==>
      && d.totalUsers == |db.users| && d.totalRooms == |db.rooms| && d.totalMessages == |db.messages|
      && |d.roomStats| == |RoomsByName(db.State())|
      && (forall k :: 0 <= k < |d.roomStats| ==>
            var e := RoomsByName(db.State())[k];
            d.roomStats[k] == RoomStat(e.1.name, RoomMessageCount(db.messages, e.0)))
      && d.topUsers == TopUsers(db.State())
  {
    if db.users[actor].role != AdminRole {
      return Forbidden, Dashboard(0, 0, 0, [], []);
    }
    var stats := CountRoomMessages(db.messages, RoomsByName(db.State()));
    o := Ok;
    d := Dashboard(|db.users|, |db.rooms|, |db.messages|, stats, TopUsers(db.State()));
  }

  /** The dashboard's loop: the name and message count of each room, in the given order. */
  method CountRoomMessages(ms: seq<Message>, rooms: seq<(RoomId, Room)>) returns (stats: seq<RoomStat>)
    ensures |stats| == |rooms|
    ensures forall k :: 0 <= k < |rooms| ==> stats[k] == RoomStat(rooms[k].1.name, RoomMessageCount(ms, rooms[k].0))
  {
    stats := [];
    for i := 0 to |rooms|
      invariant |stats| == i
      invariant forall k :: 0 <= k < i ==> stats[k] == RoomStat(rooms[k].1.name, RoomMessageCount(ms, rooms[k].0))
    {
      stats := stats + [RoomStat(rooms[i].1.name, RoomMessageCount(ms, rooms[i].0))];
    }
  }

  /** `users` (GET). */
  method ListUsers(db: Database, actor: UserId, q: string, page: int) returns (o: Outcome, users: seq<(UserId, User)>)
    requires db.Valid() && actor in db.users
    ensures o in {Ok, Forbidden}
    ensures o == Forbidden <==> !IsAdmin(db.users[actor])
    ensures o == Ok ==> users == UserListing(db.State(), q, page)
  {
    if db.users[actor].role != AdminRole {
      return Forbidden, [];
    }
    o := Ok;
    users := UserListing(db.State(), q, page);
  }

  /** `users` (POST). */
  method AddUser(db: Database, actor: UserId, username: string, password: string, role: Option<string>, h: Hasher)
    returns (o: Outcome)
    requires db.Valid() && actor in db.users
    modifies db
    ensures Step(o, db.State()) == AddUserStep(old(db.State()), actor, username, password, role, h)
  {
    if db.users[actor].role != AdminRole {
      return Forbidden;
    }
    if username == "" || password == "" {
      return Empty;
    }
    if UsernameTaken(db.users, username) {
      return Conflict;
    }
    var user := NewUser(username, role.GetOr(MemberRole), password, h);
    db.users := db.users[db.nextUserId := user];
    db.nextUserId := db.nextUserId + 1;
    o := Ok;
  }

  /** `toggle_user`. */
  method ToggleUser(db: Database, actor: UserId, target: UserId) returns (o: Outcome)
    requires db.Valid() && actor in db.users
    modifies db
    ensures Step(o, db.State()) == ToggleUserStep(old(db.State()), actor, target)
  {
    o := Guard(db.State(), actor, target);
    if o != Ok {
      return;
    }
    var user := db.users[target];
    db.users := db.users[target := user.(active := !user.active)];
  }

  /** `promote_user`. */
  method PromoteUser(db: Database, actor: UserId, target: UserId) returns (o: Outcome)
    requires db.Valid() && actor in db.users
    modifies db
    ensures Step(o, db.State()) == PromoteUserStep(old(db.State()), actor, target)
  {
    o := Guard(db.State(), actor, target);
    if o != Ok {
      return;
    }
    var user := db.users[target];
    if user.role == AdminRole {
      user := user.(role := MemberRole);
    } else {
      user := user.(role := AdminRole);
    }
    db.users := db.users[target := user];
  }

  /** `delete_user`. */
  method DeleteUser(db: Database, actor: UserId, target: UserId) returns (o: Outcome)
    requires db.Valid() && actor in db.users
    modifies db
    ensures Step(o, db.State()) == DeleteUserStep(old(db.State()), actor, target)
  {
    o := Guard(db.State(), actor, target);
    if o != Ok {
      return;
    }
    if AuthoredCount(db.messages, target) > 0 {
      return Rejected;
    }
    db.users := db.users - {target};
  }

  /** `edit_user`. */
  method EditUser(db: Database, actor: UserId, target: UserId, newRole: string, newPassword: string, h: Hasher)
    returns (o: Outcome)
    requires db.Valid() && actor in db.users
    modifies db
    ensures Step(o, db.State()) == EditUserStep(old(db.State()), actor, target, newRole, newPassword, h)
  {
    o := Guard(db.State(), actor, target);
    if o != Ok {
      return;
    }
    var user := db.users[target];
    if newRole != "" && newRole != user.role {
      user := user.(role := newRole);
    }
    if newPassword != "" {
      user := SetPassword(user, h, newPassword);
    }
    db.users := db.users[target := user];
  }

  /** `reset_password`. */
  method ResetPassword(db: Database, actor: UserId, target: UserId, h: Hasher) returns (o: Outcome)
    requires db.Valid() && actor in db.users
    modifies db
    ensures Step(o, db.State()) == ResetPasswordStep(old(db.State()), actor, target, h)
  {
    o := Guard(db.State(), actor, target);
    if o != Ok {
      return;
    }
    db.users := db.users[target := SetPassword(db.users[target], h, TempPassword)];
  }
}
