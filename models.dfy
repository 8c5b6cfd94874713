/**
 * The three tables of the chat application as value rows (users, rooms,
 * messages), their column defaults, the role predicates of `User`, and the
 * password contract of `set_password` / `check_password`.
 */
module Models {
  import opened Options

  type UserId = nat
  type RoomId = nat

  const AdminRole: string := "admin"
  const ModeratorRole: string := "moderator"
  const MemberRole: string := "member"

  /** A row of the `user` table. The role is an open string, as in the schema. */
  datatype User = User(username: string, passwordHash: string, role: string, active: bool)

  /** A row of the `room` table. */
  datatype Room = Room(name: string)

  /**
   * A row of the `message` table: text (`content`) or an attachment
   * (`filePath`), its author and room, the read flag and the creation time.
   */
  datatype Message = Message(
    content: Option<string>,
    filePath: Option<string>,
    author: UserId,
    room: RoomId,
    isRead: bool,
    timestamp: nat)

  /**
   * The password-hashing library, left uninterpreted: `generate` makes a
   * hash of a password and `check` tests a password against a hash.
   */
  datatype Hasher = Hasher(generate: string -> string, check: (string, string) -> bool)

  /** The one property relied on: a hash accepts the password it was made from. */
  ghost predicate Sound(h: Hasher) {
    forall pw :: h.check(h.generate(pw), pw)
  }

  predicate IsAdmin(u: User) {
    u.role == AdminRole
  }

  predicate IsModerator(u: User) {
    u.role == ModeratorRole
  }

  /** `has_role(*roles)`: the user's role is one of `roles`. */
  predicate HasRole(u: User, roles: seq<string>) {
    u.role in roles
  }

  predicate IsActiveMember(u: User) {
    u.active && u.role in {AdminRole, ModeratorRole, MemberRole}
  }

  /**
   * The role predicates agree with one another: an active member is an
   * active user whose role is one of the three known ones, and no user has
   * a role out of an empty list.
   */
  lemma RolePredicatesAgree(u: User)
    ensures IsActiveMember(u) <==> u.active && (IsAdmin(u) || IsModerator(u) || HasRole(u, [MemberRole]))
    ensures !u.active ==> !IsActiveMember(u)
    ensures !HasRole(u, [])
    ensures IsAdmin(u) <==> HasRole(u, [AdminRole])
    ensures IsModerator(u) <==> HasRole(u, [ModeratorRole])
  {
  }

  predicate CheckPassword(u: User, h: Hasher, pw: string) {
    h.check(u.passwordHash, pw)
  }

  /** `set_password`: stores a fresh hash of `pw`; no other column changes. */
  function SetPassword(u: User, h: Hasher, pw: string): (r: User)
    ensures r.username == u.username && r.role == u.role && r.active == u.active
    ensures Sound(h) ==> CheckPassword(r, h, pw)
  {
    u.(passwordHash := h.generate(pw))
  }

  /** A new `User` with the given role, active by default, with the hash of `password`. */
  function NewUser(username: string, role: string, password: string, h: Hasher): (u: User)
    ensures u.username == username && u.role == role && u.active
    ensures Sound(h) ==> CheckPassword(u, h, password)
  {
    SetPassword(User(username, "", role, true), h, password)
  }

  /** A new `Message`, unread by default. */
  function NewMessage(content: Option<string>, filePath: Option<string>, author: UserId, room: RoomId, now: nat): (m: Message)
    ensures !m.isRead
    ensures m.author == author && m.room == room && m.timestamp == now
    ensures m.content == content && m.filePath == filePath
  {
    Message(content, filePath, author, room, false, now)
  }
}
