/**
 * The chat routes: the room list (which creates the default room `Général`
 * when there is none, and counts each room's unread messages), the
 * administrators' create, rename and delete of rooms, opening a room (which
 * marks its messages read and lists them newest first), and the upload of
 * an attachment with its extension check.
 */
module Chat {
  import opened Options
  import opened Text
  import opened Sorting
  import opened Models
  import opened Store

  /** The name of the room `room_list` creates in an empty room table. */
  const GeneralRoomName: string := "G\U{E9}n\U{E9}ral"
  /** The lower-cased name `delete_room` refuses to delete. */
  const GeneralLower: string := "g\U{E9}n\U{E9}ral"
  /** The file extensions an attachment may have. */
  const AllowedExtensions: set<string> := {"png", "jpg", "jpeg", "gif", "pdf"}
  /** The directory, relative to the static files, that attachments are stored under. */
  const UploadPrefix: string := "uploads/"

  // ---------------------------------------------------------------------
  // The room list
  // ---------------------------------------------------------------------

  /**
   * The tables after `room_list`: an empty room table gets the one room
   * `Général`; a non-empty one is left as it is.
   */
  function EnsureGeneral(db: Db): (r: Db)
    ensures db.rooms != map[] ==> r == db
    ensures db.rooms == map[] ==>
      && r.rooms == map[db.nextRoomId := Room(GeneralRoomName)]
      && r.nextRoomId == db.nextRoomId + 1
      && r.users == db.users && r.messages == db.messages && r.nextUserId == db.nextUserId
    ensures r.rooms != map[]
    ensures db.Valid() ==> r.Valid()
  {
    if db.rooms == map[] then
      var rooms := map[db.nextRoomId := Room(GeneralRoomName)];
      assert db.nextRoomId in rooms;
      db.(rooms := rooms, nextRoomId := db.nextRoomId + 1)
    else
      db
  }

  /** Listing the rooms twice creates `Général` at most once. */
  lemma EnsureGeneralIdempotent(db: Db)
    ensures EnsureGeneral(EnsureGeneral(db)) == EnsureGeneral(db)
  {
  }

  /** The list is empty exactly when the room table is. */
  lemma RoomsByNameEmpty(db: Db)
    requires db.Valid()
    ensures RoomsByName(db) == [] <==> db.rooms == map[]
  {
    if db.rooms != map[] {
      var id :| id in db.rooms;
      var k :| 0 <= k < |RoomsByName(db)| && RoomsByName(db)[k].0 == id;
    }
  }

  /** `room_list`'s loop: the unread count of each listed room for the viewer. */
  method UnreadCounts(ms: seq<Message>, rooms: seq<(RoomId, Room)>, viewer: UserId) returns (counts: seq<nat>)
    ensures |counts| == |rooms|
    ensures forall k :: 0 <= k < |rooms| ==> counts[k] == UnreadCount(ms, rooms[k].0, viewer)
  {
    counts := [];
    for i := 0 to |rooms|
      invariant |counts| == i
      invariant forall k :: 0 <= k < i ==> counts[k] == UnreadCount(ms, rooms[k].0, viewer)
    {
      counts := counts + [UnreadCount(ms, rooms[i].0, viewer)];
    }
  }

  /**
   * `room_list`: creates `Général` in an empty room table, then lists every
   * room by name with its unread count for the viewer.
   */
  method RoomList(db: Database, viewer: UserId) returns (rooms: seq<(RoomId, Room)>, unread: seq<nat>)
    requires db.Valid()
    modifies db
    ensures db.State() == EnsureGeneral(old(db.State()))
    ensures db.Valid()
    ensures rooms == RoomsByName(db.State()) && rooms != []
    ensures |unread| == |rooms|
    ensures forall k :: 0 <= k < |rooms| ==> unread[k] == UnreadCount(db.messages, rooms[k].0, viewer)
  {
    rooms := RoomsByName(db.State());
    RoomsByNameEmpty(db.State());
    if rooms == [] {
      var general := Room(GeneralRoomName);
      db.rooms := map[db.nextRoomId := general];
      db.nextRoomId := db.nextRoomId + 1;
      assert db.State() == EnsureGeneral(old(db.State()));
      rooms := RoomsByName(db.State());
      RoomsByNameEmpty(db.State());
    }
    unread := UnreadCounts(db.messages, rooms, viewer);
  }

  // ---------------------------------------------------------------------
  // Creating, renaming and deleting rooms
  // ---------------------------------------------------------------------

  /**
   * `create_room`: administrators only; the stripped name must be non-empty
   * and not the name of an existing room.
   */
  function CreateRoomStep(db: Db, actor: UserId, name: string): (r: Step)
    requires db.Valid() && actor in db.users
    ensures r.outcome == Forbidden <==> !IsAdmin(db.users[actor])
    ensures r.outcome == Empty <==> IsAdmin(db.users[actor]) && Strip(name) == ""
    ensures r.outcome == Conflict <==>
      IsAdmin(db.users[actor]) && Strip(name) != "" && RoomNameTaken(db.rooms, Strip(name))
    ensures r.outcome in {Ok, Forbidden, Empty, Conflict}
    ensures r.outcome != Ok ==> r.db == db
    ensures r.outcome == Ok ==>
      && db.nextRoomId !in db.rooms
      && r.db.rooms == db.rooms[db.nextRoomId := Room(Strip(name))]
      && r.db.nextRoomId == db.nextRoomId + 1
      && r.db.users == db.users && r.db.messages == db.messages && r.db.nextUserId == db.nextUserId
    ensures r.db.Valid()
  {
    var n := Strip(name);
    if !IsAdmin(db.users[actor]) then Step(Forbidden, db)
    else if n == "" then Step(Empty, db)
    else if RoomNameTaken(db.rooms, n) then Step(Conflict, db)
    else Step(Ok, db.(rooms := db.rooms[db.nextRoomId := Room(n)], nextRoomId := db.nextRoomId + 1))
  }

  /** Another room than `id` has the name. */
  predicate OtherRoomNamed(rooms: map<RoomId, Room>, id: RoomId, name: string) {
    exists other :: other in rooms && other != id && rooms[other].name == name
  }

  /**
   * `edit_room`: administrators only; the room must exist, the stripped new
   * name be non-empty and not the name of another room. No room is
   * protected from renaming.
   */
  function EditRoomStep(db: Db, actor: UserId, room: RoomId, newName: string): (r: Step)
    requires db.Valid() && actor in db.users
    ensures r.outcome == Forbidden <==> !IsAdmin(db.users[actor])
    ensures r.outcome == NotFound <==> IsAdmin(db.users[actor]) && room !in db.rooms
    ensures r.outcome == Empty <==> IsAdmin(db.users[actor]) && room in db.rooms && Strip(newName) == ""
    ensures r.outcome == Conflict <==>
      IsAdmin(db.users[actor]) && room in db.rooms && Strip(newName) != "" && OtherRoomNamed(db.rooms, room, Strip(newName))
    ensures r.outcome in {Ok, Forbidden, NotFound, Empty, Conflict}
    ensures r.outcome != Ok ==> r.db == db
    ensures r.outcome == Ok ==>
      && room in db.rooms
      && r.db == db.(rooms := db.rooms[room := Room(Strip(newName))])
    ensures r.db.Valid()
  {
    var n := Strip(newName);
    if !IsAdmin(db.users[actor]) then Step(Forbidden, db)
    else if room !in db.rooms then Step(NotFound, db)
    else if n == "" then Step(Empty, db)
    else if OtherRoomNamed(db.rooms, room, n) then Step(Conflict, db)
    else Step(Ok, db.(rooms := db.rooms[room := Room(n)]))
  }

  /** Renaming a room to its own name succeeds and changes nothing. */
  lemma RenameToSameName(db: Db, actor: UserId, room: RoomId)
    requires db.Valid() && actor in db.users && IsAdmin(db.users[actor])
    requires room in db.rooms && Strip(db.rooms[room].name) == db.rooms[room].name != ""
    ensures EditRoomStep(db, actor, room, db.rooms[room].name) == Step(Ok, db)
  {
    var r := EditRoomStep(db, actor, room, db.rooms[room].name);
    assert !OtherRoomNamed(db.rooms, room, db.rooms[room].name);
    assert r.db.rooms == db.rooms;
  }

  /** The messages of a room, in insertion order. */
  function RoomMessages(ms: seq<Message>, room: RoomId): (r: seq<Message>)
    ensures forall m :: m in r <==> m in ms && m.room == room
    ensures |r| == RoomMessageCount(ms, room)
  {
    Filter(ms, (m: Message) => m.room == room)
  }

  /** The messages outside a room, in insertion order. */
  function WithoutRoom(ms: seq<Message>, room: RoomId): (r: seq<Message>)
    ensures forall m :: m in r <==> m in ms && m.room != room
    ensures forall i :: 0 <= i < |r| ==> r[i] in ms
    ensures |r| == Count(ms, (m: Message) => m.room != room)
  {
    Filter(ms, (m: Message) => m.room != room)
  }

  /** Removing a room's messages leaves the message counts of every other room as they were. */
  lemma WithoutRoomCounts(ms: seq<Message>, room: RoomId, other: RoomId)
    ensures RoomMessageCount(WithoutRoom(ms, room), room) == 0
    ensures other != room ==> RoomMessageCount(WithoutRoom(ms, room), other) == RoomMessageCount(ms, other)
  {
    var r := WithoutRoom(ms, room);
    CountZero(r, (m: Message) => m.room == room);
    if other != room {
      CountFilter(ms, (m: Message) => m.room != room, (m: Message) => m.room == other);
    }
  }

  /**
   * `delete_room`: administrators only; the room must exist and its name,
   * lower-cased, must not be `général`. The room goes, and with it every
   * message posted in it (the relationship cascades deletes).
   */
  function DeleteRoomStep(db: Db, actor: UserId, room: RoomId): (r: Step)
    requires db.Valid() && actor in db.users
    ensures r.outcome == Forbidden <==> !IsAdmin(db.users[actor])
    ensures r.outcome == NotFound <==> IsAdmin(db.users[actor]) && room !in db.rooms
    ensures r.outcome == Protected <==>
      IsAdmin(db.users[actor]) && room in db.rooms && Lower(db.rooms[room].name) == GeneralLower
    ensures r.outcome in {Ok, Forbidden, NotFound, Protected}
    ensures r.outcome != Ok ==> r.db == db
    ensures r.outcome == Ok ==>
      && room in db.rooms
      && r.db.rooms.Keys == db.rooms.Keys - {room}
      && (forall id :: id in r.db.rooms ==> r.db.rooms[id] == db.rooms[id])
      && (forall m :: m in r.db.messages <==> m in db.messages && m.room != room)
      && r.db.messages == WithoutRoom(db.messages, room)
      && r.db.users == db.users && r.db.nextUserId == db.nextUserId && r.db.nextRoomId == db.nextRoomId
    ensures r.db.Valid()
  {
    if !IsAdmin(db.users[actor]) then Step(Forbidden, db)
    else if room !in db.rooms then Step(NotFound, db)
    else if Lower(db.rooms[room].name) == GeneralLower then Step(Protected, db)
    else Step(Ok, db.(rooms := db.rooms - {room}, messages := WithoutRoom(db.messages, room)))
  }

  /** The room `room_list` creates cannot be deleted while it keeps its name. */
  lemma GeneralProtected(db: Db, actor: UserId, room: RoomId)
    requires db.Valid() && actor in db.users && IsAdmin(db.users[actor])
    requires room in db.rooms && db.rooms[room].name == GeneralRoomName
    ensures DeleteRoomStep(db, actor, room) == Step(Protected, db)
  {
    assert Lower(GeneralRoomName) == GeneralLower;
  }

  /**
   * Renaming is not protected, so `Général` can be renamed and then
   * deleted together with its messages.
   */
  lemma GeneralRenameThenDelete(db: Db, actor: UserId, room: RoomId, newName: string)
    requires db.Valid() && actor in db.users && IsAdmin(db.users[actor])
    requires room in db.rooms && db.rooms[room].name == GeneralRoomName
    requires Strip(newName) != "" && !OtherRoomNamed(db.rooms, room, Strip(newName))
    requires Lower(Strip(newName)) != GeneralLower
    ensures var renamed := EditRoomStep(db, actor, room, newName);
      && renamed.outcome == Ok
      && DeleteRoomStep(renamed.db, actor, room).outcome == Ok
      && room !in DeleteRoomStep(renamed.db, actor, room).db.rooms
  {
  }

  // ---------------------------------------------------------------------
  // Opening a room
  // ---------------------------------------------------------------------

  /**
   * The bulk update of `chat`: every message of the room written by someone
   * other than the viewer is marked read; nothing else changes.
   */
  function MarkRead(ms: seq<Message>, room: RoomId, viewer: UserId): (r: seq<Message>)
    ensures |r| == |ms|
    ensures forall i :: 0 <= i < |ms| ==> r[i] == ms[i].(isRead := r[i].isRead)
    ensures forall i :: 0 <= i < |ms| ==>
      (r[i].isRead <==> ms[i].isRead || (ms[i].room == room && ms[i].author != viewer))
  {
    seq(|ms|, i requires 0 <= i < |ms| => if UnreadFor(ms[i], room, viewer) then ms[i].(isRead := true) else ms[i])
  }

  /** After opening a room, the viewer has no unread message in it. */
  lemma MarkReadClearsUnread(ms: seq<Message>, room: RoomId, viewer: UserId)
    ensures UnreadCount(MarkRead(ms, room, viewer), room, viewer) == 0
  {
    CountZero(MarkRead(ms, room, viewer), (m: Message) => UnreadFor(m, room, viewer));
  }

  /**
   * Opening a room changes no other room's unread count, for any viewer,
   * and no room's message count.
   */
  lemma MarkReadKeepsOtherCounts(ms: seq<Message>, room: RoomId, viewer: UserId, other: RoomId, someone: UserId)
    requires other != room
    ensures UnreadCount(MarkRead(ms, room, viewer), other, someone) == UnreadCount(ms, other, someone)
    ensures RoomMessageCount(MarkRead(ms, room, viewer), other) == RoomMessageCount(ms, other)
  {
    var r := MarkRead(ms, room, viewer);
    CountSame(r, ms, (m: Message) => UnreadFor(m, other, someone));
    CountSame(r, ms, (m: Message) => m.room == other);
  }

  function MessageTime(m: Message): int {
    m.timestamp
  }

  /** `chat`'s listing: the room's messages, newest first. */
  function History(ms: seq<Message>, room: RoomId): (r: seq<Message>)
    ensures Sorted(r, ByRankDescending(MessageTime))
    ensures multiset(r) == multiset(RoomMessages(ms, room))
  {
    ByRankDescendingTotalPreorder(MessageTime);
    Sort(RoomMessages(ms, room), ByRankDescending(MessageTime))
  }

  /** The history holds exactly the room's messages, as many as the room counts, newest first. */
  lemma HistoryContents(ms: seq<Message>, room: RoomId)
    ensures forall m :: m in History(ms, room) <==> m in ms && m.room == room
    ensures |History(ms, room)| == RoomMessageCount(ms, room)
    ensures forall i, j :: 0 <= i < j < |History(ms, room)| ==>
      History(ms, room)[i].timestamp >= History(ms, room)[j].timestamp
  {
    var r := History(ms, room);
    var rm := RoomMessages(ms, room);
    forall m ensures m in r <==> m in rm {
      assert m in r <==> m in multiset(r);
      assert m in rm <==> m in multiset(rm);
    }
    assert |r| == |multiset(r)| == |multiset(rm)| == |rm|;
    forall i, j | 0 <= i < j < |r| ensures r[i].timestamp >= r[j].timestamp {
      ByRankDescendingOrdered(MessageTime, r, i, j);
    }
  }

  /**
   * `chat`: the room must exist; its messages from others are marked read
   * for the viewer, and its history is returned newest first.
   */
  method OpenRoom(db: Database, viewer: UserId, room: RoomId) returns (o: Outcome, history: seq<Message>)
    requires db.Valid()
    modifies db
    ensures o in {Ok, NotFound}
    ensures o == NotFound <==> room !in old(db.rooms)
    ensures o == NotFound ==> db.State() == old(db.State())
    ensures o == Ok ==> db.State() == old(db.State()).(messages := MarkRead(old(db.messages), room, viewer))
    ensures o == Ok ==> history == History(db.messages, room)
    ensures db.Valid()
  {
    if room !in db.rooms {
      return NotFound, [];
    }
    db.messages := MarkRead(db.messages, room, viewer);
    o := Ok;
    history := History(db.messages, room);
  }

  // ---------------------------------------------------------------------
  // Attachments
  // ---------------------------------------------------------------------

  /**
   * The lower-cased text after the last `.` of a file name, or the whole
   * name lower-cased when it has no `.`.
   */
  function Extension(f: string): (r: string)
    ensures '.' !in f ==> r == Lower(f)
    ensures '.' !in r
  {
    Lower(AfterLast(f, '.'))
  }

  /**
   * With a `.` in the name, the extension is the lower-cased text after the
   * last one: that `.` sits just before it and the text holds no other.
   */
  lemma ExtensionAfterLastDot(f: string)
    requires '.' in f
    ensures var r := Extension(f);
      && |r| < |f| && f[|f| - |r| - 1] == '.' && '.' !in f[|f| - |r|..]
      && r == Lower(f[|f| - |r|..])
  {
    var tail := AfterLast(f, '.');
    assert |tail| < |f|;
    assert f[|f| - |tail|..] == tail;
  }

  /** `allowed_file`: the name has a `.` and the extension after the last one is allowed. */
  predicate AllowedFile(f: string) {
    '.' in f && Extension(f) in AllowedExtensions
  }

  /** The `.` that `AfterLast` splits at is the last one of the name. */
  lemma LastDot(f: string, j: nat)
    requires '.' in f && j < |f| && f[j] == '.' && '.' !in f[j + 1..]
    ensures AfterLast(f, '.') == f[j + 1..]
  {
  }

  /**
   * `allowed_file` in terms of positions: some `.` of the name is followed
   * by a text without `.` whose lower-case form is an allowed extension.
   */
  lemma AllowedFileIff(f: string)
    ensures AllowedFile(f) <==>
      exists j :: 0 <= j < |f| && f[j] == '.' && '.' !in f[j + 1..] && Lower(f[j + 1..]) in AllowedExtensions
  {
    if AllowedFile(f) {
      var a := AfterLast(f, '.');
      var i := |f| - |a| - 1;
      if |a| == |f| {
        assert false;
      }
      assert f[i + 1..] == a;
    }
    if exists j :: 0 <= j < |f| && f[j] == '.' && '.' !in f[j + 1..] && Lower(f[j + 1..]) in AllowedExtensions {
      var j :| 0 <= j < |f| && f[j] == '.' && '.' !in f[j + 1..] && Lower(f[j + 1..]) in AllowedExtensions;
      LastDot(f, j);
    }
  }

  /** A name ending in `.` and an allowed extension, in any case, is accepted. */
  lemma AllowedFileWithExtension(base: string, ext: string)
    requires '.' !in ext && Lower(ext) in AllowedExtensions
    ensures AllowedFile(base + "." + ext)
  {
    var f := base + "." + ext;
    assert f[|base|] == '.' && f[|base| + 1..] == ext;
    LastDot(f, |base|);
  }

  /** A name without a `.` is refused, even one that is an extension itself. */
  lemma NoDotRefused(f: string)
    requires '.' !in f
    ensures !AllowedFile(f)
  {
  }

  /**
   * `upload_file`: a missing or unnamed file is refused, then a name the
   * extension rule refuses; otherwise an attachment message is appended
   * with the sanitised name under the upload directory. The room is not
   * looked up.
   */
  function UploadStep(db: Db, actor: UserId, room: RoomId, filename: Option<string>, sanitise: string -> string, now: nat): (r: Step)
    requires db.Valid() && actor in db.users
    ensures r.outcome == Empty <==> filename.None? || filename.value == ""
    ensures r.outcome == Rejected <==> filename.Some? && filename.value != "" && !AllowedFile(filename.value)
    ensures r.outcome in {Ok, Empty, Rejected}
    ensures r.outcome != Ok ==> r.db == db
    ensures r.outcome == Ok ==>
      && r.db == db.(messages := r.db.messages)
      && |r.db.messages| == |db.messages| + 1
      && r.db.messages[..|db.messages|] == db.messages
      && r.db.messages[|db.messages|] == NewMessage(None, Some(UploadPrefix + sanitise(filename.value)), actor, room, now)
    ensures r.db.Valid()
  {
    if filename.None? || filename.value == "" then Step(Empty, db)
    else if !AllowedFile(filename.value) then Step(Rejected, db)
    else
      var m := NewMessage(None, Some(UploadPrefix + sanitise(filename.value)), actor, room, now);
      Step(Ok, db.(messages := db.messages + [m]))
  }

  /** An upload adds an unread message for every other viewer of the room. */
  lemma UploadIncrementsUnread(db: Db, actor: UserId, room: RoomId, f: string, sanitise: string -> string, now: nat, viewer: UserId)
    requires db.Valid() && actor in db.users && viewer != actor
    requires UploadStep(db, actor, room, Some(f), sanitise, now).outcome == Ok
    ensures UnreadCount(UploadStep(db, actor, room, Some(f), sanitise, now).db.messages, room, viewer)
      == UnreadCount(db.messages, room, viewer) + 1
  {
    var m := NewMessage(None, Some(UploadPrefix + sanitise(f)), actor, room, now);
    CountAppend(db.messages, m, (m': Message) => UnreadFor(m', room, viewer));
  }

  /** `create_room` on the database. */
  method CreateRoom(db: Database, actor: UserId, name: string) returns (o: Outcome)
    requires db.Valid() && actor in db.users
    modifies db
    ensures Step(o, db.State()) == CreateRoomStep(old(db.State()), actor, name)
  {
    if db.users[actor].role != AdminRole {
      return Forbidden;
    }
    var n := Strip(name);
    if n == "" {
      return Empty;
    }
    if RoomNameTaken(db.rooms, n) {
      return Conflict;
    }
    db.rooms := db.rooms[db.nextRoomId := Room(n)];
    db.nextRoomId := db.nextRoomId + 1;
    o := Ok;
  }

  /** `edit_room` on the database. */
  method EditRoom(db: Database, actor: UserId, room: RoomId, newName: string) returns (o: Outcome)
    requires db.Valid() && actor in db.users
    modifies db
    ensures Step(o, db.State()) == EditRoomStep(old(db.State()), actor, room, newName)
  {
    if db.users[actor].role != AdminRole {
      return Forbidden;
    }
    if room !in db.rooms {
      return NotFound;
    }
    var n := Strip(newName);
    if n == "" {
      return Empty;
    }
    if OtherRoomNamed(db.rooms, room, n) {
      return Conflict;
    }
    db.rooms := db.rooms[room := Room(n)];
    o := Ok;
  }

  /** `delete_room` on the database. */
  method DeleteRoom(db: Database, actor: UserId, room: RoomId) returns (o: Outcome)
    requires db.Valid() && actor in db.users
    modifies db
    ensures Step(o, db.State()) == DeleteRoomStep(old(db.State()), actor, room)
  {
    if db.users[actor].role != AdminRole {
      return Forbidden;
    }
    if room !in db.rooms {
      return NotFound;
    }
    if Lower(db.rooms[room].name) == GeneralLower {
      return Protected;
    }
    db.rooms := db.rooms - {room};
    db.messages := WithoutRoom(db.messages, room);
    o := Ok;
  }

  /** `upload_file` on the database; the file itself is written elsewhere. */
  method Upload(db: Database, actor: UserId, room: RoomId, filename: Option<string>, sanitise: string -> string, now: nat)
    returns (o: Outcome)
    requires db.Valid() && actor in db.users
    modifies db
    ensures Step(o, db.State()) == UploadStep(old(db.State()), actor, room, filename, sanitise, now)
  {
    if filename.None? || filename.value == "" {
      return Empty;
    }
    if !AllowedFile(filename.value) {
      return Rejected;
    }
    var path := UploadPrefix + sanitise(filename.value);
    db.messages := db.messages + [NewMessage(None, Some(path), actor, room, now)];
    o := Ok;
  }
}
