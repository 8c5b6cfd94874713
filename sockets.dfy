/**
 * The Socket.IO handlers: the set of online usernames kept across
 * connections, the room subscriptions of a connection, and the two handlers
 * that post a text message or an attachment and broadcast it. Each handler
 * reports the events it broadcasts, in order.
 */
module Sockets {
  import opened Options
  import opened Text
  import opened Sorting
  import opened Models
  import opened Store
  import opened Chat
  import opened Auth

  /** A broadcast event; display timestamps are not modelled. */
  datatype Event =
    | UserList(names: seq<string>)
    | SystemMessage(username: string, connected: bool)
    | ReceiveMessage(user: string, content: string, room: RoomId, userId: UserId)
    | ReceiveFile(user: string, room: RoomId, filePath: string, ext: string)

  /** The event that broadcasts the online set: every name once, in ascending order. */
  ghost predicate ListsOnline(e: Event, online: set<string>) {
    && e.UserList?
    && (forall x :: x in e.names <==> x in online)
    && |e.names| == |online|
    && StrictlyAscending(e.names)
  }

  // ---------------------------------------------------------------------
  // Presence
  // ---------------------------------------------------------------------

  /**
   * `handle_connect`: an anonymous connection changes nothing; otherwise
   * the username joins the online set, the new set is broadcast sorted, and
   * a connection notice follows.
   */
  function ConnectStep(online: set<string>, who: Option<string>): (r: (set<string>, seq<Event>))
    ensures who.None? ==> r == (online, [])
    ensures who.Some? ==>
      && r.0 == online + {who.value}
      && |r.1| == 2 && ListsOnline(r.1[0], r.0) && r.1[1] == SystemMessage(who.value, true)
  {
    match who
    case None => (online, [])
    case Some(name) =>
      var now := online + {name};
      (now, [UserList(SortedSet(now)), SystemMessage(name, true)])
  }

  /**
   * `handle_disconnect`: an anonymous connection, or a username not online,
   * changes nothing and broadcasts nothing; otherwise the username leaves
   * the set, the new set is broadcast sorted, and a disconnection notice
   * follows.
   */
  function DisconnectStep(online: set<string>, who: Option<string>): (r: (set<string>, seq<Event>))
    ensures who.None? || who.value !in online ==> r == (online, [])
    ensures who.Some? && who.value in online ==>
      && r.0 == online - {who.value}
      && |r.1| == 2 && ListsOnline(r.1[0], r.0) && r.1[1] == SystemMessage(who.value, false)
  {
    match who
    case None => (online, [])
    case Some(name) =>
      if name in online then
        var now := online - {name};
        (now, [UserList(SortedSet(now)), SystemMessage(name, false)])
      else
        (online, [])
  }

  /** Connecting twice leaves the same online set as connecting once. */
  lemma ConnectIdempotent(online: set<string>, who: Option<string>)
    ensures ConnectStep(ConnectStep(online, who).0, who).0 == ConnectStep(online, who).0
  {
  }

  /** A user who was not online and connects, then disconnects, leaves the set as it was. */
  lemma ConnectThenDisconnect(online: set<string>, name: string)
    requires name !in online
    ensures DisconnectStep(ConnectStep(online, Some(name)).0, Some(name)).0 == online
  {
  }

  /**
   * A user connected from two tabs goes offline when the first one
   * disconnects, and the second disconnection broadcasts nothing: the set
   * does not count connections.
   */
  lemma TwoConnectionsOneDisconnect(online: set<string>, name: string)
    ensures var once := ConnectStep(ConnectStep(online, Some(name)).0, Some(name)).0;
      && name !in DisconnectStep(once, Some(name)).0
      && DisconnectStep(DisconnectStep(once, Some(name)).0, Some(name)).1 == []
  {
  }

  /** The module-level set of online usernames. */
  class Presence {
    var online: set<string>

    constructor ()
      ensures online == {}
    {
      online := {};
    }

    method Connect(who: Option<string>) returns (events: seq<Event>)
      modifies this
      ensures (online, events) == ConnectStep(old(online), who)
    {
      if who.None? {
        return [];
      }
      online := online + {who.value};
      events := [UserList(SortedSet(online)), SystemMessage(who.value, true)];
    }

    method Disconnect(who: Option<string>) returns (events: seq<Event>)
      modifies this
      ensures (online, events) == DisconnectStep(old(online), who)
    {
      if who.None? {
        return [];
      }
      if who.value in online {
        online := online - {who.value};
        events := [UserList(SortedSet(online)), SystemMessage(who.value, false)];
      } else {
        events := [];
      }
    }
  }

  // ---------------------------------------------------------------------
  // Room subscriptions
  // ---------------------------------------------------------------------

  /** `handle_join`: the connection subscribes to the room; the room is not looked up. */
  function Join(subscribed: set<RoomId>, room: RoomId): (r: set<RoomId>)
    ensures room in r && subscribed <= r && r - {room} == subscribed - {room}
  {
    subscribed + {room}
  }

  /** `handle_leave`: the connection stops listening to the room. */
  function Leave(subscribed: set<RoomId>, room: RoomId): (r: set<RoomId>)
    ensures room !in r && r <= subscribed && subscribed - {room} == r
  {
    subscribed - {room}
  }

  /** Leaving a room one had just joined restores the subscriptions. */
  lemma LeaveUndoesJoin(subscribed: set<RoomId>, room: RoomId)
    requires room !in subscribed
    ensures Leave(Join(subscribed, room), room) == subscribed
  {
  }

  /** The rooms one connection listens to. */
  class Connection {
    var subscribed: set<RoomId>

    constructor ()
      ensures subscribed == {}
    {
      subscribed := {};
    }

    method JoinRoom(room: RoomId)
      modifies this
      ensures subscribed == Join(old(subscribed), room)
    {
      subscribed := subscribed + {room};
    }

    method LeaveRoom(room: RoomId)
      modifies this
      ensures subscribed == Leave(old(subscribed), room)
    {
      subscribed := subscribed - {room};
    }
  }

  // ---------------------------------------------------------------------
  // Posting
  // ---------------------------------------------------------------------

  /** The sender is anonymous or an existing user. */
  predicate Known(db: Db, who: Identity) {
    who.Authenticated? ==> who.id in db.users
  }

  /**
   * `handle_send_message`: a room that does not exist ends the handler;
   * an anonymous sender has no identifier, so nothing is stored either.
   * Otherwise one unread text message is appended and broadcast with the
   * sender's name, the same content and the room.
   */
  function SendMessageStep(db: Db, who: Identity, room: RoomId, content: string, now: nat): (r: (Step, seq<Event>))
    requires db.Valid() && Known(db, who)
    ensures r.0.outcome == NotFound <==> room !in db.rooms
    ensures r.0.outcome == Rejected <==> room in db.rooms && who.Anonymous?
    ensures r.0.outcome in {Ok, NotFound, Rejected}
    ensures r.0.outcome != Ok ==> r.0.db == db && r.1 == []
    ensures r.0.outcome == Ok ==>
      && who.Authenticated?
      && r.0.db == db.(messages := db.messages + [NewMessage(Some(content), None, who.id, room, now)])
      && r.1 == [ReceiveMessage(db.users[who.id].username, content, room, who.id)]
    ensures r.0.db.Valid()
  {
    if room !in db.rooms then (Step(NotFound, db), [])
    else if who.Anonymous? then (Step(Rejected, db), [])
    else
      var m := NewMessage(Some(content), None, who.id, room, now);
      (Step(Ok, db.(messages := db.messages + [m])), [ReceiveMessage(db.users[who.id].username, content, room, who.id)])
  }

  /**
   * A message sent to a room is unread for every other user until that user
   * opens the room, and then the count is zero again.
   */
  lemma SendThenOpen(db: Db, sender: UserId, viewer: UserId, room: RoomId, content: string, now: nat)
    requires db.Valid() && sender in db.users && room in db.rooms && viewer != sender
    ensures var ms := SendMessageStep(db, Authenticated(sender), room, content, now).0.db.messages;
      && UnreadCount(ms, room, viewer) == UnreadCount(db.messages, room, viewer) + 1
      && UnreadCount(ms, room, sender) == UnreadCount(db.messages, room, sender)
      && UnreadCount(MarkRead(ms, room, viewer), room, viewer) == 0
  {
    var m := NewMessage(Some(content), None, sender, room, now);
    CountAppend(db.messages, m, (m': Message) => UnreadFor(m', room, viewer));
    CountAppend(db.messages, m, (m': Message) => UnreadFor(m', room, sender));
    MarkReadClearsUnread(db.messages + [m], room, viewer);
  }

  /**
   * The two extension rules differ only on names without a `.`: `send_file`
   * accepts such a name when the whole name is an allowed extension, while
   * `allowed_file` refuses every one of them.
   */
  lemma SendExtensionIff(name: string)
    ensures Extension(name) in AllowedExtensions <==>
      AllowedFile(name) || ('.' !in name && Lower(name) in AllowedExtensions)
  {
  }

  /** The name `png` shows the difference. */
  lemma SendFileAcceptsBareExtension()
    ensures Extension("png") in AllowedExtensions
    ensures !AllowedFile("png")
  {
    assert '.' !in "png";
    assert Lower("png") == "png";
    NoDotRefused("png");
  }

  /**
   * `handle_send_file`: the name is sanitised first and its extension
   * checked; a refused extension ends the handler. The message needs the
   * sender's identifier and a room identifier, so an anonymous sender or a
   * missing room field stores nothing. The room is not looked up. Otherwise
   * one attachment message is appended and broadcast with its path and
   * extension.
   */
  function SendFileStep(db: Db, who: Identity, room: Option<RoomId>, filename: string, sanitise: string -> string, now: nat): (r: (Step, seq<Event>))
    requires db.Valid() && Known(db, who)
    ensures r.0.outcome == Rejected <==>
      Extension(sanitise(filename)) !in AllowedExtensions || who.Anonymous? || room.None?
    ensures r.0.outcome in {Ok, Rejected}
    ensures r.0.outcome != Ok ==> r.0.db == db && r.1 == []
    ensures r.0.outcome == Ok ==>
      var path := UploadPrefix + sanitise(filename);
      && who.Authenticated? && room.Some?
      && r.0.db == db.(messages := db.messages + [NewMessage(None, Some(path), who.id, room.value, now)])
      && r.1 == [ReceiveFile(db.users[who.id].username, room.value, path, Extension(sanitise(filename)))]
    ensures r.0.db.Valid()
  {
    var name := sanitise(filename);
    var ext := Extension(name);
    if ext !in AllowedExtensions then (Step(Rejected, db), [])
    else if who.Anonymous? || room.None? then (Step(Rejected, db), [])
    else
      var path := UploadPrefix + name;
      var m := NewMessage(None, Some(path), who.id, room.value, now);
      (Step(Ok, db.(messages := db.messages + [m])), [ReceiveFile(db.users[who.id].username, room.value, path, ext)])
  }

  /** `send_file` stores an attachment in a room that does not exist. */
  lemma SendFileToMissingRoom(db: Db, sender: UserId, room: RoomId, filename: string, sanitise: string -> string, now: nat)
    requires db.Valid() && sender in db.users && room !in db.rooms
    requires Extension(sanitise(filename)) in AllowedExtensions
    ensures var r := SendFileStep(db, Authenticated(sender), Some(room), filename, sanitise, now);
      r.0.outcome == Ok && RoomMessageCount(r.0.db.messages, room) == RoomMessageCount(db.messages, room) + 1
  {
    var m := NewMessage(None, Some(UploadPrefix + sanitise(filename)), sender, room, now);
    CountAppend(db.messages, m, (m': Message) => m'.room == room);
  }

  /** `handle_send_message` on the database. */
  method SendMessage(db: Database, who: Identity, room: RoomId, content: string, now: nat) returns (o: Outcome, events: seq<Event>)
    requires db.Valid() && Known(db.State(), who)
    modifies db
    ensures (Step(o, db.State()), events) == SendMessageStep(old(db.State()), who, room, content, now)
  {
    if room !in db.rooms {
      return NotFound, [];
    }
    if who.Anonymous? {
      return Rejected, [];
    }
    db.messages := db.messages + [NewMessage(Some(content), None, who.id, room, now)];
    o := Ok;
    events := [ReceiveMessage(db.users[who.id].username, content, room, who.id)];
  }

  /** `handle_send_file` on the database; the file itself is written elsewhere. */
  method SendFile(db: Database, who: Identity, room: Option<RoomId>, filename: string, sanitise: string -> string, now: nat)
    returns (o: Outcome, events: seq<Event>)
    requires db.Valid() && Known(db.State(), who)
    modifies db
    ensures (Step(o, db.State()), events) == SendFileStep(old(db.State()), who, room, filename, sanitise, now)
  {
    var name := sanitise(filename);
    var ext := Extension(name);
    if ext !in AllowedExtensions {
      return Rejected, [];
    }
    if who.Anonymous? || room.None? {
      return Rejected, [];
    }
    var path := UploadPrefix + name;
    db.messages := db.messages + [NewMessage(None, Some(path), who.id, room.value, now)];
    o := Ok;
    events := [ReceiveFile(db.users[who.id].username, room.value, path, ext)];
  }
}
