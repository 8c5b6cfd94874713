/**
 * The database: the user, room and message tables, the constraints the
 * schema keeps on them (unique usernames, unique room names, every message
 * authored by an existing user), the counting queries the handlers run, and
 * the `Database` object the handlers update in place.
 */
module Store {
  import opened Models
  import opened Sorting

  /** What a handler reports; only `Ok` comes with a change of the tables. */
  datatype Outcome = Ok | Forbidden | NotFound | Protected | Conflict | Empty | Rejected | TooShort

  /**
   * The contents of the three tables. Primary keys are handed out from
   * `nextUserId` and `nextRoomId`; messages are kept in insertion order.
   */
  datatype Db = Db(
    users: map<UserId, User>,
    rooms: map<RoomId, Room>,
    messages: seq<Message>,
    nextUserId: nat,
    nextRoomId: nat)
  {
    /** The schema's constraints. */
    ghost predicate Valid() {
      && (forall id :: id in users ==> id < nextUserId)
      && (forall id :: id in rooms ==> id < nextRoomId)
      && (forall a, b :: a in users && b in users && users[a].username == users[b].username ==> a == b)
      && (forall a, b :: a in rooms && b in rooms && rooms[a].name == rooms[b].name ==> a == b)
      && (forall i :: 0 <= i < |messages| ==> messages[i].author in users)
    }
  }

  /** The outcome of a handler together with the tables after it. */
  datatype Step = Step(outcome: Outcome, db: Db)

  /** Every user other than `id` is unchanged, and so are the other tables. */
  predicate OnlyUserChanged(db: Db, db': Db, id: UserId) {
    && db'.users.Keys == db.users.Keys
    && (forall other :: other in db.users && other != id ==> db'.users[other] == db.users[other])
    && db'.rooms == db.rooms && db'.messages == db.messages
    && db'.nextUserId == db.nextUserId && db'.nextRoomId == db.nextRoomId
  }

  predicate UsernameTaken(users: map<UserId, User>, name: string) {
    exists id :: id in users && users[id].username == name
  }

  predicate RoomNameTaken(rooms: map<RoomId, Room>, name: string) {
    exists id :: id in rooms && rooms[id].name == name
  }

  /** The positions of the messages that satisfy `p`. */
  ghost function Positions(ms: seq<Message>, p: Message -> bool): set<nat> {
    set i: nat | i < |ms| && p(ms[i])
  }

  /** `SELECT count(*) FROM message WHERE p`. */
  function Count(ms: seq<Message>, p: Message -> bool): (n: nat)
    ensures n == |Positions(ms, p)|
    ensures n <= |ms|
  {
    if ms == [] then
      assert Positions(ms, p) == {};
      0
    else
      var init := ms[..|ms| - 1];
      var last := |ms| - 1;
      var n := Count(init, p) + if p(ms[last]) then 1 else 0;
      assert Positions(ms, p) == Positions(init, p) + if p(ms[last]) then {last} else {};
      assert last !in Positions(init, p);
      n
  }

  lemma {:induction false} CountAppend(ms: seq<Message>, m: Message, p: Message -> bool)
    ensures Count(ms + [m], p) == Count(ms, p) + if p(m) then 1 else 0
  {
    assert (ms + [m])[..|ms|] == ms;
  }

  /** No message satisfies `p` exactly when the count is zero. */
  lemma CountZero(ms: seq<Message>, p: Message -> bool)
    ensures Count(ms, p) == 0 <==> forall i :: 0 <= i < |ms| ==> !p(ms[i])
  {
    if exists i :: 0 <= i < |ms| && p(ms[i]) {
      var i :| 0 <= i < |ms| && p(ms[i]);
      assert i in Positions(ms, p);
    } else {
      assert Positions(ms, p) == {};
    }
  }

  /** Two message lists that agree on `p` position by position have equal counts. */
  lemma CountSame(ms: seq<Message>, ns: seq<Message>, p: Message -> bool)
    requires |ms| == |ns|
    requires forall i :: 0 <= i < |ms| ==> (p(ms[i]) <==> p(ns[i]))
    ensures Count(ms, p) == Count(ns, p)
  {
    assert Positions(ms, p) == Positions(ns, p);
  }

  /** The messages that satisfy `p`, in their order. */
  function Filter(ms: seq<Message>, p: Message -> bool): (r: seq<Message>)
    ensures forall i :: 0 <= i < |r| ==> r[i] in ms && p(r[i])
    ensures forall i :: 0 <= i < |ms| && p(ms[i]) ==> ms[i] in r
    ensures |r| == Count(ms, p)
  {
    if ms == [] then []
    else
      var init := ms[..|ms| - 1];
      var last := ms[|ms| - 1];
      var rest := Filter(init, p);
      assert forall i :: 0 <= i < |ms| - 1 ==> ms[i] == init[i];
      rest + if p(last) then [last] else []
  }

  /** Keeping the messages that satisfy `p` keeps the count of any `q` that implies `p`. */
  lemma {:induction false} CountFilter(ms: seq<Message>, p: Message -> bool, q: Message -> bool)
    requires forall m :: q(m) ==> p(m)
    ensures Count(Filter(ms, p), q) == Count(ms, q)
  {
    if ms != [] {
      var init := ms[..|ms| - 1];
      var last := ms[|ms| - 1];
      CountFilter(init, p, q);
      assert Count(ms, q) == Count(init, q) + if q(last) then 1 else 0;
      if p(last) {
        assert Filter(ms, p) == Filter(init, p) + [last];
        CountAppend(Filter(init, p), last, q);
      } else {
        assert Filter(ms, p) == Filter(init, p);
      }
    }
  }

  /** A message is unread for `viewer` in `room`: unread and written by someone else. */
  predicate UnreadFor(m: Message, room: RoomId, viewer: UserId) {
    m.room == room && !m.isRead && m.author != viewer
  }

  /** The unread count `room_list` shows on a room for the viewer. */
  function UnreadCount(ms: seq<Message>, room: RoomId, viewer: UserId): nat {
    Count(ms, (m: Message) => UnreadFor(m, room, viewer))
  }

  /** The number of messages in a room, as the dashboard shows it. */
  function RoomMessageCount(ms: seq<Message>, room: RoomId): nat {
    Count(ms, (m: Message) => m.room == room)
  }

  /** The number of messages a user wrote. */
  function AuthoredCount(ms: seq<Message>, author: UserId): nat {
    Count(ms, (m: Message) => m.author == author)
  }

  /**
   * The rows of a table with a key below `bound`, in ascending key order
   * (the database's natural order for a table without `ORDER BY`).
   */
  function Entries<V>(m: map<nat, V>, bound: nat): (r: seq<(nat, V)>)
    ensures forall k :: 0 <= k < |r| ==> r[k].0 in m && r[k].0 < bound && m[r[k].0] == r[k].1
    ensures forall id :: id in m && id < bound ==> exists k :: 0 <= k < |r| && r[k].0 == id
    ensures forall i, j :: 0 <= i < j < |r| ==> r[i].0 < r[j].0
  {
    if bound == 0 then []
    else
      var prev := Entries(m, bound - 1);
      var r := prev + if bound - 1 in m then [(bound - 1, m[bound - 1])] else [];
      forall id | id in m && id < bound
        ensures exists k :: 0 <= k < |r| && r[k].0 == id
      {
        if id == bound - 1 {
          assert r[|r| - 1].0 == id;
        } else {
          var k :| 0 <= k < |prev| && prev[k].0 == id;
          assert r[k].0 == id;
        }
      }
      r
  }

  /**
   * A reordering of rows of `m` with distinct keys still lists rows of `m`,
   * lists every row it had, and lists no key twice.
   */
  lemma Reordered<V>(m: map<nat, V>, es: seq<(nat, V)>, r: seq<(nat, V)>)
    requires multiset(r) == multiset(es)
    requires forall k :: 0 <= k < |es| ==> es[k].0 in m && m[es[k].0] == es[k].1
    requires forall i, j :: 0 <= i < j < |es| ==> es[i].0 != es[j].0
    ensures forall k :: 0 <= k < |r| ==> r[k] in es
    ensures forall k :: 0 <= k < |r| ==> r[k].0 in m && m[r[k].0] == r[k].1
    ensures forall k :: 0 <= k < |es| ==> es[k] in r
    ensures forall i, j :: 0 <= i < j < |r| ==> r[i].0 != r[j].0
  {
    forall k | 0 <= k < |r| ensures r[k] in es {
      assert r[k] in multiset(r);
    }
    forall k | 0 <= k < |es| ensures es[k] in r {
      assert es[k] in multiset(es);
    }
    PermutationNoDuplicates(es, r);
  }

  /** `Reordered` for all the rows of a table with a key below `bound`. */
  lemma ReorderedEntries<V>(m: map<nat, V>, bound: nat, r: seq<(nat, V)>)
    requires multiset(r) == multiset(Entries(m, bound))
    ensures forall k :: 0 <= k < |r| ==> r[k].0 in m && m[r[k].0] == r[k].1
    ensures forall id :: id in m && id < bound ==> exists k :: 0 <= k < |r| && r[k].0 == id
    ensures forall i, j :: 0 <= i < j < |r| ==> r[i].0 != r[j].0
  {
    var es := Entries(m, bound);
    Reordered(m, es, r);
    forall id | id in m && id < bound ensures exists k :: 0 <= k < |r| && r[k].0 == id {
      var i :| 0 <= i < |es| && es[i].0 == id;
      assert es[i] in r;
      var k :| 0 <= k < |r| && r[k] == es[i];
    }
  }

  function RoomEntryName(e: (RoomId, Room)): string {
    e.1.name
  }

  /**
   * `Room.query.order_by(Room.name.asc()).all()`: every room, once, in
   * ascending order of name.
   */
  function RoomsByName(db: Db): (r: seq<(RoomId, Room)>)
    ensures Sorted(r, ByName(RoomEntryName))
    ensures forall k :: 0 <= k < |r| ==> r[k].0 in db.rooms && db.rooms[r[k].0] == r[k].1
    ensures db.Valid() ==> forall id :: id in db.rooms ==> exists k :: 0 <= k < |r| && r[k].0 == id
    ensures forall i, j :: 0 <= i < j < |r| ==> r[i].0 != r[j].0
  {
    ByNameTotalPreorder(RoomEntryName);
    var r := Sort(Entries(db.rooms, db.nextRoomId), ByName(RoomEntryName));
    ReorderedEntries(db.rooms, db.nextRoomId, r);
    r
  }

  /**
   * The database the handlers work on. Each handler is a method of its
   * route module that updates these fields in place; `State()` is the value
   * the handler's specification speaks of.
   */
  class Database {
    var users: map<UserId, User>
    var rooms: map<RoomId, Room>
    var messages: seq<Message>
    var nextUserId: nat
    var nextRoomId: nat

    function State(): Db
      reads this
    {
      Db(users, rooms, messages, nextUserId, nextRoomId)
    }

    ghost predicate Valid()
      reads this
    {
      State().Valid()
    }

    /** A database with empty tables. */
    constructor ()
      ensures Valid()
      ensures State() == Db(map[], map[], [], 0, 0)
    {
      users, rooms, messages := map[], map[], [];
      nextUserId, nextRoomId := 0, 0;
    }
  }
}
