/** The signalling server's rooms as a state machine (signaling-server/src/ws_controller.cpp
    and http_controller.cpp). All handlers run on one io_context, so each is one step. The
    order in which a handler walks a map is left open. */
module Rooms {

  type RoomId = string
  type SessionId = nat
  type Connection = nat

  const VIDEO_BROADCASTING := 0
  const NO_BROADCASTER: SessionId := 0xffff_ffff

  datatype Room = Room(roomid: RoomId, roomType: int, sessionids: seq<SessionId>, broadcaster: SessionId)

  type RoomMap = map<RoomId, Room>

  /** The "new" and "delete" messages pushed to clients. */
  datatype Notice = New(roomid: RoomId) | Delete(roomid: RoomId)

  /** `inbox` is what each session was ever sent; session ids are never reused. */
  datatype Server = Server(rooms: RoomMap, conns: map<SessionId, Connection>,
                           inbox: map<SessionId, seq<Notice>>, nextSession: SessionId)

  const INITIAL := Server(map[], map[], map[], 0)

  // ----- Rooms and members -----

  function Without(s: seq<SessionId>, x: SessionId): seq<SessionId> {
    if |s| == 0 then []
    else Without(s[..|s| - 1], x) + if s[|s| - 1] == x then [] else [s[|s| - 1]]
  }

  predicate Contains(rooms: RoomMap, id: RoomId, x: SessionId) {
    id in rooms && x in rooms[id].sessionids
  }

  ghost predicate InSomeRoom(rooms: RoomMap, x: SessionId) {
    exists id :: Contains(rooms, id, x)
  }

  /** The rooms x's leaving closes: those it broadcasts in, and those without another member. */
  predicate Closes(room: Room, x: SessionId) {
    && x in room.sessionids
    && ((room.roomType == VIDEO_BROADCASTING && room.broadcaster == x) || Without(room.sessionids, x) == [])
  }

  /** The rooms once x has left those in `done`. */
  function LeftIn(rooms: RoomMap, x: SessionId, done: set<RoomId>): RoomMap {
    map id | id in rooms && !(id in done && Closes(rooms[id], x)) ::
      if id in done then rooms[id].(sessionids := Without(rooms[id].sessionids, x)) else rooms[id]
  }

  function Left(rooms: RoomMap, x: SessionId): RoomMap { LeftIn(rooms, x, rooms.Keys) }

  /** `order` lists the rooms x's leaving closes, each once. */
  ghost predicate ListsClosed(rooms: RoomMap, x: SessionId, order: seq<RoomId>) {
    && (forall i, j :: 0 <= i < j < |order| ==> order[i] != order[j])
    && (forall id :: id in order <==> id in rooms && Closes(rooms[id], x))
  }

  // ----- Notices -----

  function Deliver(inbox: map<SessionId, seq<Notice>>, to: set<SessionId>, note: Notice): map<SessionId, seq<Notice>> {
    map x | x in inbox :: if x in to then inbox[x] + [note] else inbox[x]
  }

  function Notify(s: Server, note: Notice): Server {
    s.(inbox := Deliver(s.inbox, s.conns.Keys, note))
  }

  function NotifyDeleted(s: Server, order: seq<RoomId>): Server {
    if |order| == 0 then s else Notify(NotifyDeleted(s, order[..|order| - 1]), Delete(order[|order| - 1]))
  }

  // ----- Handlers -----

  datatype Status = Ok | SessionidAlreadyInRoom | RoomAlreadyExisted | RoomNotExisted

  datatype Event =
    | Connect(conn: Connection)
    | Open(x: SessionId, id: RoomId, roomType: int, force: bool)
    | Close(id: RoomId)
    | Join(x: SessionId, id: RoomId)
    | Leave(x: SessionId, order: seq<RoomId>)
    | Drop(x: SessionId, order: seq<RoomId>)  // the connection of x is lost

  ghost predicate Allowed(s: Server, e: Event) {
    match e
    case Leave(x, order) => ListsClosed(s.rooms, x, order)
    case Drop(x, order) => x in s.conns && ListsClosed(s.rooms, x, order)
    case _ => true
  }

  ghost function OpenStatus(s: Server, x: SessionId, id: RoomId, force: bool): Status {
    if InSomeRoom(s.rooms, x) then SessionidAlreadyInRoom
    else if id in s.rooms && !force then RoomAlreadyExisted
    else Ok
  }

  ghost function JoinStatus(s: Server, x: SessionId, id: RoomId): Status {
    if id !in s.rooms then RoomNotExisted
    else if InSomeRoom(s.rooms, x) then SessionidAlreadyInRoom
    else Ok
  }

  function NewRoom(x: SessionId, id: RoomId, roomType: int): Room {
    Room(id, roomType, [x], if roomType == VIDEO_BROADCASTING then x else NO_BROADCASTER)
  }

  function Joined(room: Room, x: SessionId): Room { room.(sessionids := room.sessionids + [x]) }

  ghost function Step(s: Server, e: Event): Server {
    match e
    case Connect(conn) =>
      Server(s.rooms, s.conns[s.nextSession := conn], s.inbox[s.nextSession := []], s.nextSession + 1)
    case Open(x, id, roomType, force) =>
      if OpenStatus(s, x, id, force) == Ok
      then Notify(s.(rooms := s.rooms[id := NewRoom(x, id, roomType)]), New(id)) else s
    case Close(id) =>
      if id in s.rooms then Notify(s.(rooms := s.rooms - {id}), Delete(id)) else s
    case Join(x, id) =>
      if JoinStatus(s, x, id) == Ok then s.(rooms := s.rooms[id := Joined(s.rooms[id], x)]) else s
    case Leave(x, order) => NotifyDeleted(s.(rooms := Left(s.rooms, x)), order)
    case Drop(x, order) =>
      var t := NotifyDeleted(s.(rooms := Left(s.rooms, x)), order);
      t.(conns := t.conns - {x})
  }

  /** A step that is not allowed does not happen. */
  ghost function Run(s: Server, events: seq<Event>): Server {
    if |events| == 0 then s
    else
      var t, e := Run(s, events[..|events| - 1]), events[|events| - 1];
      if Allowed(t, e) then Step(t, e) else t
  }

  // ----- The room invariant -----

  ghost predicate Distinct(s: seq<SessionId>) {
    forall i, j :: 0 <= i < j < |s| ==> s[i] != s[j]
  }

  ghost predicate RoomOk(id: RoomId, room: Room) {
    && room.roomid == id && room.sessionids != [] && Distinct(room.sessionids)
    && (room.roomType == VIDEO_BROADCASTING ==> room.broadcaster in room.sessionids)
  }

  ghost predicate RoomInv(rooms: RoomMap) {
    && (forall id :: id in rooms ==> RoomOk(id, rooms[id]))
    && (forall id, id', x :: Contains(rooms, id, x) && Contains(rooms, id', x) ==> id == id')
  }

  ghost predicate SessionInv(s: Server) {
    && (forall x :: x in s.conns ==> x in s.inbox)
    && (forall x :: x in s.inbox ==> x < s.nextSession)
  }

  ghost predicate MembersConnected(s: Server) {
    forall id, x :: Contains(s.rooms, id, x) ==> x in s.conns
  }

  ghost predicate BroadcastersConnected(s: Server) {
    forall id :: id in s.rooms && s.rooms[id].roomType == VIDEO_BROADCASTING ==> s.rooms[id].broadcaster in s.conns
  }

  // ----- Leaving -----

  lemma {:induction false} WithoutMembers(s: seq<SessionId>, x: SessionId)
    ensures forall y :: y in Without(s, x) <==> y in s && y != x
  {
    if s == [] {
    } else {
      WithoutMembers(s[..|s| - 1], x);
      assert s == s[..|s| - 1] + [s[|s| - 1]];
    }
  }

  lemma {:induction false} WithoutDistinct(s: seq<SessionId>, x: SessionId)
    requires Distinct(s)
    ensures Distinct(Without(s, x))
  {
    if s == [] {
    } else {
      WithoutDistinct(s[..|s| - 1], x);
      WithoutMembers(s[..|s| - 1], x);
      assert s[|s| - 1] !in s[..|s| - 1];
    }
  }

  lemma {:induction false} WithoutAbsent(s: seq<SessionId>, x: SessionId)
    requires x !in s
    ensures Without(s, x) == s
  {
    if s == [] {
    } else {
      WithoutAbsent(s[..|s| - 1], x);
    }
  }

  /** The others keep their order and their multiplicity. */
  lemma {:induction false} WithoutConcat(s: seq<SessionId>, t: seq<SessionId>, x: SessionId)
    ensures Without(s + t, x) == Without(s, x) + Without(t, x)
  {
    if t == [] {
      assert s + t == s;
    } else {
      WithoutConcat(s, t[..|t| - 1], x);
      assert (s + t)[..|s + t| - 1] == s + t[..|t| - 1];
    }
  }

  ghost predicate HasOther(room: Room, x: SessionId) {
    exists y :: y in room.sessionids && y != x
  }

  /** Of the rooms x is in, leaving closes exactly those of the broadcasting type that x broadcasts in
      and those with no other member. */
  lemma ClosesMeans(room: Room, x: SessionId)
    ensures Closes(room, x) <==>
              x in room.sessionids && ((room.roomType == 0 && room.broadcaster == x) || !HasOther(room, x))
  {
    var others := Without(room.sessionids, x);
    WithoutMembers(room.sessionids, x);
    if others != [] {
      assert others[0] in others;
    }
  }

  /** Leaving closes exactly the rooms the session broadcast in or was alone in, takes it out of
      every other room, and leaves every other member and every other room alone. */
  lemma LeavingRooms(rooms: RoomMap, x: SessionId)
    ensures var after := Left(rooms, x);
      && (forall id :: id in after ==> id in rooms)
      && (forall id :: id in rooms && x !in rooms[id].sessionids ==> id in after && after[id] == rooms[id])
      && (forall id :: id in rooms && x in rooms[id].sessionids ==>
            (id in after <==> !(rooms[id].roomType == 0 && rooms[id].broadcaster == x) && HasOther(rooms[id], x)))
      && (forall id :: id in after ==> after[id] == rooms[id].(sessionids := Without(rooms[id].sessionids, x)))
      && (forall id, y :: id in after ==> (y in after[id].sessionids <==> y in rooms[id].sessionids && y != x))
    ensures !InSomeRoom(Left(rooms, x), x)
  {
    LeavingKeepsOrCloses(rooms, x);
    hide Closes, Left, HasOther;
    forall id | id in rooms && x in rooms[id].sessionids
      ensures Closes(rooms[id], x) <==> (rooms[id].roomType == 0 && rooms[id].broadcaster == x) || !HasOther(rooms[id], x)
    {
      ClosesMeans(rooms[id], x);
    }
    forall id | id in Left(rooms, x)
      ensures forall y :: y in Left(rooms, x)[id].sessionids <==> y in rooms[id].sessionids && y != x
    {
      WithoutMembers(rooms[id].sessionids, x);
    }
  }

  lemma LeavingKeepsOrCloses(rooms: RoomMap, x: SessionId)
    ensures var after := Left(rooms, x);
      && !InSomeRoom(after, x)
      && (forall id :: id in after <==> id in rooms && !Closes(rooms[id], x))
      && (forall id :: id in after ==> after[id] == rooms[id].(sessionids := Without(rooms[id].sessionids, x)))
      && (forall id :: id in rooms && x !in rooms[id].sessionids ==> id in after && after[id] == rooms[id])
  {
    var after := Left(rooms, x);
    forall id ensures !Contains(after, id, x) {
      if id in after { WithoutMembers(rooms[id].sessionids, x); }
    }
    forall id | id in rooms && x !in rooms[id].sessionids ensures after[id] == rooms[id] {
      WithoutAbsent(rooms[id].sessionids, x);
    }
  }

  /** Leaving twice is leaving once. */
  lemma LeavingTwice(rooms: RoomMap, x: SessionId)
    ensures Left(Left(rooms, x), x) == Left(rooms, x)
  {
    var after := Left(rooms, x);
    LeavingKeepsOrCloses(rooms, x);
    LeavingKeepsOrCloses(after, x);
    forall id | id in after ensures id in Left(after, x) && Left(after, x)[id] == after[id] {
      assert !Contains(after, id, x);
    }
  }

  // ----- What each handler changes, and what it does not -----

  /** Opening is refused to a session that is in a room and, unless forced, for an id in use. Else the
      id names a new room of the requested type with that one member, broadcasting if the type is
      0, and every other room stays as it is. */
  lemma OpeningRooms(s: Server, x: SessionId, id: RoomId, roomType: int, force: bool)
    ensures var t, status := Step(s, Open(x, id, roomType, force)), OpenStatus(s, x, id, force);
      && t.conns == s.conns && t.nextSession == s.nextSession
      && if exists i :: i in s.rooms && x in s.rooms[i].sessionids then status == SessionidAlreadyInRoom && t == s
         else if id in s.rooms && !force then status == RoomAlreadyExisted && t == s
         else
           && status == Ok
           && t.rooms.Keys == s.rooms.Keys + {id}
           && t.rooms[id] == Room(id, roomType, [x], if roomType == 0 then x else 0xffff_ffff)
           && forall i :: i in s.rooms && i != id ==> t.rooms[i] == s.rooms[i]
  {
    assert InSomeRoom(s.rooms, x) <==> exists i :: i in s.rooms && x in s.rooms[i].sessionids by {
      assert forall i :: i in s.rooms && x in s.rooms[i].sessionids <==> Contains(s.rooms, i, x);
    }
  }

  /** Joining is refused for an unknown room and to a session that is in a room. Else the session
      becomes the room's last member; type, broadcaster and all other members and rooms stay. */
  lemma JoiningRoom(s: Server, x: SessionId, id: RoomId)
    ensures var t, status := Step(s, Join(x, id)), JoinStatus(s, x, id);
      && t.conns == s.conns && t.inbox == s.inbox && t.nextSession == s.nextSession
      && t.rooms.Keys == s.rooms.Keys
      && if id !in s.rooms then status == RoomNotExisted && t == s
         else if exists i :: i in s.rooms && x in s.rooms[i].sessionids then status == SessionidAlreadyInRoom && t == s
         else
           && status == Ok
           && t.rooms[id].sessionids == s.rooms[id].sessionids + [x]
           && t.rooms[id].roomid == s.rooms[id].roomid
           && t.rooms[id].roomType == s.rooms[id].roomType && t.rooms[id].broadcaster == s.rooms[id].broadcaster
           && forall i :: i in s.rooms && i != id ==> t.rooms[i] == s.rooms[i]
    ensures forall i, y :: y != x ==> (Contains(Step(s, Join(x, id)).rooms, i, y) <==> Contains(s.rooms, i, y))
  {
    assert InSomeRoom(s.rooms, x) <==> exists i :: i in s.rooms && x in s.rooms[i].sessionids by {
      assert forall i :: i in s.rooms && x in s.rooms[i].sessionids <==> Contains(s.rooms, i, x);
    }
  }

  /** Each notice goes once to every connected session and to no other: one "new" for an opened room, one
      "delete" for a closed one, and one "delete" for each room that leaving closes. */
  lemma NoticesSent(s: Server, x: SessionId, id: RoomId, roomType: int, force: bool)
    ensures var sent := map y | y in s.inbox :: if y in s.conns then s.inbox[y] + [New(id)] else s.inbox[y];
      OpenStatus(s, x, id, force) == Ok ==> Step(s, Open(x, id, roomType, force)).inbox == sent
    ensures var sent := map y | y in s.inbox :: if y in s.conns then s.inbox[y] + [Delete(id)] else s.inbox[y];
      id in s.rooms ==> Step(s, Close(id)).inbox == sent
    ensures id !in s.rooms ==> Step(s, Close(id)) == s
  {
  }

  lemma {:induction false} DeletesSent(s: Server, order: seq<RoomId>, y: SessionId)
    requires y in s.inbox
    ensures y in NotifyDeleted(s, order).inbox
    ensures NotifyDeleted(s, order).conns == s.conns
    ensures |NotifyDeleted(s, order).inbox[y]| == |s.inbox[y]| + if y in s.conns then |order| else 0
    ensures y in s.conns ==> forall i :: 0 <= i < |order| ==>
              NotifyDeleted(s, order).inbox[y][|s.inbox[y]| + i] == Delete(order[i])
  {
    if order == [] {
    } else {
      DeletesSent(s, order[..|order| - 1], y);
    }
  }

  /** Closing removes that room and no other. */
  lemma ClosingRoom(s: Server, id: RoomId)
    ensures var t := Step(s, Close(id));
      && t.rooms.Keys == s.rooms.Keys - {id} && t.conns == s.conns && t.nextSession == s.nextSession
      && forall i :: i in t.rooms ==> t.rooms[i] == s.rooms[i]
  {
    assert id !in s.rooms ==> s.rooms.Keys - {id} == s.rooms.Keys;
  }

  /** Leaving keeps all connections, losing the connection drops that session only; a new session gets
      an id above all earlier ones. Neither leaving nor losing needs the session to be in a room. */
  lemma ConnectionsChange(s: Server, x: SessionId, order: seq<RoomId>, conn: Connection)
    ensures Step(s, Leave(x, order)).rooms == Left(s.rooms, x) && Step(s, Leave(x, order)).conns == s.conns
    ensures Step(s, Drop(x, order)).rooms == Left(s.rooms, x)
    ensures Step(s, Drop(x, order)).conns == map y | y in s.conns && y != x :: s.conns[y]
    ensures var t := Step(s, Connect(conn));
      && t.rooms == s.rooms && t.nextSession == s.nextSession + 1
      && t.conns == s.conns[s.nextSession := conn] && t.inbox == s.inbox[s.nextSession := []]
  {
    NotifyDeletedRooms(s.(rooms := Left(s.rooms, x)), order);
  }

  // ----- The invariants over whole runs -----

  lemma LeftKeepsRoomInv(rooms: RoomMap, x: SessionId)
    requires RoomInv(rooms)
    ensures RoomInv(Left(rooms, x))
  {
    var after := Left(rooms, x);
    forall id | id in after ensures RoomOk(id, after[id]) {
      assert RoomOk(id, rooms[id]);
      WithoutMembers(rooms[id].sessionids, x);
      WithoutDistinct(rooms[id].sessionids, x);
      if x !in rooms[id].sessionids { WithoutAbsent(rooms[id].sessionids, x); }
    }
    forall id, y | Contains(after, id, y) ensures Contains(rooms, id, y) {
      WithoutMembers(rooms[id].sessionids, x);
    }
  }

  lemma StepKeepsRoomInv(s: Server, e: Event)
    requires RoomInv(s.rooms) && Allowed(s, e)
    ensures RoomInv(Step(s, e).rooms)
  {
    match e
    case Connect(_) =>
    case Open(x, id, roomType, force) =>
      OpenKeepsRoomInv(s.rooms, x, id, roomType);
    case Close(id) =>
      CloseKeepsRoomInv(s.rooms, id);
    case Join(x, id) =>
      if JoinStatus(s, x, id) == Ok { JoinKeepsRoomInv(s.rooms, x, id); }
    case Leave(x, order) =>
      LeftKeepsRoomInv(s.rooms, x);
      NotifyDeletedRooms(s.(rooms := Left(s.rooms, x)), order);
    case Drop(x, order) =>
      LeftKeepsRoomInv(s.rooms, x);
      NotifyDeletedRooms(s.(rooms := Left(s.rooms, x)), order);
  }

  lemma OpenKeepsRoomInv(rooms: RoomMap, x: SessionId, id: RoomId, roomType: int)
    requires RoomInv(rooms)
    ensures !InSomeRoom(rooms, x) ==> RoomInv(rooms[id := NewRoom(x, id, roomType)])
  {
    if !InSomeRoom(rooms, x) {
      var rooms' := rooms[id := NewRoom(x, id, roomType)];
      forall i | i in rooms' ensures RoomOk(i, rooms'[i]) {
        assert i != id ==> RoomOk(i, rooms[i]);
      }
      forall i, y | Contains(rooms', i, y) ensures if i == id then y == x else Contains(rooms, i, y) && y != x {
        assert !Contains(rooms, i, x);
      }
    }
  }

  lemma CloseKeepsRoomInv(rooms: RoomMap, id: RoomId)
    requires RoomInv(rooms)
    ensures RoomInv(rooms - {id})
  {
    var rooms' := rooms - {id};
    forall i | i in rooms' ensures RoomOk(i, rooms'[i]) {
      assert RoomOk(i, rooms[i]);
    }
    forall i, y | Contains(rooms', i, y) ensures Contains(rooms, i, y) {}
  }

  lemma JoinKeepsRoomInv(rooms: RoomMap, x: SessionId, id: RoomId)
    requires RoomInv(rooms) && id in rooms && !InSomeRoom(rooms, x)
    ensures RoomInv(rooms[id := Joined(rooms[id], x)])
  {
    var rooms' := rooms[id := Joined(rooms[id], x)];
    assert !Contains(rooms, id, x);
    forall i | i in rooms' ensures RoomOk(i, rooms'[i]) {
      assert RoomOk(i, rooms[i]);
    }
    forall i, y | Contains(rooms', i, y) ensures if y == x then i == id else Contains(rooms, i, y) {
      assert !Contains(rooms, i, x);
    }
  }

  /** Notices change nothing but inboxes. */
  lemma {:induction false} NotifyDeletedRooms(s: Server, order: seq<RoomId>)
    ensures var t := NotifyDeleted(s, order);
      t.rooms == s.rooms && t.conns == s.conns && t.nextSession == s.nextSession && t.inbox.Keys == s.inbox.Keys
  {
    if order == [] {
    } else {
      NotifyDeletedRooms(s, order[..|order| - 1]);
    }
  }

  lemma StepKeepsSessionInv(s: Server, e: Event)
    requires SessionInv(s) && Allowed(s, e)
    ensures SessionInv(Step(s, e))
  {
    if e.Leave? || e.Drop? {
      NotifyDeletedRooms(s.(rooms := Left(s.rooms, e.x)), e.order);
    }
  }

  /** Over every run: a session is in at most one room and there at most once, no room is empty,
      each room is stored under its own id, and a broadcasting room contains its broadcaster. */
  lemma {:induction false} RoomsStayConsistent(events: seq<Event>)
    ensures RoomInv(Run(INITIAL, events).rooms) && SessionInv(Run(INITIAL, events))
  {
    if |events| == 0 {
    } else {
      RoomsStayConsistent(events[..|events| - 1]);
      var t, e := Run(INITIAL, events[..|events| - 1]), events[|events| - 1];
      if Allowed(t, e) {
        StepKeepsRoomInv(t, e);
        StepKeepsSessionInv(t, e);
      }
    }
  }

  // ----- Members are connected as long as requests name connected sessions -----

  /** The event puts session e.x into a room. */
  ghost predicate Admits(s: Server, e: Event) {
    (e.Open? && OpenStatus(s, e.x, e.id, e.force) == Ok) || (e.Join? && JoinStatus(s, e.x, e.id) == Ok)
  }

  /** A step keeps every member connected exactly when the session it admits, if any, is
      connected: the handlers themselves do not check. */
  lemma StepKeepsConnectedIff(s: Server, e: Event)
    requires MembersConnected(s) && Allowed(s, e)
    ensures MembersConnected(Step(s, e)) <==> (Admits(s, e) ==> e.x in s.conns)
  {
    var s' := Step(s, e);
    if e.Leave? || e.Drop? {
      NotifyDeletedRooms(s.(rooms := Left(s.rooms, e.x)), e.order);
      LeavingRooms(s.rooms, e.x);
      forall id, y | Contains(s'.rooms, id, y) ensures y in s'.conns {
        WithoutMembers(s.rooms[id].sessionids, e.x);
        assert Contains(s.rooms, id, y);
        assert !Contains(s'.rooms, id, e.x);
      }
    } else if Admits(s, e) {
      assert Contains(s'.rooms, e.id, e.x) && s'.conns == s.conns;
      forall id, y | Contains(s'.rooms, id, y) ensures y == e.x || y in s.conns {
        assert y != e.x ==> Contains(s.rooms, id, y);
      }
    } else {
      forall id, y | Contains(s'.rooms, id, y) ensures y in s'.conns {
        assert Contains(s.rooms, id, y);
      }
    }
  }

  ghost predicate NamesConnected(s: Server, e: Event) {
    e.Open? || e.Join? ==> e.x in s.conns
  }

  /** If opens and joins only name connected sessions, every member and every broadcaster of
      every room is connected throughout. */
  lemma {:induction false} MembersStayConnected(events: seq<Event>)
    requires forall i :: 0 <= i < |events| ==> NamesConnected(Run(INITIAL, events[..i]), events[i])
    ensures MembersConnected(Run(INITIAL, events)) && BroadcastersConnected(Run(INITIAL, events))
  {
    if |events| == 0 {
    } else {
      var before := events[..|events| - 1];
      forall i | 0 <= i < |before| ensures NamesConnected(Run(INITIAL, before[..i]), before[i]) {
        assert before[..i] == events[..i] && NamesConnected(Run(INITIAL, events[..i]), events[i]);
      }
      MembersStayConnected(before);
      var t, e := Run(INITIAL, before), events[|events| - 1];
      if Allowed(t, e) {
        StepKeepsConnectedIff(t, e);
      }
    }
    RoomsStayConsistent(events);
    var s := Run(INITIAL, events);
    forall id | id in s.rooms && s.rooms[id].roomType == VIDEO_BROADCASTING ensures s.rooms[id].broadcaster in s.conns {
      assert RoomOk(id, s.rooms[id]);
      assert Contains(s.rooms, id, s.rooms[id].broadcaster);
    }
  }

  /** Without that condition it fails at once: a conference opened for a session nobody holds. */
  lemma UnknownSessionBecomesMember()
    ensures !MembersConnected(Run(INITIAL, [Open(7, "lobby", 1, false)]))
  {
    var e := Open(7, "lobby", 1, false);
    assert [e][..0] == [] && Run(INITIAL, []) == INITIAL;
    assert Run(INITIAL, [e]) == Step(INITIAL, e);
    assert Contains(Step(INITIAL, e).rooms, "lobby", 7);
  }

  // ----- Clients' directories -----

  function Apply(ids: set<RoomId>, note: Notice): set<RoomId> {
    match note
    case New(id) => ids + {id}
    case Delete(id) => ids - {id}
  }

  /** What a client holds that knew `ids` and then received `notes`. */
  function Replay(ids: set<RoomId>, notes: seq<Notice>): set<RoomId> {
    if |notes| == 0 then ids else Apply(Replay(ids, notes[..|notes| - 1]), notes[|notes| - 1])
  }

  lemma {:induction false} ReplayConcat(ids: set<RoomId>, a: seq<Notice>, b: seq<Notice>)
    ensures Replay(ids, a + b) == Replay(Replay(ids, a), b)
  {
    if b == [] {
      assert a + b == a;
    } else {
      ReplayConcat(ids, a, b[..|b| - 1]);
      assert (a + b)[..|a + b| - 1] == a + b[..|b| - 1];
    }
  }

  /** What session x was sent between two states. */
  function Since(s: Server, t: Server, x: SessionId): seq<Notice>
    requires x in s.inbox && x in t.inbox && s.inbox[x] <= t.inbox[x]
  {
    t.inbox[x][|s.inbox[x]|..]
  }

  ghost predicate Agrees(s: Server, t: Server, x: SessionId) {
    && x in s.inbox && x in t.inbox && s.inbox[x] <= t.inbox[x]
    && Replay(s.rooms.Keys, Since(s, t, x)) == t.rooms.Keys
  }

  lemma OneNotice(s: Server, note: Notice, x: SessionId, ids: set<RoomId>)
    requires x in s.conns && x in s.inbox
    ensures var t := Notify(s, note);
      && x in t.inbox && s.inbox[x] <= t.inbox[x]
      && Replay(ids, Since(s, t, x)) == Apply(ids, note)
  {
    var t := Notify(s, note);
    assert Since(s, t, x) == [note] && [note][..0] == [];
  }

  lemma ListedWithLast(ids: set<RoomId>, before: seq<RoomId>, id: RoomId)
    ensures (ids - set i | i in before) - {id} == ids - set i | i in before + [id]
  {
  }

  lemma SinceCompose(s: Server, t: Server, u: Server, x: SessionId)
    requires x in s.inbox && x in t.inbox && x in u.inbox
    requires s.inbox[x] <= t.inbox[x] && t.inbox[x] <= u.inbox[x]
    ensures s.inbox[x] <= u.inbox[x] && Since(s, u, x) == Since(s, t, x) + Since(t, u, x)
  {
  }

  lemma NothingSince(s: Server, x: SessionId, ids: set<RoomId>)
    requires x in s.inbox
    ensures Replay(ids, Since(s, s, x)) == ids - set id | id in []
  {
    assert Since(s, s, x) == [];
  }

  lemma {:induction false} DeletionsReplay(s: Server, order: seq<RoomId>, x: SessionId, ids: set<RoomId>)
    requires x in s.conns && x in s.inbox
    ensures var t := NotifyDeleted(s, order);
      && x in t.inbox && s.inbox[x] <= t.inbox[x]
      && Replay(ids, Since(s, t, x)) == ids - set id | id in order
  {
    hide Notify, Replay, Since;
    var t := NotifyDeleted(s, order);
    if order == [] {
      NothingSince(s, x, ids);
      assert (set id | id in order) == set id: RoomId | id in [];
    } else {
      var before, id := order[..|order| - 1], order[|order| - 1];
      DeletionsReplay(s, before, x, ids);
      NotifyDeletedRooms(s, before);
      var u := NotifyDeleted(s, before);
      OneNotice(u, Delete(id), x, Replay(ids, Since(s, u, x)));
      SinceCompose(s, u, t, x);
      ReplayConcat(ids, Since(s, u, x), Since(u, t, x));
      ListedWithLast(ids, before, id);
      assert order == before + [id];
    }
  }

  lemma StepAgrees(s: Server, e: Event, x: SessionId)
    requires SessionInv(s) && Allowed(s, e) && x in s.conns && x in Step(s, e).conns
    ensures Agrees(s, Step(s, e), x)
  {
    var s' := Step(s, e);
    match e
    case Connect(_) =>
      assert Since(s, s', x) == [];
    case Open(_, id, _, _) =>
      OneNotice(s, New(id), x, s.rooms.Keys);
      if s' == s { assert Since(s, s', x) == []; }
    case Close(id) =>
      OneNotice(s, Delete(id), x, s.rooms.Keys);
      if s' == s { assert Since(s, s', x) == []; }
    case Join(_, _) =>
      assert Since(s, s', x) == [];
    case Leave(y, order) =>
      LeaveAgrees(s, y, order, x);
    case Drop(y, order) =>
      LeaveAgrees(s, y, order, x);
  }

  lemma LeaveAgrees(s: Server, y: SessionId, order: seq<RoomId>, x: SessionId)
    requires SessionInv(s) && ListsClosed(s.rooms, y, order) && x in s.conns
    ensures Agrees(s, NotifyDeleted(s.(rooms := Left(s.rooms, y)), order), x)
  {
    var t := s.(rooms := Left(s.rooms, y));
    DeletionsReplay(t, order, x, s.rooms.Keys);
    NotifyDeletedRooms(t, order);
    assert Left(s.rooms, y).Keys == s.rooms.Keys - set id | id in order;
  }

  lemma AgreesCompose(s: Server, t: Server, u: Server, x: SessionId)
    requires Agrees(s, t, x) && Agrees(t, u, x)
    ensures Agrees(s, u, x)
  {
    assert Since(s, u, x) == Since(s, t, x) + Since(t, u, x);
    ReplayConcat(s.rooms.Keys, Since(s, t, x), Since(t, u, x));
  }

  /** A session that is connected now was connected before, if its id had been given out. */
  lemma StillConnected(s: Server, e: Event, x: SessionId)
    requires Allowed(s, e) && x < s.nextSession && x in Step(s, e).conns
    ensures x in s.conns
  {
    if e.Leave? || e.Drop? {
      NotifyDeletedRooms(s.(rooms := Left(s.rooms, e.x)), e.order);
    }
  }

  /** A client that stays connected, takes the room ids from a query in state s and replays every
      notice it is sent from then on holds exactly the ids of the open rooms, after any run. */
  lemma {:induction false} DirectoryAgrees(s: Server, events: seq<Event>, x: SessionId)
    requires SessionInv(s) && x in s.conns && x in Run(s, events).conns
    ensures Agrees(s, Run(s, events), x)
    ensures SessionInv(Run(s, events)) && s.nextSession <= Run(s, events).nextSession
  {
    RunKeepsSessions(s, events);
    if |events| == 0 {
      assert Since(s, s, x) == [];
    } else {
      var t, e := Run(s, events[..|events| - 1]), events[|events| - 1];
      RunKeepsSessions(s, events[..|events| - 1]);
      if Allowed(t, e) {
        StillConnected(t, e, x);
        StepAgrees(t, e, x);
      }
      DirectoryAgrees(s, events[..|events| - 1], x);
      if Allowed(t, e) {
        AgreesCompose(s, t, Step(t, e), x);
      }
    }
  }

  lemma {:induction false} RunKeepsSessions(s: Server, events: seq<Event>)
    requires SessionInv(s)
    ensures SessionInv(Run(s, events)) && s.nextSession <= Run(s, events).nextSession
  {
    if |events| == 0 {
    } else {
      RunKeepsSessions(s, events[..|events| - 1]);
      var t, e := Run(s, events[..|events| - 1]), events[|events| - 1];
      if Allowed(t, e) {
        StepKeepsSessionInv(t, e);
        if e.Leave? || e.Drop? {
          NotifyDeletedRooms(t.(rooms := Left(t.rooms, e.x)), e.order);
        }
      }
    }
  }
}
