/** The signalling server's controllers (signaling-server/src/ws_controller.cpp and
    http_controller.cpp), each handler refining a step of the room state machine. JSON parsing
    and missing parameters are outside; walks over a map take its entries in any order. */
module SignalingServer {
  import opened Rooms

  // ----- The leaving loop -----

  function RoomsWith(rooms: RoomMap, x: SessionId): set<RoomId> {
    set id | id in rooms && x in rooms[id].sessionids
  }

  ghost predicate ListsClosedIn(rooms: RoomMap, x: SessionId, done: set<RoomId>, order: seq<RoomId>) {
    && (forall i, j :: 0 <= i < j < |order| ==> order[i] != order[j])
    && (forall id :: id in order <==> id in rooms && id in done && Closes(rooms[id], x))
  }

  lemma {:induction false} CountWithout(s: seq<SessionId>, x: SessionId)
    ensures |Without(s, x)| == |s| - multiset(s)[x]
  {
    if s == [] {
    } else {
      CountWithout(s[..|s| - 1], x);
      assert s == s[..|s| - 1] + [s[|s| - 1]];
    }
  }

  /** A room that still holds x has not been dealt with. */
  lemma NotYetDone(rooms: RoomMap, x: SessionId, done: set<RoomId>, id: RoomId)
    requires Contains(LeftIn(rooms, x, done), id, x)
    ensures id !in done && Contains(rooms, id, x) && LeftIn(rooms, x, done)[id] == rooms[id]
  {
    WithoutMembers(rooms[id].sessionids, x);
  }

  lemma LeftInGrows(rooms: RoomMap, x: SessionId, done: set<RoomId>, id: RoomId)
    requires id in rooms && id !in done
    ensures var before, after := LeftIn(rooms, x, done), LeftIn(rooms, x, done + {id});
      after == if Closes(rooms[id], x) then before - {id}
               else before[id := rooms[id].(sessionids := Without(rooms[id].sessionids, x))]
  {
  }

  lemma ClosedGrows(rooms: RoomMap, x: SessionId, done: set<RoomId>, order: seq<RoomId>, id: RoomId)
    requires ListsClosedIn(rooms, x, done, order) && id in rooms && id !in done
    ensures if Closes(rooms[id], x) then ListsClosedIn(rooms, x, done + {id}, order + [id])
            else ListsClosedIn(rooms, x, done + {id}, order)
  {
  }

  lemma NotifyOneMore(s: Server, order: seq<RoomId>, id: RoomId)
    ensures NotifyDeleted(s, order + [id]) == Notify(NotifyDeleted(s, order), Delete(id))
  {
    assert (order + [id])[..|order|] == order;
  }

  lemma OneRoomLess(before: RoomMap, after: RoomMap, x: SessionId, id: RoomId)
    requires Contains(before, id, x)
    requires after == before - {id}
          || after == before[id := before[id].(sessionids := Without(before[id].sessionids, x))]
    ensures RoomsWith(after, x) < RoomsWith(before, x)
  {
    WithoutMembers(before[id].sessionids, x);
    assert id in RoomsWith(before, x) && id !in RoomsWith(after, x);
  }

  lemma {:induction false} NotifyIgnoresRooms(s: Server, rooms: RoomMap, rooms': RoomMap, order: seq<RoomId>)
    ensures NotifyDeleted(s.(rooms := rooms'), order) == NotifyDeleted(s.(rooms := rooms), order).(rooms := rooms')
  {
    if order == [] {
    } else {
      NotifyIgnoresRooms(s, rooms, rooms', order[..|order| - 1]);
    }
  }

  /** Once no room holds x any more, every room has been dealt with as far as x is concerned. */
  lemma AllLeft(rooms: RoomMap, x: SessionId, done: set<RoomId>, order: seq<RoomId>)
    requires !InSomeRoom(LeftIn(rooms, x, done), x) && ListsClosedIn(rooms, x, done, order)
    ensures LeftIn(rooms, x, done) == Left(rooms, x) && ListsClosed(rooms, x, order)
  {
    forall id | id in rooms && id !in done
      ensures !Closes(rooms[id], x) && Without(rooms[id].sessionids, x) == rooms[id].sessionids
    {
      assert !Contains(LeftIn(rooms, x, done), id, x);
      WithoutAbsent(rooms[id].sessionids, x);
    }
  }

  ghost predicate OnlyDrops(events: seq<Event>, conns: map<SessionId, Connection>, conn: Connection) {
    forall i :: 0 <= i < |events| ==> events[i].Drop? && events[i].x in conns && conns[events[i].x] == conn
  }

  lemma NoEvents(s: Server)
    ensures Run(s, []) == s
  {
  }

  lemma OneMoreEvent(s: Server, events: seq<Event>, e: Event)
    ensures Run(s, events + [e]) == if Allowed(Run(s, events), e) then Step(Run(s, events), e) else Run(s, events)
  {
    hide Step, Allowed;
    assert (events + [e])[..|events|] == events;
  }

  lemma NobodyEnters(rooms: RoomMap, x: SessionId)
    ensures forall y :: InSomeRoom(Left(rooms, x), y) ==> InSomeRoom(rooms, y)
  {
    forall y | InSomeRoom(Left(rooms, x), y) ensures InSomeRoom(rooms, y) {
      var id :| Contains(Left(rooms, x), id, y);
      WithoutMembers(rooms[id].sessionids, x);
      assert Contains(rooms, id, y);
    }
  }

  // ----- The controllers -----

  class WsController {
    var rooms: RoomMap
    var sessionidConnMap: map<SessionId, Connection>
    /** What was sent over each session's connection. */
    var inbox: map<SessionId, seq<Notice>>
    var nextSessionid: SessionId

    ghost function Abs(): Server
      reads this
    {
      Server(rooms, sessionidConnMap, inbox, nextSessionid)
    }

    ghost predicate Valid()
      reads this
    {
      SessionInv(Abs())
    }

    constructor ()
      ensures Valid() && Abs() == INITIAL
    {
      rooms, sessionidConnMap, inbox, nextSessionid := map[], map[], map[], 0;
    }

    method OnOpen(conn: Connection) returns (newSessionid: SessionId)
      requires Valid()
      modifies this
      ensures Valid() && newSessionid == old(nextSessionid)
      ensures Abs() == Step(old(Abs()), Connect(conn))
    {
      newSessionid := nextSessionid;
      nextSessionid := nextSessionid + 1;
      sessionidConnMap := sessionidConnMap[newSessionid := conn];
      inbox := inbox[newSessionid := []];
    }

    /** Sends a notice to every connected session. */
    method SendAll(note: Notice)
      requires Valid()
      modifies `inbox
      ensures Valid() && Abs() == Notify(old(Abs()), note)
    {
      var todo := sessionidConnMap.Keys;
      while todo != {}
        invariant todo <= sessionidConnMap.Keys
        invariant inbox == Deliver(old(inbox), sessionidConnMap.Keys - todo, note)
        decreases todo
      {
        var x :| x in todo;
        inbox := inbox[x := inbox[x] + [note]];
        todo := todo - {x};
      }
      assert sessionidConnMap.Keys - todo == sessionidConnMap.Keys;
    }

    method IsSessionidExisted(x: SessionId) returns (existed: bool, roomid: RoomId)
      ensures existed <==> InSomeRoom(rooms, x)
      ensures existed ==> Contains(rooms, roomid, x)
    {
      var todo := rooms.Keys;
      while todo != {}
        invariant todo <= rooms.Keys
        invariant forall id :: id in rooms && id !in todo ==> x !in rooms[id].sessionids
        decreases todo
      {
        var id :| id in todo;
        if x in rooms[id].sessionids {
          assert Contains(rooms, id, x);
          return true, id;
        }
        todo := todo - {id};
      }
      return false, "";
    }

    method OpenRoom(newroom: Room)
      requires Valid()
      modifies `rooms, `inbox
      ensures Valid()
      ensures Abs() == Notify(old(Abs()).(rooms := old(rooms)[newroom.roomid := newroom]), New(newroom.roomid))
    {
      rooms := rooms[newroom.roomid := newroom];
      SendAll(New(newroom.roomid));
    }

    method CloseRoom(roomid: RoomId)
      requires Valid()
      modifies `rooms, `inbox
      ensures Valid()
      ensures Abs() == Notify(old(Abs()).(rooms := old(rooms) - {roomid}), Delete(roomid))
    {
      rooms := rooms - {roomid};
      SendAll(Delete(roomid));
    }

    /** One round of the leaving loop, on a room that holds x. `done` are the rooms dealt with
        since `start`, `order` those of them that were closed. */
    method LeaveOne(x: SessionId, existedRoomid: RoomId, ghost start: Server, ghost done: set<RoomId>,
                    ghost order: seq<RoomId>)
      returns (ghost order': seq<RoomId>)
      requires Valid() && Contains(rooms, existedRoomid, x)
      requires rooms == LeftIn(start.rooms, x, done) && ListsClosedIn(start.rooms, x, done, order)
      requires Abs() == NotifyDeleted(start.(rooms := rooms), order)
      modifies `rooms, `inbox
      ensures Valid() && RoomsWith(rooms, x) < RoomsWith(old(rooms), x)
      ensures rooms == LeftIn(start.rooms, x, done + {existedRoomid})
      ensures ListsClosedIn(start.rooms, x, done + {existedRoomid}, order')
      ensures Abs() == NotifyDeleted(start.(rooms := rooms), order')
    {
      NotYetDone(start.rooms, x, done, existedRoomid);
      LeftInGrows(start.rooms, x, done, existedRoomid);
      hide LeftIn, Notify, NotifyDeleted, ListsClosedIn, RoomsWith;
      var room := rooms[existedRoomid];
      var cnt := multiset(room.sessionids)[x];
      assert cnt > 0;
      CountWithout(room.sessionids, x);
      ghost var before := rooms;
      ClosedGrows(start.rooms, x, done, order, existedRoomid);
      if (room.roomType == VIDEO_BROADCASTING && room.broadcaster == x) || |room.sessionids| - cnt == 0 {
        rooms := rooms - {existedRoomid};
        NotifyIgnoresRooms(start, before, rooms, order);
        SendAll(Delete(existedRoomid));
        order' := order + [existedRoomid];
        NotifyOneMore(start.(rooms := rooms), order, existedRoomid);
      } else {
        rooms := rooms[existedRoomid := room.(sessionids := Without(room.sessionids, x))];
        NotifyIgnoresRooms(start, before, rooms, order);
        order' := order;
      }
      OneRoomLess(before, rooms, x, existedRoomid);
    }

    /** Takes x out of every room it is in, whatever the rooms hold: each round removes x from
        one room, so the loop ends, and the two "it cannot be" branches of the original are
        unreachable. `order` lists the rooms closed on the way. */
    method LeaveRoom(x: SessionId) returns (ghost order: seq<RoomId>)
      requires Valid()
      modifies `rooms, `inbox
      ensures Valid() && ListsClosed(old(rooms), x, order)
      ensures Abs() == NotifyDeleted(old(Abs()).(rooms := Left(old(rooms), x)), order)
    {
      ghost var start, done := Abs(), {};
      order := [];
      assert rooms == LeftIn(start.rooms, x, {});
      hide LeftIn, Left, ListsClosed;
      var existed, existedRoomid := IsSessionidExisted(x);
      while existed
        invariant Valid() && (existed <==> InSomeRoom(rooms, x)) && (existed ==> Contains(rooms, existedRoomid, x))
        invariant rooms == LeftIn(start.rooms, x, done)
        invariant ListsClosedIn(start.rooms, x, done, order)
        invariant Abs() == NotifyDeleted(start.(rooms := rooms), order)
        decreases RoomsWith(rooms, x)
      {
        order := LeaveOne(x, existedRoomid, start, done, order);
        done := done + {existedRoomid};
        existed, existedRoomid := IsSessionidExisted(x);
      }
      AllLeft(start.rooms, x, done, order);
    }

    /** Takes a session whose connection is gone out of its rooms and out of the map. */
    method DropSession(x: SessionId) returns (ghost order: seq<RoomId>)
      requires Valid() && x in sessionidConnMap
      modifies `rooms, `inbox, `sessionidConnMap
      ensures Valid() && Allowed(old(Abs()), Drop(x, order)) && Abs() == Step(old(Abs()), Drop(x, order))
      ensures rooms == Left(old(rooms), x) && sessionidConnMap == old(sessionidConnMap) - {x}
    {
      ghost var before := Abs();
      order := LeaveRoom(x);
      NotifyDeletedRooms(before.(rooms := Left(before.rooms, x)), order);
      hide Left, NotifyDeleted, ListsClosed;
      sessionidConnMap := sessionidConnMap - {x};
    }

    /** Ends every session of a connection. `events` are the steps this amounts to. */
    method CloseConnectionAndTimer(conn: Connection) returns (ghost events: seq<Event>)
      requires Valid()
      modifies `rooms, `inbox, `sessionidConnMap
      ensures Valid() && Abs() == Run(old(Abs()), events)
      ensures OnlyDrops(events, old(sessionidConnMap), conn)
      ensures sessionidConnMap == map x | x in old(sessionidConnMap) && old(sessionidConnMap)[x] != conn ::
                                    old(sessionidConnMap)[x]
      ensures forall x :: x in old(sessionidConnMap) && old(sessionidConnMap)[x] == conn ==> !InSomeRoom(rooms, x)
    {
      hide Left, Step, InSomeRoom, Allowed, HasOther, Run;
      ghost var start := Abs();
      events := [];
      NoEvents(start);
      var todo := sessionidConnMap.Keys;
      while todo != {}
        invariant Valid() && Abs() == Run(start, events)
        invariant todo <= sessionidConnMap.Keys && OnlyDrops(events, start.conns, conn)
        invariant sessionidConnMap == map x | x in start.conns && (x in todo || start.conns[x] != conn) :: start.conns[x]
        invariant forall x :: x in start.conns && start.conns[x] == conn && x !in todo ==> !InSomeRoom(rooms, x)
        decreases todo
      {
        var x :| x in todo;
        todo := todo - {x};
        if sessionidConnMap[x] == conn {
          ghost var before := Abs();
          ghost var order := DropSession(x);
          LeavingRooms(before.rooms, x);
          NobodyEnters(before.rooms, x);
          OneMoreEvent(start, events, Drop(x, order));
          events := events + [Drop(x, order)];
        }
      }
    }
  }

  class HttpController {
    const wsCtrl: WsController

    constructor (wsCtrl: WsController)
      ensures this.wsCtrl == wsCtrl
    {
      this.wsCtrl := wsCtrl;
    }

    /** On SessionidAlreadyInRoom the reply names a room the session is in. */
    method OpenRoom(x: SessionId, roomid: RoomId, roomType: int, force: bool)
      returns (status: Status, existedRoomid: RoomId)
      requires wsCtrl.Valid()
      modifies wsCtrl
      ensures wsCtrl.Valid() && wsCtrl.Abs() == Step(old(wsCtrl.Abs()), Open(x, roomid, roomType, force))
      ensures status == OpenStatus(old(wsCtrl.Abs()), x, roomid, force)
      ensures status == SessionidAlreadyInRoom ==> Contains(old(wsCtrl.rooms), existedRoomid, x)
    {
      var roomExist := roomid in wsCtrl.rooms;
      var sessionInRoom, existed := wsCtrl.IsSessionidExisted(x);
      if sessionInRoom {
        return SessionidAlreadyInRoom, existed;
      }
      ghost var rooms := wsCtrl.rooms;
      if roomExist {
        if !force {
          return RoomAlreadyExisted, "";
        }
        wsCtrl.rooms := wsCtrl.rooms - {roomid};
      }
      var newRoom := Room(roomid, roomType, [x], if roomType == VIDEO_BROADCASTING then x else NO_BROADCASTER);
      assert wsCtrl.rooms[roomid := newRoom] == rooms[roomid := newRoom];
      wsCtrl.OpenRoom(newRoom);
      return Ok, "";
    }

    method CloseRoom(roomid: RoomId) returns (status: Status)
      requires wsCtrl.Valid()
      modifies wsCtrl
      ensures wsCtrl.Valid() && wsCtrl.Abs() == Step(old(wsCtrl.Abs()), Close(roomid))
      ensures status == if roomid in old(wsCtrl.rooms) then Ok else RoomNotExisted
    {
      if roomid !in wsCtrl.rooms {
        return RoomNotExisted;
      }
      wsCtrl.CloseRoom(roomid);
      return Ok;
    }

    method JoinRoom(x: SessionId, roomid: RoomId) returns (status: Status, existedRoomid: RoomId)
      requires wsCtrl.Valid()
      modifies wsCtrl
      ensures wsCtrl.Valid() && wsCtrl.Abs() == Step(old(wsCtrl.Abs()), Join(x, roomid))
      ensures status == JoinStatus(old(wsCtrl.Abs()), x, roomid)
      ensures status == SessionidAlreadyInRoom ==> Contains(old(wsCtrl.rooms), existedRoomid, x)
    {
      if roomid !in wsCtrl.rooms {
        return RoomNotExisted, "";
      }
      var sessionInRoom, existed := wsCtrl.IsSessionidExisted(x);
      if sessionInRoom {
        return SessionidAlreadyInRoom, existed;
      }
      var room := wsCtrl.rooms[roomid];
      wsCtrl.rooms := wsCtrl.rooms[roomid := room.(sessionids := room.sessionids + [x])];
      return Ok, "";
    }

    method LeaveRoom(x: SessionId) returns (status: Status, ghost order: seq<RoomId>)
      requires wsCtrl.Valid()
      modifies wsCtrl
      ensures wsCtrl.Valid() && status == Ok
      ensures Allowed(old(wsCtrl.Abs()), Leave(x, order))
      ensures wsCtrl.Abs() == Step(old(wsCtrl.Abs()), Leave(x, order))
    {
      order := wsCtrl.LeaveRoom(x);
      return Ok, order;
    }
  }
}
