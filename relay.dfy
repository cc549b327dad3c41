/**
 * The room bookkeeping of server/index.js: a map from room name to the ids of the
 * sockets in it, changed by the `join`, `leave` and `disconnect` handlers, and the
 * `getElements` relay that forwards a snapshot to the other members of a room.
 *
 * The relay never looks inside the snapshot, so its type is a parameter here.
 * Recipients are computed from the map; socket.io's own room adapter is not modelled.
 */
module Server {
  import opened Wrappers

  type SocketId = string

  /** What one `getElements` event causes: nothing, or one `setElements` emit. */
  datatype Delivery<P> = Dropped | SetElements(recipients: set<SocketId>, payload: P)

  /** The map after `socket` left every room, without the rooms that became empty. */
  function WithoutMember(rooms: map<string, set<SocketId>>, socket: SocketId): (r: map<string, set<SocketId>>)
    ensures forall room :: room in r ==> socket !in r[room] && r[room] != {}
    ensures forall room :: room in rooms && rooms[room] - {socket} != {} ==> room in r && r[room] == rooms[room] - {socket}
    ensures forall room :: room in rooms && rooms[room] - {socket} == {} ==> room !in r
    ensures r.Keys <= rooms.Keys
  {
    map room | room in rooms && rooms[room] - {socket} != {} :: rooms[room] - {socket}
  }

  class RoomRelay {
    /** `rooms`: room name to participant socket ids. */
    var rooms: map<string, set<SocketId>>

    /** Every room in the map has at least one participant. */
    ghost predicate Valid()
      reads this
    {
      forall room :: room in rooms ==> rooms[room] != {}
    }

    constructor ()
      ensures Valid() && rooms == map[]
    {
      rooms := map[];
    }

    /** The `join` handler: create the room if absent, then add the socket. */
    method Join(socket: SocketId, room: string)
      requires Valid()
      modifies this
      ensures Valid()
      ensures room in rooms && socket in rooms[room]
      ensures rooms == old(rooms)[room := (if room in old(rooms) then old(rooms)[room] else {}) + {socket}]
    {
      if room !in rooms {
        rooms := rooms[room := {}];
      }
      rooms := rooms[room := rooms[room] + {socket}];
    }

    /** The `leave` handler: drop the socket from a known room, and the room once empty. */
    method Leave(socket: SocketId, room: string)
      requires Valid()
      modifies this
      ensures Valid()
      ensures room !in old(rooms) ==> rooms == old(rooms)
      ensures room in old(rooms) ==>
        var rest := old(rooms)[room] - {socket};
        rooms == if rest == {} then old(rooms) - {room} else old(rooms)[room := rest]
      ensures room in rooms ==> socket !in rooms[room]
    {
      if room in rooms {
        rooms := rooms[room := rooms[room] - {socket}];
        if rooms[room] == {} {
          rooms := rooms - {room};
        }
      }
    }

    /** The `getElements` handler: a missing, empty or unknown room is logged and
        dropped; otherwise the snapshot goes, as it came, to every member of the room
        but the sender, who need not be a member. */
    method GetElements<P>(sender: SocketId, room: Option<string>, elements: P) returns (d: Delivery<P>)
      ensures d.Dropped? <==> room.None? || room.value == "" || room.value !in rooms
      ensures d.SetElements? ==> d.payload == elements && d.recipients == rooms[room.value] - {sender}
      ensures d.SetElements? ==> sender !in d.recipients
    {
      if room.None? || room.value == "" || room.value !in rooms {
        return Dropped;
      }
      d := SetElements(rooms[room.value] - {sender}, elements);
    }

    /** The `disconnect` handler: walk the rooms, drop the socket from each that holds
        it, and delete the rooms that become empty. */
    method Disconnect(socket: SocketId)
      requires Valid()
      modifies this
      ensures Valid()
      ensures rooms == WithoutMember(old(rooms), socket)
      ensures forall room :: room in rooms ==> socket !in rooms[room]
    {
      ghost var start := rooms;
      var pending := rooms.Keys;
      while pending != {}
        invariant pending <= start.Keys
        invariant rooms.Keys <= start.Keys
        invariant forall room :: room in start && room in pending ==> room in rooms && rooms[room] == start[room]
        invariant forall room :: room in start && room !in pending ==>
          if start[room] - {socket} == {} then room !in rooms else room in rooms && rooms[room] == start[room] - {socket}
        decreases pending
      {
        var room :| room in pending;
        pending := pending - {room};
        var participants := rooms[room];
        if socket in participants {
          participants := participants - {socket};
          if participants == {} {
            rooms := rooms - {room};
          } else {
            rooms := rooms[room := participants];
          }
        }
      }
      assert rooms == WithoutMember(start, socket);
    }
  }

  /** Two participants in a room: what the first sends reaches only the second; once
      the second has left, what the first sends reaches nobody and is not an error. */
  method TwoParticipants<P>(a: SocketId, b: SocketId, room: string, snapshot: P)
    returns (first: Delivery<P>, second: Delivery<P>)
    requires a != b && room != ""
    ensures first == SetElements({b}, snapshot)
    ensures second == SetElements({}, snapshot)
  {
    var relay := new RoomRelay();
    relay.Join(a, room);
    relay.Join(b, room);
    first := relay.GetElements(a, Some(room), snapshot);
    relay.Leave(b, room);
    second := relay.GetElements(a, Some(room), snapshot);
  }

  /** A disconnect removes the socket everywhere: in a room it shared, the others still
      receive; a room it was alone in is gone, so sending there is dropped. */
  method DisconnectScenario<P>(a: SocketId, b: SocketId, shared: string, alone: string, snapshot: P)
    returns (toShared: Delivery<P>, toAlone: Delivery<P>)
    requires a != b && shared != "" && alone != "" && shared != alone
    ensures toShared == SetElements({b}, snapshot)
    ensures toAlone == Dropped
  {
    var relay := new RoomRelay();
    relay.Join(a, shared);
    relay.Join(b, shared);
    relay.Join(a, alone);
    relay.Disconnect(a);
    toShared := relay.GetElements(a, Some(shared), snapshot);
    toAlone := relay.GetElements(b, Some(alone), snapshot);
  }
}
