/**
 * The watch-party relay hub of server.js: the `connection` handler of the
 * real-time server. A connection (a socket) carries an identity, belongs to
 * rooms, and its event handlers emit events to computed sets of sockets.
 *
 * Each handler runs as one atomic step. The outcome of the room lookup the
 * join and playback handlers await (`Room.findById`) is a parameter of the
 * step, as is the token verifier of the handshake.
 */
module Hub {
  import opened Wrappers
  import opened JsText
  import opened JsValues
  import opened Auth

  type SocketId = string
  type RoomId = string

  /** What `Room.findById(roomId)` produced: it threw (for instance on a malformed id), found nothing, or found a room with this `host` field. */
  datatype Lookup = LookupThrows | NoRecord | Record(host: JsValue)

  datatype ControlKind = Play | Pause | Seek
  datatype SignalKind = Offer | Answer | IceCandidate

  /**
   * The events the hub emits. `user-joined` also carries a `name` field that is
   * always undefined (see `JoinNotices`), so it is not represented.
   */
  datatype Event =
    | UserJoined(id: SocketId, userId: JsValue)
    | Participants(count: int)
    | Playback(kind: ControlKind, time: JsValue)
    | ChatLine(message: string, user: JsValue)
    | Signal(signal: SignalKind, payload: JsValue)
    | UserLeft(leaver: SocketId, leaverId: JsValue)

  type Identities = map<SocketId, Identity>
  type RoomLists = map<SocketId, seq<RoomId>>
  type Membership = map<RoomId, set<SocketId>>

  /** One emit call: the sockets that receive the event. */
  datatype Delivery = Delivery(to: set<SocketId>, event: Event)

  /** The handler an incoming event name is bound to. */
  datatype Handler =
    | JoinRoom
    | PlaybackControl(control: ControlKind)
    | ChatMessage
    | Signalling(kind: SignalKind)
    | Disconnecting
    | NoHandler

  function HandlerFor(name: string): (h: Handler)
    ensures h == JoinRoom <==> name == "Join-room" || name == "join-room"
    ensures h == PlaybackControl(Play) <==> name == "play"
    ensures h == PlaybackControl(Pause) <==> name == "pause"
    ensures h == PlaybackControl(Seek) <==> name == "seek"
    ensures h == ChatMessage <==> name == "chat"
    ensures h == Signalling(Offer) <==> name == "webrtc-offer"
    ensures h == Signalling(Answer) <==> name == "webrtc-answer"
    ensures h == Signalling(IceCandidate) <==> name == "webrtc-ice"
    ensures h == Disconnecting <==> name == "disconnecting"
  {
    if name == "Join-room" || name == "join-room" then JoinRoom
    else if name == "play" then PlaybackControl(Play)
    else if name == "pause" then PlaybackControl(Pause)
    else if name == "seek" then PlaybackControl(Seek)
    else if name == "chat" then ChatMessage
    else if name == "webrtc-offer" then Signalling(Offer)
    else if name == "webrtc-answer" then Signalling(Answer)
    else if name == "webrtc-ice" then Signalling(IceCandidate)
    else if name == "disconnecting" then Disconnecting
    else NoHandler
  }

  /** Event names are matched exactly: only the two spellings of the join event are aliases. */
  lemma HandlerNames()
    ensures HandlerFor("Join-room") == HandlerFor("join-room") == JoinRoom
    ensures HandlerFor("JOIN-ROOM") == NoHandler && HandlerFor("Play") == NoHandler
    ensures HandlerFor("seek") == PlaybackControl(Seek) && HandlerFor("webrtc-ice") == Signalling(IceCandidate)
  {
  }

  /**
   * The host-or-admin rule of the playback handlers: a room must have been found,
   * and `String(room.host) === String(socket.userId)` or the socket is an admin.
   */
  function MayControl(lookup: Lookup, who: Identity): (allowed: bool)
    ensures !lookup.Record? ==> !allowed
    ensures lookup.Record? && who.isAdmin ==> allowed
    ensures lookup.Record? && !who.isAdmin ==> (allowed <==> ToString(lookup.host) == ToString(who.userId))
  {
    lookup.Record? && (ToString(lookup.host) == ToString(who.userId) || who.isAdmin)
  }

  /** The host of a room controls it; any other signed-in user who is not an admin does not. */
  lemma HostControls(host: string, user: string, isAdmin: bool)
    ensures MayControl(Record(Str(host)), Identity(Str(host), isAdmin))
    ensures user != host ==> MayControl(Record(Str(host)), Identity(Str(user), isAdmin)) == isAdmin
  {
  }

  /**
   * Comparing through `String(...)`: a room without a host and a socket without
   * a user both render as "undefined", so an anonymous socket controls a hostless room;
   * a room with a host is closed to anonymous sockets unless the host id is itself "undefined".
   */
  lemma AnonymousControl(host: string)
    ensures MayControl(Record(Undefined), Anonymous)
    ensures host != "undefined" ==> !MayControl(Record(Str(host)), Anonymous)
  {
  }

  /** `String(message || '').slice(0, 1000).trim()` */
  function ChatText(message: JsValue): (text: string)
    ensures |text| <= 1000
    ensures text == [] || (!IsWhitespace(text[0]) && !IsWhitespace(text[|text| - 1]))
  {
    Trim(Take(ToString(Or(message, Str(""))), 1000))
  }

  /** A chat message is dropped exactly when it is falsy or its first 1000 code units are all white space. */
  lemma ChatDroppedIffBlank(message: JsValue)
    ensures ChatText(message) == [] <==> !Truthy(message) || AllWhitespace(Take(ToString(message), 1000))
  {
    ToStringOrEmpty(message);
    TrimEmptyIff(Take(ToString(Or(message, Str(""))), 1000));
  }

  /** Text of at most 1000 code units with no white space at either end is relayed verbatim. */
  lemma ChatVerbatim(s: string)
    requires |s| <= 1000
    requires s == [] || (!IsWhitespace(s[0]) && !IsWhitespace(s[|s| - 1]))
    ensures ChatText(Str(s)) == s
  {
    TrimOfTrimmed(s);
  }

  /** Longer text is cut to its first 1000 code units before trimming. */
  lemma ChatTruncated(s: string)
    requires |s| > 1000 && !IsWhitespace(s[0]) && !IsWhitespace(s[999])
    ensures ChatText(Str(s)) == s[..1000]
  {
    TrimOfTrimmed(s[..1000]);
  }

  /** Relaying a relayed message again changes nothing: the sanitiser is idempotent on its own output. */
  lemma ChatIdempotent(message: JsValue)
    ensures ChatText(Str(ChatText(message))) == ChatText(message)
  {
    ChatVerbatim(ChatText(message));
  }

  /**
   * The emits of the join handler once the socket has joined, where `room` is the
   * membership after the join. When no room was found, reading `room.host` throws
   * for a signed-in socket (after the join, before any emit); for an anonymous one
   * the host is never read. The `name` field compares the socket's user id with the
   * populated host document by `===`, which a string never equals, so it is always undefined.
   */
  function JoinNotices(s: SocketId, who: Identity, lookup: Lookup, room: set<SocketId>): (ds: seq<Delivery>)
    requires s in room
    ensures ds == [] <==> lookup.LookupThrows? || (lookup.NoRecord? && Truthy(who.userId))
    ensures ds != [] ==>
      && |ds| == 2
      && ds[0].to == room - {s} && ds[0].event == UserJoined(s, who.userId)
      && ds[1].to == room && ds[1].event == Participants(|ds[1].to|)
  {
    if lookup.LookupThrows? || (lookup.NoRecord? && Truthy(who.userId)) then []
    else [Delivery(room - {s}, UserJoined(s, who.userId)), Delivery(room, Participants(|room|))]
  }

  /** A socket's rooms in the order it joined them; joining a room twice keeps its first place. */
  function Enlist(rooms: seq<RoomId>, r: RoomId): (q: seq<RoomId>)
    ensures r in q && forall x :: x in q <==> x in rooms || x == r
    ensures r in rooms ==> q == rooms
  {
    if r in rooms then rooms else rooms + [r]
  }

  predicate Distinct(q: seq<RoomId>) {
    forall i, j :: 0 <= i < j < |q| ==> q[i] != q[j]
  }

  /** The membership after `s` leaves every room: rooms left empty disappear. */
  function Vacate(m: Membership, s: SocketId): (m': Membership)
    ensures forall r :: r in m' <==> r in m && m[r] - {s} != {}
    ensures forall r :: r in m' ==> m'[r] == m[r] - {s}
  {
    map r | r in m && m[r] - {s} != {} :: m[r] - {s}
  }

  /** `size || 1`, minus one, floored at zero: the count announced when `s` leaves `r`. */
  function CountAfterLeave(m: Membership, r: RoomId): (count: int)
    ensures count >= 0
    ensures r in m && m[r] != {} ==> count == |m[r]| - 1
    ensures r !in m ==> count == 0
  {
    var size := if r in m && |m[r]| != 0 then |m[r]| else 1;
    if size - 1 < 0 then 0 else size - 1
  }

  /** The two emits for one room the leaving socket was in. */
  function LeaveNotices(s: SocketId, userId: JsValue, r: RoomId, m: Membership): (ds: seq<Delivery>)
    ensures |ds| == 2 && ds[0].event.Participants? && ds[1].event == UserLeft(s, userId)
    ensures ds[1].to == ds[0].to - {s}
    ensures r in m && s in m[r] ==> ds[0].to == m[r] && ds[0].event.count == |m[r]| - 1
  {
    var room := if r in m then m[r] else {};
    [Delivery(room, Participants(CountAfterLeave(m, r))), Delivery(room - {s}, UserLeft(s, userId))]
  }

  /** The emits of the `disconnecting` handler over the socket's rooms in order, skipping the socket's own room. */
  function DepartureNotices(s: SocketId, userId: JsValue, rooms: seq<RoomId>, m: Membership): (ds: seq<Delivery>)
    ensures |ds| <= 2 * |rooms|
    ensures s !in rooms ==> |ds| == 2 * |rooms|
  {
    if rooms == [] then []
    else
      var earlier := DepartureNotices(s, userId, rooms[..|rooms| - 1], m);
      var r := rooms[|rooms| - 1];
      if r == s then earlier else earlier + LeaveNotices(s, userId, r, m)
  }

  /** One more room of the list adds that room's notices, or none for the socket's own room. */
  lemma DepartureStep(s: SocketId, userId: JsValue, rooms: seq<RoomId>, i: nat, m: Membership)
    requires i < |rooms|
    ensures DepartureNotices(s, userId, rooms[..i + 1], m)
            == DepartureNotices(s, userId, rooms[..i], m) + (if rooms[i] == s then [] else LeaveNotices(s, userId, rooms[i], m))
  {
    assert rooms[..i + 1][..i] == rooms[..i];
  }

  /** With the socket's own room listed once, as the hub keeps it, every other room yields exactly two notices. */
  lemma {:induction false} DepartureCountWithOwnRoom(s: SocketId, userId: JsValue, rooms: seq<RoomId>, m: Membership)
    requires Distinct(rooms) && s in rooms
    ensures |DepartureNotices(s, userId, rooms, m)| == 2 * (|rooms| - 1)
  {
    var front := rooms[..|rooms| - 1];
    assert Distinct(front);
    if rooms[|rooms| - 1] == s {
      assert s !in front;
    } else {
      assert s in front;
      DepartureCountWithOwnRoom(s, userId, front, m);
    }
  }

  /** Every room of the list other than the socket's own gets its two notices. */
  lemma {:induction false} DeparturesReachRooms(s: SocketId, userId: JsValue, rooms: seq<RoomId>, m: Membership)
    requires forall r :: r in rooms ==> r in m && s in m[r]
    ensures forall r :: r in rooms && r != s ==>
      Delivery(m[r], Participants(|m[r]| - 1)) in DepartureNotices(s, userId, rooms, m)
      && Delivery(m[r] - {s}, UserLeft(s, userId)) in DepartureNotices(s, userId, rooms, m)
  {
    if rooms != [] {
      var front := rooms[..|rooms| - 1];
      assert forall x :: x in rooms <==> x in front || x == rooms[|rooms| - 1];
      DeparturesReachRooms(s, userId, front, m);
    }
  }

  /** Every notice belongs to a room of the list other than the socket's own. */
  lemma {:induction false} DeparturesComeFromRooms(s: SocketId, userId: JsValue, rooms: seq<RoomId>, m: Membership)
    requires forall r :: r in rooms ==> r in m && s in m[r]
    ensures forall d :: d in DepartureNotices(s, userId, rooms, m) ==>
      exists r :: r in rooms && r != s && (d == Delivery(m[r], Participants(|m[r]| - 1)) || d == Delivery(m[r] - {s}, UserLeft(s, userId)))
  {
    if rooms != [] {
      var front := rooms[..|rooms| - 1];
      assert forall x :: x in front ==> x in rooms;
      DeparturesComeFromRooms(s, userId, front, m);
    }
  }

  /**
   * While the socket is still a member of each of its rooms, every room other than
   * its own gets the remaining head count (which excludes the leaver) and its other
   * members get `user-left`; nothing is sent for the socket's own room or for any room it is not in.
   */
  lemma DepartureFacts(s: SocketId, userId: JsValue, rooms: seq<RoomId>, m: Membership)
    requires forall r :: r in rooms ==> r in m && s in m[r]
    ensures forall r :: r in rooms && r != s ==>
      Delivery(m[r], Participants(|m[r]| - 1)) in DepartureNotices(s, userId, rooms, m)
      && Delivery(m[r] - {s}, UserLeft(s, userId)) in DepartureNotices(s, userId, rooms, m)
    ensures forall d :: d in DepartureNotices(s, userId, rooms, m) ==>
      exists r :: r in rooms && r != s && (d == Delivery(m[r], Participants(|m[r]| - 1)) || d == Delivery(m[r] - {s}, UserLeft(s, userId)))
    ensures forall d :: d in DepartureNotices(s, userId, rooms, m) && d.event.Participants? ==>
      s in d.to && d.event.count == |d.to - {s}|
    ensures forall d :: d in DepartureNotices(s, userId, rooms, m) && d.event.UserLeft? ==> s !in d.to
  {
    DeparturesReachRooms(s, userId, rooms, m);
    DeparturesComeFromRooms(s, userId, rooms, m);
    forall d | d in DepartureNotices(s, userId, rooms, m) && d.event.Participants?
      ensures s in d.to && d.event.count == |d.to - {s}|
    {
      var r :| r in rooms && r != s && (d == Delivery(m[r], Participants(|m[r]| - 1)) || d == Delivery(m[r] - {s}, UserLeft(s, userId)));
      assert |m[r] - {s}| == |m[r]| - 1;
    }
  }

  /**
   * Every connected socket has an identity and a room list that holds its own
   * room and has no repeats; the room lists and the member sets describe the
   * same relation; no room is empty.
   */
  predicate Consistent(ids: Identities, lists: RoomLists, m: Membership) {
    && ids.Keys == lists.Keys
    && (forall s :: s in lists ==> s in lists[s] && Distinct(lists[s]))
    && (forall s, r :: s in lists && r in lists[s] ==> r in m && s in m[r])
    && (forall r, s :: r in m && s in m[r] ==> s in lists && r in lists[s])
    && (forall r :: r in m ==> m[r] != {})
  }

  /** `s` added to the member set of `r`, which is created when missing. */
  function AddMember(m: Membership, r: RoomId, s: SocketId): (m': Membership)
    ensures r in m' && s in m'[r]
    ensures forall x :: x in m' <==> x in m || x == r
  {
    m[r := (if r in m then m[r] else {}) + {s}]
  }

  /** A new socket, in its own room only, keeps the state consistent. */
  lemma ConnectKeepsConsistent(ids: Identities, lists: RoomLists, m: Membership, s: SocketId, who: Identity)
    requires Consistent(ids, lists, m) && s !in lists
    ensures Consistent(ids[s := who], lists[s := [s]], AddMember(m, s, s))
  {
    var lists', m' := lists[s := [s]], AddMember(m, s, s);
    forall t, r | t in lists' && r in lists'[t] ensures r in m' && t in m'[r] {
      if t != s {
        assert r in m && t in m[r];
      }
    }
  }

  /** Joining a room keeps the state consistent. */
  lemma JoinKeepsConsistent(ids: Identities, lists: RoomLists, m: Membership, s: SocketId, r: RoomId)
    requires Consistent(ids, lists, m) && s in lists
    ensures Consistent(ids, lists[s := Enlist(lists[s], r)], AddMember(m, r, s))
  {
    var q := Enlist(lists[s], r);
    assert Distinct(q) by {
      if r !in lists[s] {
        forall i, j | 0 <= i < j < |q| ensures q[i] != q[j] {
          if j == |q| - 1 {
            assert q[i] in lists[s];
          }
        }
      }
    }
  }

  /** Joining a room the socket is already in changes nothing: membership is a set. */
  lemma RejoinChangesNothing(ids: Identities, lists: RoomLists, m: Membership, s: SocketId, r: RoomId)
    requires Consistent(ids, lists, m) && r in m && s in m[r]
    ensures s in lists && lists[s := Enlist(lists[s], r)] == lists
    ensures AddMember(m, r, s) == m
  {
    assert m[r] + {s} == m[r];
  }

  /** Removing a socket from every room and forgetting it keeps the state consistent. */
  lemma LeaveKeepsConsistent(ids: Identities, lists: RoomLists, m: Membership, s: SocketId)
    requires Consistent(ids, lists, m) && s in lists
    ensures Consistent(ids - {s}, lists - {s}, Vacate(m, s))
    ensures forall r :: r in lists[s] ==> r in m && s in m[r]
  {
    var m' := Vacate(m, s);
    forall t, r | t in lists - {s} && r in (lists - {s})[t] ensures r in m' && t in m'[r] {
      assert t in m[r];
      assert t in m[r] - {s};
    }
  }

  /** The hub's state: who each socket is, which rooms it is in, who is in each room, and what has been emitted. */
  class RelayHub {
    var identities: map<SocketId, Identity>
    var socketRooms: map<SocketId, seq<RoomId>>
    var members: Membership
    var outbox: seq<Delivery>

    ghost predicate Valid()
      reads this
    {
      Consistent(identities, socketRooms, members)
    }

    function RoomMembers(r: RoomId): set<SocketId>
      reads this
    {
      if r in members then members[r] else {}
    }

    /** `socket.to(r)`: the members of `r` other than the sender, who need not be a member itself. */
    function Others(r: RoomId, s: SocketId): (to: set<SocketId>)
      reads this
      ensures s !in to && forall t :: t in to <==> t in RoomMembers(r) && t != s
    {
      RoomMembers(r) - {s}
    }

    constructor ()
      ensures Valid()
      ensures identities == map[] && socketRooms == map[] && members == map[] && outbox == []
    {
      identities, socketRooms, members, outbox := map[], map[], map[], [];
    }

    /** A new connection: the handshake token decides its identity, and it joins its own room. */
    method Connect(s: SocketId, token: JsValue, verify: Verifier)
      requires Valid() && s !in socketRooms
      modifies this
      ensures Valid()
      ensures identities == old(identities)[s := SocketIdentity(token, verify)]
      ensures socketRooms == old(socketRooms)[s := [s]]
      ensures members == AddMember(old(members), s, s)
      ensures outbox == old(outbox)
    {
      ConnectKeepsConsistent(identities, socketRooms, members, s, SocketIdentity(token, verify));
      identities := identities[s := SocketIdentity(token, verify)];
      members := AddMember(members, s, s);
      socketRooms := socketRooms[s := [s]];
    }

    /** The `join-room` / `Join-room` handler. */
    method Join(s: SocketId, roomId: RoomId, lookup: Lookup)
      requires Valid() && s in socketRooms
      modifies this
      ensures Valid()
      ensures identities == old(identities)
      ensures lookup.LookupThrows? ==> socketRooms == old(socketRooms) && members == old(members)
      ensures !lookup.LookupThrows? ==>
        && socketRooms == old(socketRooms)[s := Enlist(old(socketRooms)[s], roomId)]
        && members == AddMember(old(members), roomId, s)
      ensures outbox == old(outbox) +
        (if lookup.LookupThrows? then [] else JoinNotices(s, identities[s], lookup, RoomMembers(roomId)))
    {
      if lookup.LookupThrows? {
        return;
      }
      var who := identities[s];
      JoinKeepsConsistent(identities, socketRooms, members, s, roomId);
      members := AddMember(members, roomId, s);
      socketRooms := socketRooms[s := Enlist(socketRooms[s], roomId)];
      if lookup.NoRecord? && Truthy(who.userId) {
        return;
      }
      var room := members[roomId];
      outbox := outbox + [Delivery(room - {s}, UserJoined(s, who.userId))];
      outbox := outbox + [Delivery(room, Participants(|room|))];
    }

    /** The `play`, `pause` and `seek` handlers: the incoming time goes to the other members, from the host or an admin only. */
    method Control(s: SocketId, kind: ControlKind, roomId: RoomId, time: JsValue, lookup: Lookup)
      requires s in identities
      modifies this`outbox
      ensures outbox == old(outbox) +
        (if MayControl(lookup, identities[s]) then [Delivery(Others(roomId, s), Playback(kind, time))] else [])
    {
      if !lookup.Record? {
        return;
      }
      var who := identities[s];
      if ToString(lookup.host) != ToString(who.userId) && !who.isAdmin {
        return;
      }
      outbox := outbox + [Delivery(Others(roomId, s), Playback(kind, time))];
    }

    /** The `chat` handler: the sanitised text and the sender-supplied `user` go to the other members, unless the text is empty. */
    method Chat(s: SocketId, roomId: RoomId, message: JsValue, user: JsValue)
      modifies this`outbox
      ensures outbox == old(outbox) +
        (if ChatText(message) == [] then [] else [Delivery(Others(roomId, s), ChatLine(ChatText(message), user))])
    {
      var msg := ChatText(message);
      if msg == [] {
        return;
      }
      outbox := outbox + [Delivery(Others(roomId, s), ChatLine(msg, user))];
    }

    /** The `webrtc-offer`, `webrtc-answer` and `webrtc-ice` handlers: the payload goes unchanged to the other members, unchecked. */
    method Relay(s: SocketId, kind: SignalKind, roomId: RoomId, payload: JsValue)
      modifies this`outbox
      ensures outbox == old(outbox) + [Delivery(Others(roomId, s), Signal(kind, payload))]
    {
      outbox := outbox + [Delivery(Others(roomId, s), Signal(kind, payload))];
    }

    /**
     * The `disconnecting` handler: the socket is still in its rooms; for each of
     * them except its own, the remaining head count goes to the whole room and
     * `user-left` to the others.
     */
    method AnnounceDeparture(s: SocketId)
      requires s in socketRooms && s in identities
      modifies this`outbox
      ensures outbox == old(outbox) + DepartureNotices(s, identities[s].userId, socketRooms[s], members)
    {
      var rooms := socketRooms[s];
      var userId := identities[s].userId;
      var i := 0;
      while i < |rooms|
        invariant 0 <= i <= |rooms|
        invariant outbox == old(outbox) + DepartureNotices(s, userId, rooms[..i], members)
      {
        var roomId := rooms[i];
        ghost var sent := DepartureNotices(s, userId, rooms[..i], members);
        ghost var next := DepartureNotices(s, userId, rooms[..i + 1], members);
        DepartureStep(s, userId, rooms, i, members);
        if roomId == s {
          assert next == sent;
        } else {
          var size := if roomId in members && |members[roomId]| != 0 then |members[roomId]| else 1;
          var after := if size - 1 < 0 then 0 else size - 1;
          ghost var leave := LeaveNotices(s, userId, roomId, members);
          assert leave == [Delivery(RoomMembers(roomId), Participants(after)), Delivery(RoomMembers(roomId) - {s}, UserLeft(s, userId))];
          outbox := outbox + [Delivery(RoomMembers(roomId), Participants(after))];
          outbox := outbox + [Delivery(RoomMembers(roomId) - {s}, UserLeft(s, userId))];
          assert outbox == old(outbox) + (sent + leave);
        }
        assert outbox == old(outbox) + next;
        i := i + 1;
      }
      assert rooms[..|rooms|] == rooms;
    }

    /** A disconnect: the `disconnecting` notices, then the socket leaves every room and is forgotten. */
    method Disconnect(s: SocketId)
      requires Valid() && s in socketRooms
      modifies this
      ensures Valid()
      ensures outbox == old(outbox) + DepartureNotices(s, old(identities)[s].userId, old(socketRooms)[s], old(members))
      ensures members == Vacate(old(members), s)
      ensures socketRooms == old(socketRooms) - {s} && identities == old(identities) - {s}
    {
      AnnounceDeparture(s);
      LeaveKeepsConsistent(identities, socketRooms, members, s);
      members := Vacate(members, s);
      socketRooms := socketRooms - {s};
      identities := identities - {s};
    }
  }
}
