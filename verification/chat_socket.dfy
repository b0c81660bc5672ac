/** The push side of the chat core: the registry of live sockets, the rooms
    they have joined, the set of online users, and the handlers for
    `connection`, `join_chat`, `leave_chat`, `send_message` and `disconnect`.
    Each handler is a pure transition returning the new registry (and, for
    `send_message`, the new store) with the list of events it emits. */
module ChatSocket {
  import opened Wrappers
  import opened Seqs
  import opened Decimal
  import opened Js
  import opened ChatStore

  type SocketId = string
  type RoomName = string

  /** The room of a chat: `String(chatId)` */
  function ChatRoom(c: ChatId): RoomName {
    FromNat(c)
  }

  /** A user's personal room: `user_${id}` */
  function PersonalRoom(u: UserId): RoomName {
    "user_" + FromNat(u)
  }

  lemma PersonalRoomInjective(a: UserId, b: UserId)
    ensures PersonalRoom(a) == PersonalRoom(b) <==> a == b
  {
    if PersonalRoom(a) == PersonalRoom(b) {
      assert FromNat(a) == PersonalRoom(a)[5..] && FromNat(b) == PersonalRoom(b)[5..];
      FromNatInjective(a, b);
    }
  }

  /** A chat room is never anyone's personal room */
  lemma ChatRoomIsNotPersonal(c: ChatId, u: UserId)
    ensures ChatRoom(c) != PersonalRoom(u)
  {
    assert IsDigit(ChatRoom(c)[0]);
    assert PersonalRoom(u)[0] == 'u';
  }

  /** Each live socket with the user id its handshake resolved (`None` when
      it carries no authenticated user), the rooms, and `onlineUsers`.
      User ids are kept as numbers: `String(id)` is injective on them. */
  datatype Hub = Hub(
    sockets: map<SocketId, Option<UserId>>,
    rooms: map<RoomName, set<SocketId>>,
    online: set<UserId>)

  /** Only live sockets are in rooms */
  predicate Valid(h: Hub) {
    forall r :: r in h.rooms ==> h.rooms[r] <= h.sockets.Keys
  }

  /** The sockets in `room`; a room nobody joined is empty */
  function InRoom(h: Hub, room: RoomName): set<SocketId> {
    if room in h.rooms then h.rooms[room] else {}
  }

  /** The `attachment` object a client sends: an optional url and type */
  datatype Attachment = Attachment(url: Option<string>, kind: Option<string>)

  /** The `receive_message` payload */
  datatype Outgoing = Outgoing(
    id: MessageId,
    senderId: UserId,
    text: string,
    createdAt: Timestamp,
    isMe: bool,
    attachment: Option<Attachment>,
    chatId: ChatId,
    isRead: bool)

  datatype Event =
    | UserOnline(user: UserId)
    | UserOffline(user: UserId)
    | OnlineUsers(users: set<UserId>)
    | ReceiveMessage(message: Outgoing)

  /** `io.emit` reaches every live socket, `socket.emit` one socket,
      `io.to(room).emit` the sockets in a room */
  datatype Target = Everyone | ToSocket(socket: SocketId) | ToRoom(room: RoomName)

  datatype Emit = Emit(target: Target, event: Event)

  /** The sockets an emit reaches */
  function Recipients(h: Hub, e: Emit): set<SocketId> {
    match e.target
    case Everyone => h.sockets.Keys
    case ToSocket(s) => if s in h.sockets then {s} else {}
    case ToRoom(r) => InRoom(h, r)
  }

  function AddToRoom(h: Hub, room: RoomName, s: SocketId): (h': Hub)
    ensures InRoom(h', room) == InRoom(h, room) + {s}
    ensures forall r :: r != room ==> InRoom(h', r) == InRoom(h, r)
    ensures h'.sockets == h.sockets && h'.online == h.online
    ensures Valid(h) && s in h.sockets ==> Valid(h')
  {
    h.(rooms := h.rooms[room := InRoom(h, room) + {s}])
  }

  // ---------------------------------------------------------------------
  // Presence

  /** `connection`: an authenticated socket marks its user online, tells
      everyone, sends the newcomer the online set and joins its personal
      room. A socket without a (truthy) user id does none of this. */
  function Connect(h: Hub, s: SocketId, user: Option<UserId>): (res: (Hub, seq<Emit>))
    requires s !in h.sockets
    ensures var (h', out) := res;
      h'.sockets == h.sockets[s := user]
    ensures var (h', out) := res;
      TruthyId(user) ==>
        && h'.online == h.online + {user.value}
        && out == [Emit(Everyone, UserOnline(user.value)), Emit(ToSocket(s), OnlineUsers(h'.online))]
        && InRoom(h', PersonalRoom(user.value)) == InRoom(h, PersonalRoom(user.value)) + {s}
        && (forall r :: r != PersonalRoom(user.value) ==> InRoom(h', r) == InRoom(h, r))
    ensures var (h', out) := res;
      !TruthyId(user) ==> h'.online == h.online && h'.rooms == h.rooms && out == []
    ensures Valid(h) ==> Valid(res.0)
  {
    var h1 := h.(sockets := h.sockets[s := user]);
    if TruthyId(user) then
      var u := user.value;
      var h2 := h1.(online := h1.online + {u});
      (AddToRoom(h2, PersonalRoom(u), s), [Emit(Everyone, UserOnline(u)), Emit(ToSocket(s), OnlineUsers(h2.online))])
    else (h1, [])
  }

  /** `disconnect`: the socket leaves every room; if it had a user id, that
      user is removed from the online set and everyone is told, whether or
      not the user still has another socket open */
  function Disconnect(h: Hub, s: SocketId): (res: (Hub, seq<Emit>))
    requires s in h.sockets
    ensures var (h', out) := res;
      h'.sockets == h.sockets - {s}
    ensures var (h', out) := res;
      forall r :: InRoom(h', r) == InRoom(h, r) - {s}
    ensures var (h', out) := res;
      TruthyId(h.sockets[s]) ==>
        && h'.online == h.online - {h.sockets[s].value}
        && out == [Emit(Everyone, UserOffline(h.sockets[s].value))]
    ensures var (h', out) := res;
      !TruthyId(h.sockets[s]) ==> h'.online == h.online && out == []
    ensures Valid(h) ==> Valid(res.0)
  {
    var user := h.sockets[s];
    var rooms := map r | r in h.rooms :: h.rooms[r] - {s};
    var h1 := Hub(h.sockets - {s}, rooms, h.online);
    if TruthyId(user) then
      (h1.(online := h.online - {user.value}), [Emit(Everyone, UserOffline(user.value))])
    else (h1, [])
  }

  /** A user with two open sockets is reported offline as soon as either one
      disconnects, while the other is still connected under that user */
  lemma OfflineWhileAnotherSocketIsOpen(h: Hub, s1: SocketId, s2: SocketId)
    requires s1 in h.sockets && s2 in h.sockets && s1 != s2
    requires TruthyId(h.sockets[s1]) && h.sockets[s2] == h.sockets[s1]
    ensures var (h', out) := Disconnect(h, s1);
      && s2 in h'.sockets && h'.sockets[s2] == h.sockets[s1]
      && h.sockets[s1].value !in h'.online
      && Emit(Everyone, UserOffline(h.sockets[s1].value)) in out
  {
  }

  /** Connecting and then disconnecting a fresh socket restores the online
      set, except that its user is now offline */
  lemma ConnectThenDisconnect(h: Hub, s: SocketId, user: Option<UserId>)
    requires s !in h.sockets
    ensures var (h1, _) := Connect(h, s, user);
      s in h1.sockets &&
      var (h2, _) := Disconnect(h1, s);
      && h2.sockets == h.sockets
      && (TruthyId(user) ==> h2.online == h.online - {user.value})
      && (!TruthyId(user) ==> h2.online == h.online)
  {
    var (h1, _) := Connect(h, s, user);
    var (h2, _) := Disconnect(h1, s);
    assert h2.sockets == h.sockets;
  }

  // ---------------------------------------------------------------------
  // Rooms

  /** `join_chat`: join the room named `String(chatId)`, for any value the
      client sends; no membership is checked */
  function JoinChat(h: Hub, s: SocketId, room: RoomName): (h': Hub)
    requires s in h.sockets
    ensures InRoom(h', room) == InRoom(h, room) + {s}
    ensures forall r :: r != room ==> InRoom(h', r) == InRoom(h, r)
    ensures h'.sockets == h.sockets && h'.online == h.online
    ensures Valid(h) ==> Valid(h')
  {
    AddToRoom(h, room, s)
  }

  /** `leave_chat`: leave the room named `String(chatId)` */
  function LeaveChat(h: Hub, s: SocketId, room: RoomName): (h': Hub)
    requires s in h.sockets
    ensures InRoom(h', room) == InRoom(h, room) - {s}
    ensures forall r :: r != room ==> InRoom(h', r) == InRoom(h, r)
    ensures h'.sockets == h.sockets && h'.online == h.online
    ensures Valid(h) ==> Valid(h')
  {
    if room in h.rooms then h.(rooms := h.rooms[room := h.rooms[room] - {s}]) else h
  }

  /** Joining and then leaving a room the socket was not in restores it */
  lemma JoinThenLeave(h: Hub, s: SocketId, room: RoomName)
    requires s in h.sockets && s !in InRoom(h, room)
    ensures forall r :: InRoom(LeaveChat(JoinChat(h, s, room), s, room), r) == InRoom(h, r)
  {
  }

  // ---------------------------------------------------------------------
  // Sending

  /** The `send_message` payload; `senderId` is what the client claims */
  datatype SendRequest = SendRequest(
    chatId: ChatId,
    senderId: Option<UserId>,
    text: string,
    attachment: Option<Attachment>)

  /** How the two store calls of `send_message` turn out */
  datatype StoreOutcome = InsertFails | MembersQueryFails | Succeeds

  /** The read-flag rule: some socket in the chat's room carries a (truthy)
      user id other than the sender's */
  predicate SomeoneElseInRoom(h: Hub, room: RoomName, sender: UserId) {
    exists t :: t in InRoom(h, room) && t in h.sockets && TruthyId(h.sockets[t]) && h.sockets[t].value != sender
  }

  /** The row the insert adds */
  function NewMessage(h: Hub, db: Store, sender: UserId, req: SendRequest, now: Timestamp): (m: Message)
    ensures m.id == db.nextMessageId && m.chat == req.chatId && m.sender == Some(sender)
    ensures m.content == req.text && m.createdAt == now
    ensures m.isRead <==> SomeoneElseInRoom(h, ChatRoom(req.chatId), sender)
    ensures m.attachmentUrl.Some? <==> req.attachment.Some? && Given(req.attachment.value.url)
    ensures m.attachmentType.Some? <==> req.attachment.Some? && Given(req.attachment.value.kind)
  {
    Message(
      db.nextMessageId, req.chatId, Some(sender), req.text,
      if req.attachment.Some? then OrNull(req.attachment.value.url) else None,
      if req.attachment.Some? then OrNull(req.attachment.value.kind) else None,
      SomeoneElseInRoom(h, ChatRoom(req.chatId), sender),
      now)
  }

  /** One `receive_message` to the personal room of each member, in the
      order the member query returns them */
  function FanOut(members: seq<UserId>, payload: Outgoing): (out: seq<Emit>)
    ensures |out| == |members|
    ensures forall i :: 0 <= i < |out| ==> out[i] == Emit(ToRoom(PersonalRoom(members[i])), ReceiveMessage(payload))
  {
    seq(|members|, i requires 0 <= i < |members| => Emit(ToRoom(PersonalRoom(members[i])), ReceiveMessage(payload)))
  }

  /** `send_message`. The sender is the socket's own user id; the client's
      `senderId` is ignored. A socket without a user fails before anything
      happens. The message is stored, read when someone else is in the
      chat's room, and only then fanned out to every member's personal room.
      Neither store failure produces an emit. */
  function SendMessage(h: Hub, db: Store, s: SocketId, req: SendRequest, outcome: StoreOutcome, now: Timestamp)
    : (res: (Store, seq<Emit>))
    requires s in h.sockets
    ensures var (db', out) := res;
      h.sockets[s].None? || outcome == InsertFails ==> db' == db && out == []
    ensures var (db', out) := res;
      h.sockets[s].Some? && outcome != InsertFails ==>
        && db' == db.(messages := db.messages + [NewMessage(h, db, h.sockets[s].value, req, now)],
                      nextMessageId := db.nextMessageId + 1)
        && (outcome == MembersQueryFails ==> out == [])
    ensures var (db', out) := res;
      out != [] ==> outcome == Succeeds && |db'.messages| == |db.messages| + 1
    ensures var (db', out) := res;
      h.sockets[s].Some? && outcome == Succeeds ==>
        var m := NewMessage(h, db, h.sockets[s].value, req, now);
        out == FanOut(MembersOf(db.members, req.chatId),
                      Outgoing(m.id, h.sockets[s].value, req.text, now, false, req.attachment, req.chatId, m.isRead))
    ensures ChatStore.Valid(db) ==> ChatStore.Valid(res.0)
  {
    match h.sockets[s]
    case None => (db, [])
    case Some(sender) =>
      if outcome == InsertFails then (db, [])
      else
        var m := NewMessage(h, db, sender, req, now);
        var db' := db.(messages := db.messages + [m], nextMessageId := db.nextMessageId + 1);
        if outcome == MembersQueryFails then (db', [])
        else
          var payload := Outgoing(m.id, sender, req.text, now, false, req.attachment, req.chatId, m.isRead);
          (db', FanOut(MembersOf(db'.members, req.chatId), payload))
  }

  /** What the client claims as `senderId` makes no difference */
  lemma SenderClaimIgnored(h: Hub, db: Store, s: SocketId, req: SendRequest, claim: Option<UserId>,
                           outcome: StoreOutcome, now: Timestamp)
    requires s in h.sockets
    ensures SendMessage(h, db, s, req.(senderId := claim), outcome, now) == SendMessage(h, db, s, req, outcome, now)
  {
    var req' := req.(senderId := claim);
    if h.sockets[s].Some? {
      assert NewMessage(h, db, h.sockets[s].value, req', now) == NewMessage(h, db, h.sockets[s].value, req, now);
    }
  }

  /** Every emit of a send carries the same payload, and a member's personal
      room is addressed exactly when the user is a member of the chat */
  lemma FanOutReachesMembers(h: Hub, db: Store, s: SocketId, req: SendRequest, now: Timestamp)
    requires s in h.sockets && h.sockets[s].Some?
    ensures var (db', out) := SendMessage(h, db, s, req, Succeeds, now);
      && (forall i, j :: 0 <= i < |out| && 0 <= j < |out| ==> out[i].event == out[j].event)
      && (forall i :: 0 <= i < |out| ==> out[i].event.ReceiveMessage? && out[i].event.message.id == db.nextMessageId)
      && (forall v: UserId :: (exists i :: 0 <= i < |out| && out[i].target == ToRoom(PersonalRoom(v)))
                               <==> IsMember(db, req.chatId, v))
  {
    var (db', out) := SendMessage(h, db, s, req, Succeeds, now);
    var sender := h.sockets[s].value;
    var m := NewMessage(h, db, sender, req, now);
    var payload := Outgoing(m.id, sender, req.text, now, false, req.attachment, req.chatId, m.isRead);
    assert out == FanOut(MembersOf(db.members, req.chatId), payload);
    FanOutTargets(MembersOf(db.members, req.chatId), payload);
  }

  /** A fan-out addresses a user's personal room exactly when the user is
      among the recipients */
  lemma FanOutTargets(ms: seq<UserId>, payload: Outgoing)
    ensures var out := FanOut(ms, payload);
      forall v: UserId :: (exists i :: 0 <= i < |out| && out[i].target == ToRoom(PersonalRoom(v))) <==> v in ms
  {
    var out := FanOut(ms, payload);
    forall v: UserId
      ensures (exists i :: 0 <= i < |out| && out[i].target == ToRoom(PersonalRoom(v))) <==> v in ms
    {
      if exists i :: 0 <= i < |out| && out[i].target == ToRoom(PersonalRoom(v)) {
        var i :| 0 <= i < |out| && out[i].target == ToRoom(PersonalRoom(v));
        PersonalRoomInjective(ms[i], v);
      }
      if v in ms {
        var i :| 0 <= i < |ms| && ms[i] == v;
        assert out[i].target == ToRoom(PersonalRoom(v));
      }
    }
  }


  /** Every live socket of a user sits in that user's personal room */
  predicate PersonalRoomsJoined(h: Hub) {
    forall t :: t in h.sockets && TruthyId(h.sockets[t]) ==> t in InRoom(h, PersonalRoom(h.sockets[t].value))
  }

  lemma ConnectKeepsPersonalRooms(h: Hub, s: SocketId, user: Option<UserId>)
    requires s !in h.sockets && PersonalRoomsJoined(h)
    ensures PersonalRoomsJoined(Connect(h, s, user).0)
  {
    var h' := Connect(h, s, user).0;
    forall t | t in h'.sockets && TruthyId(h'.sockets[t])
      ensures t in InRoom(h', PersonalRoom(h'.sockets[t].value))
    {
      if t != s && TruthyId(user) {
        assert h'.sockets[t] == h.sockets[t];
        if PersonalRoom(h.sockets[t].value) != PersonalRoom(user.value) {
          assert InRoom(h', PersonalRoom(h.sockets[t].value)) == InRoom(h, PersonalRoom(h.sockets[t].value));
        }
      }
    }
  }

  lemma DisconnectKeepsPersonalRooms(h: Hub, s: SocketId)
    requires s in h.sockets && PersonalRoomsJoined(h)
    ensures PersonalRoomsJoined(Disconnect(h, s).0)
  {
    var h' := Disconnect(h, s).0;
    forall t | t in h'.sockets && TruthyId(h'.sockets[t])
      ensures t in InRoom(h', PersonalRoom(h'.sockets[t].value))
    {
      assert InRoom(h', PersonalRoom(h'.sockets[t].value)) == InRoom(h, PersonalRoom(h'.sockets[t].value)) - {s};
    }
  }

  /** Joining a chat room keeps every socket in its personal room */
  lemma JoinChatKeepsPersonalRooms(h: Hub, s: SocketId, room: RoomName)
    requires s in h.sockets && PersonalRoomsJoined(h)
    ensures PersonalRoomsJoined(JoinChat(h, s, room))
  {
    var h' := JoinChat(h, s, room);
    forall t | t in h'.sockets && TruthyId(h'.sockets[t])
      ensures t in InRoom(h', PersonalRoom(h'.sockets[t].value))
    {
      assert t in InRoom(h, PersonalRoom(h.sockets[t].value));
    }
  }

  /** `leave_chat` accepts a personal room name, and a socket that leaves its
      own personal room stops receiving its user's messages */
  lemma LeavePersonalRoom(h: Hub, s: SocketId)
    requires s in h.sockets && TruthyId(h.sockets[s])
    ensures var h' := LeaveChat(h, s, PersonalRoom(h.sockets[s].value));
      !PersonalRoomsJoined(h')
  {
    var h' := LeaveChat(h, s, PersonalRoom(h.sockets[s].value));
    assert s in h'.sockets && TruthyId(h'.sockets[s]) && s !in InRoom(h', PersonalRoom(h'.sockets[s].value));
  }

  /** While every socket sits in its personal room, a successful send reaches
      every live socket of every member of the chat */
  lemma SendReachesEveryMemberSocket(h: Hub, db: Store, s: SocketId, req: SendRequest, now: Timestamp, t: SocketId)
    requires s in h.sockets && h.sockets[s].Some? && PersonalRoomsJoined(h)
    requires t in h.sockets && TruthyId(h.sockets[t]) && IsMember(db, req.chatId, h.sockets[t].value)
    ensures var (db', out) := SendMessage(h, db, s, req, Succeeds, now);
      exists i :: 0 <= i < |out| && out[i].event.ReceiveMessage? && t in Recipients(h, out[i])
  {
    var (db', out) := SendMessage(h, db, s, req, Succeeds, now);
    var v := h.sockets[t].value;
    var ms := MembersOf(db.members, req.chatId);
    var i :| 0 <= i < |ms| && ms[i] == v;
    assert out[i].target == ToRoom(PersonalRoom(v));
  }

  /** `join_chat` accepts a personal room name: any live socket, whoever its
      user is, that joins a member's personal room receives every message
      later sent into the chat */
  lemma JoinForeignPersonalRoom(h: Hub, db: Store, t: SocketId, v: UserId, s: SocketId, req: SendRequest, now: Timestamp)
    requires t in h.sockets && s in h.sockets && h.sockets[s].Some?
    requires IsMember(db, req.chatId, v)
    ensures var h' := JoinChat(h, t, PersonalRoom(v));
      var (db', out) := SendMessage(h', db, s, req, Succeeds, now);
      exists i :: 0 <= i < |out| && out[i].event.ReceiveMessage? && t in Recipients(h', out[i])
  {
    var h' := JoinChat(h, t, PersonalRoom(v));
    var (db', out) := SendMessage(h', db, s, req, Succeeds, now);
    var ms := MembersOf(db.members, req.chatId);
    var i :| 0 <= i < |ms| && ms[i] == v;
    assert out[i].target == ToRoom(PersonalRoom(v));
  }

  /** The effect of a stored message on unread counts: it is unread for every
      other user unless someone else was in the room, and never for the
      sender */
  lemma SendUpdatesUnread(h: Hub, db: Store, s: SocketId, req: SendRequest, outcome: StoreOutcome, now: Timestamp, v: UserId)
    requires s in h.sockets && h.sockets[s].Some? && outcome != InsertFails
    ensures var (db', _) := SendMessage(h, db, s, req, outcome, now);
      var sender := h.sockets[s].value;
      Unread(db'.messages, req.chatId, v) ==
        Unread(db.messages, req.chatId, v)
        + (if v != sender && !SomeoneElseInRoom(h, ChatRoom(req.chatId), sender) then 1 else 0)
  {
    var (db', _) := SendMessage(h, db, s, req, outcome, now);
    var m := NewMessage(h, db, h.sockets[s].value, req, now);
    CountIfAppend(db.messages, [m], (x: Message) => CountsAsUnread(x, req.chatId, v));
  }

  /** Sending into a chat whose room holds no other user leaves exactly one
      more unread message for every other member */
  lemma SendToEmptyRoom(h: Hub, db: Store, s: SocketId, req: SendRequest, now: Timestamp, v: UserId)
    requires s in h.sockets && h.sockets[s].Some? && v != h.sockets[s].value
    requires forall t :: t in InRoom(h, ChatRoom(req.chatId)) && t in h.sockets ==> h.sockets[t] == h.sockets[s]
    ensures var (db', _) := SendMessage(h, db, s, req, Succeeds, now);
      Unread(db'.messages, req.chatId, v) == Unread(db.messages, req.chatId, v) + 1
  {
    SendUpdatesUnread(h, db, s, req, Succeeds, now, v);
  }
}
