/** The chat tables (`chats`, `chat_members`, `messages`) as in-memory
    sequences of rows, and the SQL predicates the chat handlers share. */
module ChatStore {
  import opened Wrappers
  import opened Seqs

  type UserId = nat
  type ChatId = nat
  type MessageId = nat
  /** `created_at`, kept as an integer instant */
  type Timestamp = int

  /** The `type` column of a direct chat */
  const DirectKind := "direct"

  /** A `chats` row; `name` is NULL for direct chats */
  datatype Chat = Chat(id: ChatId, name: Option<string>, kind: string)

  /** A `chat_members` row */
  datatype Member = Member(chat: ChatId, user: UserId, isAdmin: bool)

  /** A `messages` row; a NULL `sender` marks a system message */
  datatype Message = Message(
    id: MessageId,
    chat: ChatId,
    sender: Option<UserId>,
    content: string,
    attachmentUrl: Option<string>,
    attachmentType: Option<string>,
    isRead: bool,
    createdAt: Timestamp)

  /** The three tables, with the next values of the two id sequences */
  datatype Store = Store(
    chats: seq<Chat>,
    members: seq<Member>,
    messages: seq<Message>,
    nextChatId: ChatId,
    nextMessageId: MessageId)

  /** Ids are distinct and below the next value of their sequence, and
      every member row refers to an id already drawn from the chat sequence
      (the foreign key of `chat_members.chat_id`) */
  predicate Valid(db: Store) {
    && (forall i :: 0 <= i < |db.members| ==> db.members[i].chat < db.nextChatId)
    && (forall i :: 0 <= i < |db.chats| ==> db.chats[i].id < db.nextChatId)
    && (forall i, j :: 0 <= i < j < |db.chats| ==> db.chats[i].id != db.chats[j].id)
    && (forall i :: 0 <= i < |db.messages| ==> db.messages[i].id < db.nextMessageId)
    && (forall i, j :: 0 <= i < j < |db.messages| ==> db.messages[i].id != db.messages[j].id)
  }

  /** `SELECT user_id FROM chat_members WHERE chat_id = c`, in table order */
  function MembersOf(rows: seq<Member>, c: ChatId): (r: seq<UserId>)
    ensures |r| <= |rows|
    ensures forall i :: 0 <= i < |rows| && rows[i].chat == c ==> rows[i].user in r
    ensures forall u :: u in r ==> exists i :: 0 <= i < |rows| && rows[i].chat == c && rows[i].user == u
    ensures (forall i :: 0 <= i < |rows| ==> rows[i].chat != c) ==> r == []
    decreases |rows|
  {
    if |rows| == 0 then []
    else
      var rest := MembersOf(rows[1..], c);
      assert forall i :: 1 <= i < |rows| ==> rows[i] == rows[1..][i - 1];
      if rows[0].chat == c then [rows[0].user] + rest else rest
  }

  lemma {:induction false} MembersOfAppend(a: seq<Member>, b: seq<Member>, c: ChatId)
    ensures MembersOf(a + b, c) == MembersOf(a, c) + MembersOf(b, c)
    decreases |a|
  {
    if |a| == 0 {
      assert a + b == b;
    } else {
      assert (a + b)[0] == a[0];
      assert (a + b)[1..] == a[1..] + b;
      MembersOfAppend(a[1..], b, c);
    }
  }

  /** Inserting a chat under the next id, with member rows for it, keeps
      the store valid; no existing chat has that id and no existing member
      row refers to it */
  lemma AddChatKeepsValid(db: Store, chat: Chat, extra: seq<Member>)
    requires chat.id == db.nextChatId
    requires forall i :: 0 <= i < |extra| ==> extra[i].chat == chat.id
    ensures Valid(db) ==> Valid(db.(chats := db.chats + [chat], members := db.members + extra, nextChatId := db.nextChatId + 1))
    ensures Valid(db) ==> !HasChat(db, chat.id)
    ensures Valid(db) ==> MembersOf(db.members, chat.id) == []
  {
    var chats := db.chats + [chat];
    assert forall i :: 0 <= i < |db.chats| ==> chats[i] == db.chats[i];
    var members := db.members + extra;
    assert forall i :: 0 <= i < |db.members| ==> members[i] == db.members[i];
    assert forall i :: 0 <= i < |extra| ==> members[|db.members| + i] == extra[i];
  }

  /** The `chat_members` row check `chat_id = c AND user_id = u` */
  predicate IsMember(db: Store, c: ChatId, u: UserId) {
    u in MembersOf(db.members, c)
  }

  predicate HasChat(db: Store, c: ChatId) {
    exists i :: 0 <= i < |db.chats| && db.chats[i].id == c
  }

  /** `m.chat_id = c AND m.sender_id != u AND m.is_read = FALSE`. Under SQL's
      three-valued logic `NULL != u` is not true, so a system message never
      qualifies. */
  predicate CountsAsUnread(m: Message, c: ChatId, u: UserId) {
    m.chat == c && m.sender.Some? && m.sender.value != u && !m.isRead
  }

  /** The `unread` scalar subquery of the chat list */
  function Unread(msgs: seq<Message>, c: ChatId, u: UserId): nat {
    CountIf(msgs, (m: Message) => CountsAsUnread(m, c, u))
  }

  /** The messages of chat `c`, in table order */
  function ChatMessages(msgs: seq<Message>, c: ChatId): (r: seq<Message>)
    ensures forall i :: 0 <= i < |r| ==> r[i].chat == c && r[i] in msgs
    ensures forall i :: 0 <= i < |msgs| && msgs[i].chat == c ==> msgs[i] in r
  {
    Filter(msgs, (m: Message) => m.chat == c)
  }

  /** `ORDER BY created_at DESC LIMIT 1`: a message with the greatest
      `created_at`, the earliest in table order among equals */
  function Latest(msgs: seq<Message>): (r: Option<Message>)
    ensures r.None? <==> |msgs| == 0
    ensures r.Some? ==> r.value in msgs
    ensures r.Some? ==> forall i :: 0 <= i < |msgs| ==> msgs[i].createdAt <= r.value.createdAt
    decreases |msgs|
  {
    if |msgs| == 0 then None
    else
      match Latest(msgs[1..])
      case None => Some(msgs[0])
      case Some(m) => if msgs[0].createdAt >= m.createdAt then Some(msgs[0]) else Some(m)
  }
}
