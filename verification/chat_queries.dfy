/** The HTTP side of the chat core: the chat list, a chat's history,
    get-or-create of a direct chat, group creation and mark-read. Each
    handler is a pure function of the store and the request; handlers that
    write return the new store beside the response. */
module ChatQueries {
  import opened Wrappers
  import opened Http
  import opened Seqs
  import opened Sorting
  import opened Decimal
  import opened Js
  import opened ChatStore

  /** The `users` columns the chat queries join: name, avatar and email */
  datatype Profile = Profile(name: string, avatarUrl: Option<string>, email: string)

  // ---------------------------------------------------------------------
  // The chat list

  /** One element of the chat list. For a direct chat whose counterpart has a
      `users` row, `name`, `avatar`, `email` and `otherUserId` describe the
      counterpart; otherwise the last three are absent. */
  datatype ChatSummary = ChatSummary(
    id: ChatId,
    name: Option<string>,
    kind: string,
    lastMessage: Option<string>,
    lastMessageTime: Option<Timestamp>,
    unread: nat,
    members: seq<UserId>,
    avatar: Option<string>,
    email: Option<string>,
    otherUserId: Option<UserId>)

  /** The first row of `SELECT u.* FROM chat_members cm JOIN users u ...
      WHERE cm.chat_id = c AND cm.user_id != u` */
  function OtherMember(rows: seq<Member>, profiles: map<UserId, Profile>, c: ChatId, u: UserId): (r: Option<UserId>)
    ensures r.Some? ==> r.value != u && r.value in profiles && r.value in MembersOf(rows, c)
    ensures r.None? ==> forall i :: 0 <= i < |rows| && rows[i].chat == c && rows[i].user != u ==> rows[i].user !in profiles
    decreases |rows|
  {
    if |rows| == 0 then None
    else if rows[0].chat == c && rows[0].user != u && rows[0].user in profiles then Some(rows[0].user)
    else
      var r := OtherMember(rows[1..], profiles, c, u);
      assert forall i :: 1 <= i < |rows| ==> rows[i] == rows[1..][i - 1];
      r
  }

  /** The latest message of a chat is one of its messages, created no
      earlier than any other; there is none exactly when the chat is empty */
  lemma LatestOfChat(msgs: seq<Message>, c: ChatId)
    ensures var last := Latest(ChatMessages(msgs, c));
      && (last.None? <==> forall i :: 0 <= i < |msgs| ==> msgs[i].chat != c)
      && (last.Some? ==> last.value in msgs && last.value.chat == c)
      && (last.Some? ==> forall i :: 0 <= i < |msgs| && msgs[i].chat == c ==> msgs[i].createdAt <= last.value.createdAt)
  {
    var ms := ChatMessages(msgs, c);
    var last := Latest(ms);
    if last.Some? {
      forall i | 0 <= i < |msgs| && msgs[i].chat == c ensures msgs[i].createdAt <= last.value.createdAt {
        var k :| 0 <= k < |ms| && ms[k] == msgs[i];
      }
      var k :| 0 <= k < |ms| && ms[k] == last.value;
    }
  }

  /** The columns of the chat-list query for `chat`: its own name, the
      last message, the caller's unread count and the members */
  function QueryRow(db: Store, chat: Chat, u: UserId): (r: ChatSummary)
    ensures r.id == chat.id && r.name == chat.name && r.kind == chat.kind
    ensures r.unread == Unread(db.messages, chat.id, u)
    ensures r.members == MembersOf(db.members, chat.id)
    ensures r.avatar.None? && r.email.None? && r.otherUserId.None?
    ensures r.lastMessage.None? <==> r.lastMessageTime.None?
    ensures r.lastMessageTime.None? <==> forall i :: 0 <= i < |db.messages| ==> db.messages[i].chat != chat.id
    ensures r.lastMessageTime.Some? ==>
      && r.lastMessage.Some?
      && (exists i :: 0 <= i < |db.messages| && db.messages[i].chat == chat.id
                    && db.messages[i].createdAt == r.lastMessageTime.value
                    && db.messages[i].content == r.lastMessage.value)
      && (forall i :: 0 <= i < |db.messages| && db.messages[i].chat == chat.id ==>
                    db.messages[i].createdAt <= r.lastMessageTime.value)
  {
    var last := Latest(ChatMessages(db.messages, chat.id));
    LatestOfChat(db.messages, chat.id);
    ChatSummary(
      chat.id, chat.name, chat.kind,
      if last.Some? then Some(last.value.content) else None,
      if last.Some? then Some(last.value.createdAt) else None,
      Unread(db.messages, chat.id, u),
      MembersOf(db.members, chat.id),
      None, None, None)
  }

  /** The list entry for `chat` as seen by user `u`: the query row, with a
      direct chat's name, avatar and email taken from the counterpart */
  function Summarize(db: Store, profiles: map<UserId, Profile>, chat: Chat, u: UserId): (r: ChatSummary)
    ensures var q := QueryRow(db, chat, u);
      && r.id == q.id && r.kind == q.kind && r.unread == q.unread && r.members == q.members
      && r.lastMessage == q.lastMessage && r.lastMessageTime == q.lastMessageTime
    ensures r.otherUserId.Some? ==>
      && chat.kind == DirectKind
      && r.otherUserId.value != u
      && r.otherUserId.value in MembersOf(db.members, chat.id)
      && r.otherUserId.value in profiles
      && r.name == Some(profiles[r.otherUserId.value].name)
      && r.avatar == profiles[r.otherUserId.value].avatarUrl
      && r.email == Some(profiles[r.otherUserId.value].email)
    ensures r.otherUserId.None? ==> r.name == chat.name && r.avatar.None? && r.email.None?
    ensures r.otherUserId == if chat.kind == DirectKind then OtherMember(db.members, profiles, chat.id, u) else None
  {
    var base := QueryRow(db, chat, u);
    if chat.kind == DirectKind then
      match OtherMember(db.members, profiles, chat.id, u)
      case Some(o) =>
        base.(name := Some(profiles[o].name), avatar := profiles[o].avatarUrl,
              email := Some(profiles[o].email), otherUserId := Some(o))
      case None => base
    else base
  }

  predicate Dated(s: ChatSummary) {
    s.lastMessageTime.Some?
  }

  predicate Undated(s: ChatSummary) {
    s.lastMessageTime.None?
  }

  /** The sort key of `ORDER BY "lastMessageTime" DESC` */
  function RecentFirst(s: ChatSummary): int {
    -s.lastMessageTime.GetOr(0)
  }

  /** `ORDER BY "lastMessageTime" DESC NULLS LAST`: the entries with a
      last message, latest first, then those without */
  function ListOrder(rows: seq<ChatSummary>): (r: seq<ChatSummary>)
    ensures multiset(r) == multiset(rows)
    ensures forall i, j :: 0 <= i < j < |r| && r[j].lastMessageTime.Some? ==>
      r[i].lastMessageTime.Some? && r[i].lastMessageTime.value >= r[j].lastMessageTime.value
  {
    var dated := Filter(rows, Dated);
    var undated := Filter(rows, Undated);
    var sorted := SortBy(dated, RecentFirst);
    FilterPartition(rows, Dated, Undated);
    SortedThenUndated(dated, sorted, undated);
    sorted + undated
  }

  /** Dated entries sorted by `RecentFirst`, followed by undated ones, are in
      `DESC NULLS LAST` order */
  lemma SortedThenUndated(dated: seq<ChatSummary>, sorted: seq<ChatSummary>, undated: seq<ChatSummary>)
    requires forall i :: 0 <= i < |dated| ==> Dated(dated[i])
    requires multiset(sorted) == multiset(dated) && SortedBy(sorted, RecentFirst)
    requires forall i :: 0 <= i < |undated| ==> Undated(undated[i])
    ensures var r := sorted + undated;
      forall i, j :: 0 <= i < j < |r| && r[j].lastMessageTime.Some? ==>
        r[i].lastMessageTime.Some? && r[i].lastMessageTime.value >= r[j].lastMessageTime.value
  {
    var r := sorted + undated;
    forall i, j | 0 <= i < j < |r| && r[j].lastMessageTime.Some?
      ensures r[i].lastMessageTime.Some? && r[i].lastMessageTime.value >= r[j].lastMessageTime.value
    {
      if j < |sorted| {
        assert r[j] == sorted[j] && r[i] == sorted[i];
        assert sorted[i] in multiset(dated) && sorted[j] in multiset(dated);
        assert RecentFirst(sorted[i]) <= RecentFirst(sorted[j]);
      }
    }
  }

  /** Two sequences with the same multiset have the same elements */
  lemma SameElements<T>(a: seq<T>, b: seq<T>)
    requires multiset(a) == multiset(b)
    ensures |a| == |b|
    ensures forall i :: 0 <= i < |a| ==> a[i] in b
    ensures forall i :: 0 <= i < |b| ==> b[i] in a
  {
    assert |multiset(a)| == |multiset(b)|;
    forall i | 0 <= i < |a| ensures a[i] in b {
      assert a[i] in multiset(a);
    }
    forall i | 0 <= i < |b| ensures b[i] in a {
      assert b[i] in multiset(b);
    }
  }

  /** The chats `u` belongs to, in table order */
  function ChatsOf(db: Store, u: UserId): (r: seq<Chat>)
    ensures |r| == CountIf(db.chats, (c: Chat) => IsMember(db, c.id, u))
    ensures forall k :: 0 <= k < |r| ==> r[k] in db.chats && IsMember(db, r[k].id, u)
    ensures forall i :: 0 <= i < |db.chats| && IsMember(db, db.chats[i].id, u) ==> db.chats[i] in r
  {
    Filter(db.chats, (c: Chat) => IsMember(db, c.id, u))
  }

  /** The list entries of `cs`, in order */
  function Summaries(db: Store, profiles: map<UserId, Profile>, cs: seq<Chat>, u: UserId): (r: seq<ChatSummary>)
    ensures |r| == |cs|
    ensures forall k :: 0 <= k < |cs| ==> r[k] == Summarize(db, profiles, cs[k], u)
  {
    seq(|cs|, k requires 0 <= k < |cs| => Summarize(db, profiles, cs[k], u))
  }

  /** `getChats`: every chat `u` belongs to, latest activity first, chats
      without messages last */
  function GetChats(db: Store, profiles: map<UserId, Profile>, u: UserId): (r: seq<ChatSummary>)
    ensures |r| == CountIf(db.chats, (c: Chat) => IsMember(db, c.id, u))
    ensures forall j :: 0 <= j < |r| ==>
      exists c :: c in db.chats && IsMember(db, c.id, u) && r[j] == Summarize(db, profiles, c, u)
    ensures forall i :: 0 <= i < |db.chats| && IsMember(db, db.chats[i].id, u) ==>
      Summarize(db, profiles, db.chats[i], u) in r
    ensures forall i, j :: 0 <= i < j < |r| && r[j].lastMessageTime.Some? ==>
      r[i].lastMessageTime.Some? && r[i].lastMessageTime.value >= r[j].lastMessageTime.value
  {
    ListedChatsSound(db, profiles, u);
    ListedChatsComplete(db, profiles, u);
    ListOrder(Summaries(db, profiles, ChatsOf(db, u), u))
  }

  /** The ordered list holds one entry per chat of `u`, each the summary of
      such a chat */
  lemma ListedChatsSound(db: Store, profiles: map<UserId, Profile>, u: UserId)
    ensures var r := ListOrder(Summaries(db, profiles, ChatsOf(db, u), u));
      && |r| == |ChatsOf(db, u)|
      && forall j :: 0 <= j < |r| ==>
           exists c :: c in db.chats && IsMember(db, c.id, u) && r[j] == Summarize(db, profiles, c, u)
  {
    var rows := Summaries(db, profiles, ChatsOf(db, u), u);
    var r := ListOrder(rows);
    SameElements(r, rows);
    forall j | 0 <= j < |r|
      ensures exists c :: c in db.chats && IsMember(db, c.id, u) && r[j] == Summarize(db, profiles, c, u)
    {
      ListedChat(db, profiles, u, r[j]);
    }
  }

  /** The ordered list holds the summary of every chat of `u` */
  lemma ListedChatsComplete(db: Store, profiles: map<UserId, Profile>, u: UserId)
    ensures var r := ListOrder(Summaries(db, profiles, ChatsOf(db, u), u));
      forall i :: 0 <= i < |db.chats| && IsMember(db, db.chats[i].id, u) ==>
        Summarize(db, profiles, db.chats[i], u) in r
  {
    var rows := Summaries(db, profiles, ChatsOf(db, u), u);
    var r := ListOrder(rows);
    SameElements(r, rows);
    forall i | 0 <= i < |db.chats| && IsMember(db, db.chats[i].id, u)
      ensures Summarize(db, profiles, db.chats[i], u) in r
    {
      MemberChatListed(db, profiles, u, db.chats[i]);
    }
  }

  /** Every chat `u` belongs to has its summary among the entries */
  lemma MemberChatListed(db: Store, profiles: map<UserId, Profile>, u: UserId, c: Chat)
    requires c in db.chats && IsMember(db, c.id, u)
    ensures Summarize(db, profiles, c, u) in Summaries(db, profiles, ChatsOf(db, u), u)
  {
    var mine := ChatsOf(db, u);
    var k :| 0 <= k < |mine| && mine[k] == c;
    assert Summaries(db, profiles, mine, u)[k] == Summarize(db, profiles, c, u);
  }

  /** Every entry is the summary of a chat `u` belongs to */
  lemma ListedChat(db: Store, profiles: map<UserId, Profile>, u: UserId, x: ChatSummary)
    requires x in Summaries(db, profiles, ChatsOf(db, u), u)
    ensures exists c :: c in db.chats && IsMember(db, c.id, u) && x == Summarize(db, profiles, c, u)
  {
    var mine := ChatsOf(db, u);
    var rows := Summaries(db, profiles, mine, u);
    var k :| 0 <= k < |rows| && rows[k] == x;
    assert mine[k] in db.chats && IsMember(db, mine[k].id, u);
  }

  // ---------------------------------------------------------------------
  // A chat's history

  /** `{ type, url, name: 'Attachment' }` */
  datatype AttachmentView = AttachmentView(kind: Option<string>, url: string, name: string)

  /** One element of the history response */
  datatype MessageView = MessageView(
    id: MessageId,
    senderId: string,
    text: string,
    createdAt: Timestamp,
    isMe: bool,
    attachment: Option<AttachmentView>,
    isRead: bool,
    senderName: Option<string>,
    senderAvatar: Option<string>)

  /** The sender id shown for a system message */
  const SystemSender := "system"

  /** A `messages` row as `u` sees it */
  function View(m: Message, profiles: map<UserId, Profile>, u: UserId): (r: MessageView)
    ensures r.id == m.id && r.text == m.content && r.createdAt == m.createdAt && r.isRead == m.isRead
    ensures r.isMe <==> m.sender == Some(u)
    ensures r.senderId == SystemSender <==> !TruthyId(m.sender)
    ensures TruthyId(m.sender) ==> r.senderId == FromNat(m.sender.value)
    ensures r.attachment.Some? <==> Given(m.attachmentUrl)
    ensures r.attachment.Some? ==>
      r.attachment.value.url == m.attachmentUrl.value && r.attachment.value.kind == m.attachmentType
    ensures r.senderName.Some? <==> m.sender.Some? && m.sender.value in profiles
  {
    var shown := if TruthyId(m.sender) then FromNat(m.sender.value) else SystemSender;
    assert TruthyId(m.sender) ==> IsDigit(FromNat(m.sender.value)[0]);
    var author := if m.sender.Some? && m.sender.value in profiles then Some(profiles[m.sender.value]) else None;
    MessageView(
      m.id,
      shown,
      m.content,
      m.createdAt,
      m.sender == Some(u),
      if Given(m.attachmentUrl) then Some(AttachmentView(m.attachmentType, m.attachmentUrl.value, "Attachment")) else None,
      m.isRead,
      if author.Some? then Some(author.value.name) else None,
      if author.Some? then author.value.avatarUrl else None)
  }

  function ByCreation(m: Message): int {
    m.createdAt
  }

  /** The messages of chat `c` in `ORDER BY created_at ASC` order */
  function History(db: Store, c: ChatId): (r: seq<Message>)
    ensures multiset(r) == multiset(ChatMessages(db.messages, c))
    ensures forall i, j :: 0 <= i < j < |r| ==> r[i].createdAt <= r[j].createdAt
  {
    var r := SortBy(ChatMessages(db.messages, c), ByCreation);
    assert forall i, j :: 0 <= i < j < |r| ==> ByCreation(r[i]) <= ByCreation(r[j]);
    r
  }

  /** The views of `h`, in order */
  function Views(h: seq<Message>, profiles: map<UserId, Profile>, u: UserId): (r: seq<MessageView>)
    ensures |r| == |h|
    ensures forall i :: 0 <= i < |h| ==> r[i] == View(h[i], profiles, u)
  {
    seq(|h|, i requires 0 <= i < |h| => View(h[i], profiles, u))
  }

  /** `getMessages`: 403 unless `u` is a member of `c`; otherwise all of the
      chat's messages, oldest first, as `u` sees them */
  function GetMessages(db: Store, profiles: map<UserId, Profile>, c: ChatId, u: UserId): (r: HttpResult<seq<MessageView>>)
    ensures r.Failure? <==> !IsMember(db, c, u)
    ensures r.Failure? ==> r.code == Forbidden
    ensures r.Success? ==> r.code == Ok && |r.body| == CountIf(db.messages, (m: Message) => m.chat == c)
    ensures r.Success? ==> forall i, j :: 0 <= i < j < |r.body| ==> r.body[i].createdAt <= r.body[j].createdAt
    ensures r.Success? ==> forall i :: 0 <= i < |r.body| ==>
      exists m :: m in db.messages && m.chat == c && r.body[i] == View(m, profiles, u)
    ensures r.Success? ==> forall k :: 0 <= k < |db.messages| && db.messages[k].chat == c ==>
      View(db.messages[k], profiles, u) in r.body
  {
    if !IsMember(db, c, u) then Failure(Forbidden, "Not a member of this chat")
    else
      HistoryViewsCount(db, profiles, c, u);
      HistoryViewsOrdered(db, profiles, c, u);
      HistoryViewsSound(db, profiles, c, u);
      HistoryViewsComplete(db, profiles, c, u);
      Success(Ok, Views(History(db, c), profiles, u))
  }

  /** There is one view per message of the chat */
  lemma HistoryViewsCount(db: Store, profiles: map<UserId, Profile>, c: ChatId, u: UserId)
    ensures |Views(History(db, c), profiles, u)| == CountIf(db.messages, (m: Message) => m.chat == c)
  {
    HistoryContents(db, c);
  }

  /** The views of a chat's history come oldest first */
  lemma HistoryViewsOrdered(db: Store, profiles: map<UserId, Profile>, c: ChatId, u: UserId)
    ensures var vs := Views(History(db, c), profiles, u);
      forall i, j :: 0 <= i < j < |vs| ==> vs[i].createdAt <= vs[j].createdAt
  {
    var h := History(db, c);
    var vs := Views(h, profiles, u);
    forall i, j | 0 <= i < j < |vs| ensures vs[i].createdAt <= vs[j].createdAt {
      assert vs[i].createdAt == h[i].createdAt && vs[j].createdAt == h[j].createdAt;
    }
  }

  /** Each view of a chat's history is the view of one of the chat's messages */
  lemma HistoryViewsSound(db: Store, profiles: map<UserId, Profile>, c: ChatId, u: UserId)
    ensures var vs := Views(History(db, c), profiles, u);
      forall i :: 0 <= i < |vs| ==> exists m :: m in db.messages && m.chat == c && vs[i] == View(m, profiles, u)
  {
    var h := History(db, c);
    var vs := Views(h, profiles, u);
    HistoryContents(db, c);
    forall i | 0 <= i < |vs| ensures exists m :: m in db.messages && m.chat == c && vs[i] == View(m, profiles, u) {
      assert h[i] in db.messages && h[i].chat == c && vs[i] == View(h[i], profiles, u);
    }
  }

  /** Every message of the chat has its view in the history */
  lemma HistoryViewsComplete(db: Store, profiles: map<UserId, Profile>, c: ChatId, u: UserId)
    ensures var vs := Views(History(db, c), profiles, u);
      forall k :: 0 <= k < |db.messages| && db.messages[k].chat == c ==> View(db.messages[k], profiles, u) in vs
  {
    var h := History(db, c);
    var vs := Views(h, profiles, u);
    HistoryContents(db, c);
    forall k | 0 <= k < |db.messages| && db.messages[k].chat == c
      ensures View(db.messages[k], profiles, u) in vs
    {
      var i :| 0 <= i < |h| && h[i] == db.messages[k];
      assert vs[i] == View(db.messages[k], profiles, u);
    }
  }

  /** The history holds each message of the chat, and nothing else */
  lemma HistoryContents(db: Store, c: ChatId)
    ensures |History(db, c)| == CountIf(db.messages, (m: Message) => m.chat == c)
    ensures forall i :: 0 <= i < |History(db, c)| ==> History(db, c)[i] in db.messages && History(db, c)[i].chat == c
    ensures forall k :: 0 <= k < |db.messages| && db.messages[k].chat == c ==> db.messages[k] in History(db, c)
  {
    var h := History(db, c);
    var all := ChatMessages(db.messages, c);
    SameElements(h, all);
    forall i | 0 <= i < |h| ensures h[i] in db.messages && h[i].chat == c {
      var k :| 0 <= k < |all| && all[k] == h[i];
    }
  }

  // ---------------------------------------------------------------------
  // Get-or-create of a direct chat

  /** A `direct` chat row with both `u` and `t` among its members */
  predicate IsDirectBetween(db: Store, chat: Chat, u: UserId, t: UserId) {
    chat.kind == DirectKind && IsMember(db, chat.id, u) && IsMember(db, chat.id, t)
  }

  /** The first of `cs` that is a direct chat between `u` and `t` */
  function FindDirect(db: Store, cs: seq<Chat>, u: UserId, t: UserId): (r: Option<ChatId>)
    ensures r.None? <==> forall i :: 0 <= i < |cs| ==> !IsDirectBetween(db, cs[i], u, t)
    ensures r.Some? ==> exists k :: 0 <= k < |cs| && cs[k].id == r.value && IsDirectBetween(db, cs[k], u, t)
                                  && forall j :: 0 <= j < k ==> !IsDirectBetween(db, cs[j], u, t)
    decreases |cs|
  {
    if |cs| == 0 then None
    else if IsDirectBetween(db, cs[0], u, t) then Some(cs[0].id)
    else
      var r := FindDirect(db, cs[1..], u, t);
      assert forall i :: 1 <= i < |cs| ==> cs[i] == cs[1..][i - 1];
      if r.Some? then
        var k :| 0 <= k < |cs[1..]| && cs[1..][k].id == r.value && IsDirectBetween(db, cs[1..][k], u, t)
                 && forall j :: 0 <= j < k ==> !IsDirectBetween(db, cs[1..][j], u, t);
        assert cs[k + 1] == cs[1..][k];
        assert forall j :: 0 <= j < k + 1 ==> !IsDirectBetween(db, cs[j], u, t) by {
          forall j | 0 <= j < k + 1 ensures !IsDirectBetween(db, cs[j], u, t) {
            if j > 0 { assert cs[j] == cs[1..][j - 1]; }
          }
        }
        r
      else r
  }

  predicate DirectChatExists(db: Store, u: UserId, t: UserId) {
    exists i :: 0 <= i < |db.chats| && IsDirectBetween(db, db.chats[i], u, t)
  }

  /** The rows `getOrCreateDirectChat` inserts: a `direct` chat and its two
      member rows */
  function NewDirectChat(db: Store, u: UserId, t: UserId): (db': Store)
    ensures db'.chats == db.chats + [Chat(db.nextChatId, None, DirectKind)]
    ensures db'.members == db.members + [Member(db.nextChatId, u, false), Member(db.nextChatId, t, false)]
    ensures db'.messages == db.messages
    ensures IsDirectBetween(db', db'.chats[|db.chats|], u, t)
    ensures Valid(db) ==> Valid(db') && !HasChat(db, db.nextChatId)
    ensures Valid(db) ==> MembersOf(db'.members, db.nextChatId) == [u, t]
  {
    var c := db.nextChatId;
    var db' := db.(chats := db.chats + [Chat(c, None, DirectKind)],
                   members := db.members + [Member(c, u, false), Member(c, t, false)],
                   nextChatId := c + 1);
    DirectChatAdded(db, u, t, db');
    db'
  }

  /** The store with a new direct chat between `u` and `t` holds it as a
      direct chat between them, with exactly those two members */
  lemma DirectChatAdded(db: Store, u: UserId, t: UserId, db': Store)
    requires db' == db.(chats := db.chats + [Chat(db.nextChatId, None, DirectKind)],
                        members := db.members + [Member(db.nextChatId, u, false), Member(db.nextChatId, t, false)],
                        nextChatId := db.nextChatId + 1)
    ensures IsDirectBetween(db', db'.chats[|db.chats|], u, t)
    ensures Valid(db) ==> Valid(db') && !HasChat(db, db.nextChatId)
    ensures Valid(db) ==> MembersOf(db'.members, db.nextChatId) == [u, t]
  {
    var c := db.nextChatId;
    DirectMemberRows(db.members, c, u, t);
    assert db'.chats[|db.chats|] == Chat(c, None, DirectKind);
    AddChatKeepsValid(db, Chat(c, None, DirectKind), [Member(c, u, false), Member(c, t, false)]);
  }

  /** The two member rows of a new direct chat add exactly its two users */
  lemma DirectMemberRows(rows: seq<Member>, c: ChatId, u: UserId, t: UserId)
    ensures MembersOf(rows + [Member(c, u, false), Member(c, t, false)], c) == MembersOf(rows, c) + [u, t]
  {
    var extra := [Member(c, u, false), Member(c, t, false)];
    assert MembersOf(extra, c) == [u, t] by {
      assert extra[1..] == [Member(c, t, false)];
      assert extra[1..][1..] == [];
    }
    MembersOfAppend(rows, extra, c);
  }

  /** `getOrCreateDirectChat`: the id of an existing direct chat between `u`
      and `t`, or of a new one created with exactly those two members */
  function GetOrCreateDirectChat(db: Store, u: UserId, t: UserId): (res: (Store, ChatId))
    ensures exists i :: 0 <= i < |res.0.chats| && res.0.chats[i].id == res.1 && IsDirectBetween(res.0, res.0.chats[i], u, t)
    ensures DirectChatExists(db, u, t) ==> res.0 == db
    ensures !DirectChatExists(db, u, t) ==> res == (NewDirectChat(db, u, t), db.nextChatId)
  {
    match FindDirect(db, db.chats, u, t)
    case Some(c) => (db, c)
    case None =>
      var db' := NewDirectChat(db, u, t);
      assert db'.chats[|db.chats|].id == db.nextChatId;
      (db', db.nextChatId)
  }

  /** Adding member rows for a chat id no existing chat uses leaves every
      existing chat's membership as it was */
  lemma MembershipOfOldChats(db: Store, extra: seq<Member>, c: ChatId)
    requires forall k :: 0 <= k < |extra| ==> extra[k].chat == c
    ensures forall i, v :: 0 <= i < |db.chats| && db.chats[i].id != c ==>
      (IsMember(db.(members := db.members + extra), db.chats[i].id, v) <==> IsMember(db, db.chats[i].id, v))
  {
    forall i, v | 0 <= i < |db.chats| && db.chats[i].id != c
      ensures IsMember(db.(members := db.members + extra), db.chats[i].id, v) <==> IsMember(db, db.chats[i].id, v)
    {
      MembersOfAppend(db.members, extra, db.chats[i].id);
      assert MembersOf(extra, db.chats[i].id) == [];
    }
  }

  /** After creating a direct chat between `u` and `t`, none of the older
      chats is one */
  lemma OlderChatsStayIndirect(db: Store, u: UserId, t: UserId)
    requires Valid(db) && !DirectChatExists(db, u, t)
    ensures var db1 := NewDirectChat(db, u, t);
      forall j :: 0 <= j < |db.chats| ==> !IsDirectBetween(db1, db1.chats[j], u, t)
  {
    var db1 := NewDirectChat(db, u, t);
    var c := db.nextChatId;
    var extra := [Member(c, u, false), Member(c, t, false)];
    assert db1 == db.(chats := db1.chats, nextChatId := db1.nextChatId).(members := db.members + extra);
    MembershipOfOldChats(db.(chats := db1.chats, nextChatId := db1.nextChatId), extra, c);
    forall j | 0 <= j < |db.chats| ensures !IsDirectBetween(db1, db1.chats[j], u, t) {
      assert db1.chats[j] == db.chats[j];
      assert db.chats[j].id < c;
      assert !IsDirectBetween(db, db.chats[j], u, t);
    }
  }

  /** Asking twice gives the same chat, and the second call adds nothing */
  lemma GetOrCreateDirectChatTwice(db: Store, u: UserId, t: UserId)
    requires Valid(db)
    ensures var (db1, c1) := GetOrCreateDirectChat(db, u, t);
      GetOrCreateDirectChat(db1, u, t) == (db1, c1)
  {
    var (db1, c1) := GetOrCreateDirectChat(db, u, t);
    if !DirectChatExists(db, u, t) {
      OlderChatsStayIndirect(db, u, t);
      var r := FindDirect(db1, db1.chats, u, t);
      assert r.Some?;
      var k :| 0 <= k < |db1.chats| && db1.chats[k].id == r.value && IsDirectBetween(db1, db1.chats[k], u, t)
               && forall j :: 0 <= j < k ==> !IsDirectBetween(db1, db1.chats[j], u, t);
      assert k == |db.chats|;
    }
  }

  // ---------------------------------------------------------------------
  // Group creation

  /** The response of `createChat` */
  datatype CreatedChat = CreatedChat(
    id: ChatId,
    name: string,
    kind: string,
    lastMessage: string,
    unread: nat,
    members: seq<UserId>)

  /** The member rows `createChat` inserts: the creator as admin, then every
      listed id other than the creator's as a plain member */
  function NewMemberRows(c: ChatId, creator: UserId, listed: seq<UserId>): (r: seq<Member>)
    ensures |r| >= 1 && r[0] == Member(c, creator, true)
    ensures forall i :: 0 <= i < |r| ==> r[i].chat == c
    ensures forall i :: 1 <= i < |r| ==> !r[i].isAdmin && r[i].user != creator && r[i].user in listed
    ensures forall i :: 0 <= i < |listed| && listed[i] != creator ==> Member(c, listed[i], false) in r
    ensures forall i :: 0 <= i < |r| && r[i].user == creator ==> r[i].isAdmin
  {
    var others := Filter(listed, (m: UserId) => m != creator);
    var plain := PlainRows(c, others);
    assert forall i :: 0 <= i < |listed| && listed[i] != creator ==> Member(c, listed[i], false) in plain by {
      forall i | 0 <= i < |listed| && listed[i] != creator ensures Member(c, listed[i], false) in plain {
        var k :| 0 <= k < |others| && others[k] == listed[i];
        assert plain[k] == Member(c, listed[i], false);
      }
    }
    [Member(c, creator, true)] + plain
  }

  /** One plain member row of chat `c` per user, in order */
  function PlainRows(c: ChatId, users: seq<UserId>): (r: seq<Member>)
    ensures |r| == |users|
    ensures forall i :: 0 <= i < |r| ==> r[i] == Member(c, users[i], false)
  {
    seq(|users|, i requires 0 <= i < |users| => Member(c, users[i], false))
  }

  /** `createChat`: 400 without a name or a type; otherwise one new chat row
      and its member rows, the creator first and as admin */
  function CreateChat(db: Store, u: UserId, name: Option<string>, kind: Option<string>, listed: Option<seq<UserId>>)
    : (res: (Store, HttpResult<CreatedChat>))
    ensures var (db', r) := res;
      r.Failure? <==> !Given(name) || !Given(kind)
    ensures var (db', r) := res;
      r.Failure? ==> r.code == BadRequest && db' == db
    ensures var (db', r) := res;
      r.Success? ==>
        && r.code == Ok
        && db'.chats == db.chats + [Chat(r.body.id, name, kind.value)]
        && db'.members == db.members + NewMemberRows(r.body.id, u, listed.GetOr([]))
        && db'.messages == db.messages
        && r.body.members == [u] + listed.GetOr([])
        && r.body.unread == 0
        && r.body.lastMessage == "New " + kind.value + " created"
        && (Valid(db) ==> !HasChat(db, r.body.id))
    ensures Valid(db) ==> Valid(res.0)
  {
    if !Given(name) || !Given(kind) then (db, Failure(BadRequest, "Name and type required"))
    else
      var c := db.nextChatId;
      var db' := db.(chats := db.chats + [Chat(c, name, kind.value)],
                     members := db.members + NewMemberRows(c, u, listed.GetOr([])),
                     nextChatId := c + 1);
      AddChatKeepsValid(db, Chat(c, name, kind.value), NewMemberRows(c, u, listed.GetOr([])));
      (db', Success(Ok, CreatedChat(c, name.value, kind.value, "New " + kind.value + " created", 0, [u] + listed.GetOr([]))))
  }

  /** After a successful `createChat` the creator is an admin member of the
      new chat, every listed id is a member, and no existing chat's
      membership changed */
  lemma CreateChatMembership(db: Store, u: UserId, name: Option<string>, kind: Option<string>, listed: Option<seq<UserId>>)
    requires Valid(db)
    ensures var (db', r) := CreateChat(db, u, name, kind, listed);
      r.Success? ==>
        && Member(r.body.id, u, true) in db'.members
        && IsMember(db', r.body.id, u)
        && (forall v :: v in listed.GetOr([]) ==> IsMember(db', r.body.id, v))
        && (forall v :: IsMember(db', r.body.id, v) ==> v == u || v in listed.GetOr([]))
        && (forall i, v :: 0 <= i < |db.chats| ==> (IsMember(db', db.chats[i].id, v) <==> IsMember(db, db.chats[i].id, v)))
  {
    var (db', r) := CreateChat(db, u, name, kind, listed);
    if r.Success? {
      var c := r.body.id;
      var rows := NewMemberRows(c, u, listed.GetOr([]));
      assert db'.members[|db.members|] == rows[0];
      AddChatKeepsValid(db, Chat(c, name, kind.value), rows);
      MembersOfAppend(db.members, rows, c);
      NewMembersExactly(c, u, listed.GetOr([]));
      MembershipOfOldChats(db, rows, c);
    }
  }

  /** The users of the rows `createChat` inserts are the creator and the
      listed users */
  lemma NewMembersExactly(c: ChatId, creator: UserId, listed: seq<UserId>)
    ensures forall v :: v in MembersOf(NewMemberRows(c, creator, listed), c) <==> v == creator || v in listed
  {
    var rows := NewMemberRows(c, creator, listed);
    forall v ensures v in MembersOf(rows, c) <==> v == creator || v in listed {
      if v in MembersOf(rows, c) {
        var k :| 0 <= k < |rows| && rows[k].chat == c && rows[k].user == v;
      }
      if v == creator {
        assert rows[0].chat == c && rows[0].user == v;
      } else if v in listed {
        var i :| 0 <= i < |listed| && listed[i] == v;
        var k :| 0 <= k < |rows| && rows[k] == Member(c, v, false);
        assert rows[k].chat == c && rows[k].user == v;
      }
    }
  }

  // ---------------------------------------------------------------------
  // Mark-read

  /** `UPDATE messages SET is_read = TRUE WHERE chat_id = c AND sender_id != u
      AND is_read = FALSE` */
  function MarkRead(msgs: seq<Message>, c: ChatId, u: UserId): (r: seq<Message>)
    ensures |r| == |msgs|
    ensures forall i :: 0 <= i < |msgs| ==>
      r[i].isRead == (msgs[i].isRead || (msgs[i].chat == c && msgs[i].sender.Some? && msgs[i].sender.value != u))
    ensures forall i :: 0 <= i < |msgs| ==> r[i] == msgs[i].(isRead := r[i].isRead)
  {
    seq(|msgs|, i requires 0 <= i < |msgs| =>
      if CountsAsUnread(msgs[i], c, u) then msgs[i].(isRead := true) else msgs[i])
  }

  /** `markMessagesRead`: 400 without a chat id; otherwise the update above */
  function MarkMessagesRead(db: Store, u: UserId, chatId: Option<ChatId>): (res: (Store, HttpResult<bool>))
    ensures var (db', r) := res;
      r.Failure? <==> !TruthyId(chatId)
    ensures var (db', r) := res;
      r.Failure? ==> r.code == BadRequest && db' == db
    ensures var (db', r) := res;
      r.Success? ==> r.body && db' == db.(messages := MarkRead(db.messages, chatId.value, u))
  {
    if !TruthyId(chatId) then (db, Failure(BadRequest, "Chat ID required"))
    else (db.(messages := MarkRead(db.messages, chatId.value, u)), Success(Ok, true))
  }

  /** After mark-read nothing in that chat is unread for the caller */
  lemma MarkReadClearsUnread(msgs: seq<Message>, c: ChatId, u: UserId)
    ensures Unread(MarkRead(msgs, c, u), c, u) == 0
  {
    var r := MarkRead(msgs, c, u);
    assert forall i :: 0 <= i < |r| ==> !CountsAsUnread(r[i], c, u);
  }

  /** Mark-read changes no other chat's unread count, for anyone */
  lemma MarkReadOtherChats(msgs: seq<Message>, c: ChatId, u: UserId, c': ChatId, v: UserId)
    requires c' != c
    ensures Unread(MarkRead(msgs, c, u), c', v) == Unread(msgs, c', v)
  {
    var r := MarkRead(msgs, c, u);
    CountIfPointwise(r, (m: Message) => CountsAsUnread(m, c', v), msgs, (m: Message) => CountsAsUnread(m, c', v));
  }

  /** Mark-read leaves system messages exactly as they were */
  lemma MarkReadSkipsSystemMessages(msgs: seq<Message>, c: ChatId, u: UserId)
    ensures forall i :: 0 <= i < |msgs| && msgs[i].sender.None? ==> MarkRead(msgs, c, u)[i] == msgs[i]
  {
  }

  /** A second mark-read changes nothing */
  lemma MarkMessagesReadIdempotent(db: Store, u: UserId, chatId: Option<ChatId>)
    ensures var (db1, _) := MarkMessagesRead(db, u, chatId);
      MarkMessagesRead(db1, u, chatId).0 == db1
  {
    var (db1, _) := MarkMessagesRead(db, u, chatId);
    if TruthyId(chatId) {
      assert MarkRead(db1.messages, chatId.value, u) == db1.messages;
    }
  }
}
