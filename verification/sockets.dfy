/** The chat events of `services/messaging/socket_handler.py`: joining a room,
    sending a message (and its legacy form), the chat list and the paged
    history. Each handler is a function from the event's payload and the
    database to the event it emits and the database after it. The room
    manager's membership table is the `members` set of the database; whether
    the room manager accepts a join is a parameter, since its code is not part
    of this model. */
module SocketHandler {
  import opened Common
  import opened Seqs
  import opened Sorting
  import opened MessageModel
  import opened Database

  // ---------------------------------------------------------------- join_room

  datatype JoinRequest = JoinRequest(userId: Field<int>, roomId: Field<string>)

  /** `room_joined` or `room_join_error`. */
  datatype JoinEvent = RoomJoined(roomId: string, roomName: string) | RoomJoinError(message: string)

  const GeneralRoomId: string := "general"
  const GeneralRoomName: string := "General Chat"
  const DefaultRoomType: string := "group"

  /** The room `join_room` creates the first time anyone joins `general`. */
  function GeneralRoom(creator: int, now: Time): Room {
    Room(GeneralRoomId, GeneralRoomName, creator, now, DefaultRoomType)
  }

  /** `join_room`: both ids are required; an unknown room is an error except
      `general`, which is created on the spot; the user becomes a member when
      the room manager accepts. Users, messages and counters never change. */
  function JoinRoom(db: Db, req: JoinRequest, accepted: bool, now: Time): (out: (JoinEvent, Db))
    ensures out.1.users == db.users && out.1.messages == db.messages
    ensures out.1.nextUserId == db.nextUserId && out.1.nextMessageId == db.nextMessageId
    ensures !TruthyInt(req.userId.Get()) || !TruthyStr(req.roomId.Get()) ==>
              out == (RoomJoinError("user_id and room_id are required"), db)
    ensures TruthyInt(req.userId.Get()) && TruthyStr(req.roomId.Get()) ==>
              var uid, rid := req.userId.value, req.roomId.value;
              && (RoomIndex(db, rid).None? && rid != GeneralRoomId ==>
                    out == (RoomJoinError("Room " + rid + " does not exist"), db))
              && (RoomIndex(db, rid).None? && rid == GeneralRoomId ==>
                    out.1.rooms == db.rooms + [GeneralRoom(uid, now)])
              && (RoomIndex(db, rid).Some? ==> out.1.rooms == db.rooms)
              && (RoomIndex(db, rid).Some? || rid == GeneralRoomId ==>
                    && RoomIndex(out.1, rid).Some?
                    && (accepted ==>
                          && out.0 == RoomJoined(rid, out.1.rooms[RoomIndex(out.1, rid).value].name)
                          && out.1.members == db.members + {(uid, rid)})
                    && (!accepted ==>
                          out.0 == RoomJoinError("Failed to join room") && out.1.members == db.members))
  {
    if !TruthyInt(req.userId.Get()) || !TruthyStr(req.roomId.Get()) then
      (RoomJoinError("user_id and room_id are required"), db)
    else
      var uid, rid := req.userId.value, req.roomId.value;
      var k := RoomIndex(db, rid);
      if k.None? && rid != GeneralRoomId then
        (RoomJoinError("Room " + rid + " does not exist"), db)
      else
        var db1 := if k.Some? then db else db.(rooms := db.rooms + [GeneralRoom(uid, now)]);
        var room := if k.Some? then db.rooms[k.value] else GeneralRoom(uid, now);
        assert RoomIndex(db1, rid) == Some(if k.Some? then k.value else |db.rooms|) by {
          if k.None? {
            assert forall j :: 0 <= j < |db.rooms| ==> db1.rooms[j] == db.rooms[j];
          }
        }
        if accepted then
          (RoomJoined(rid, room.name), db1.(members := db1.members + {(uid, rid)}))
        else
          (RoomJoinError("Failed to join room"), db1)
  }

  // ------------------------------------------------------------- send_message

  datatype SendRequest = SendRequest(
    senderId: Field<int>,
    roomId: Field<string>,
    content: Field<string>,
    messageType: Field<string>,
    encryptedAesKey: Field<string>,
    iv: Field<string>,
    isEncrypted: Field<bool>)

  /** `message_sent` (to the sender) or `message_error`. */
  datatype SendEvent = MessageSent(messageId: int, timestamp: Time) | MessageError(message: string)

  const MissingSendField: string := "sender_id, room_id, and content are required"
  const NotInRoom: string := "User is not in the specified room"

  /** Sender, room and content are all given and truthy. */
  predicate Admissible(req: SendRequest) {
    TruthyInt(req.senderId.Get()) && TruthyStr(req.roomId.Get()) && TruthyStr(req.content.Get())
  }

  /** `m` is the row stored for `req` under `id` at time `now`: the payload's
      sender, room and content; key and IV verbatim (null when not sent);
      encrypted only when `is_encrypted` is literally true; the sent type, or
      'text' when it is missing or null; status 'sent', not delivered. */
  predicate Stores(m: Message, req: SendRequest, id: int, now: Time) {
    && m.id == id
    && req.senderId.Get() == Some(m.senderId)
    && req.roomId.Get() == Some(m.roomId)
    && req.content.Get() == Some(m.content)
    && m.encryptedAesKey == req.encryptedAesKey.Get()
    && m.iv == req.iv.Get()
    && (m.isEncrypted <==> req.isEncrypted == Present(true))
    && m.messageType == (if req.messageType.Present? then req.messageType.value else DefaultMessageType)
    && m.status == DefaultStatus && m.deliveredAt.None? && m.timestamp == Some(now)
  }

  /** `send_message`: an incomplete payload or a sender outside the room is
      rejected and nothing is stored; otherwise exactly one row is appended
      under the next message id, and nothing else changes. */
  function SendMessage(db: Db, req: SendRequest, now: Time): (out: (SendEvent, Db))
    ensures out.0.MessageError? ==> out.1 == db
    ensures !Admissible(req) ==> out.0 == MessageError(MissingSendField)
    ensures Admissible(req) && (req.senderId.value, req.roomId.value) !in db.members ==>
              out.0 == MessageError(NotInRoom)
    ensures out.0.MessageSent? <==> Admissible(req) && (req.senderId.value, req.roomId.value) in db.members
    ensures out.0.MessageSent? ==>
              && out.0 == MessageSent(db.nextMessageId, now)
              && |out.1.messages| == |db.messages| + 1
              && out.1.messages[..|db.messages|] == db.messages
              && Stores(out.1.messages[|db.messages|], req, db.nextMessageId, now)
              && out.1 == db.(messages := out.1.messages, nextMessageId := db.nextMessageId + 1)
  {
    if !Admissible(req) then
      (MessageError(MissingSendField), db)
    else
      var uid, rid := req.senderId.value, req.roomId.value;
      if (uid, rid) !in db.members then
        (MessageError(NotInRoom), db)
      else
        var m := NewMessage(db.nextMessageId, uid, rid, req.content.value,
                            req.encryptedAesKey.Get(), req.iv.Get(),
                            req.isEncrypted.GetOr(false), req.messageType.GetOr(DefaultMessageType), now);
        var messages := db.messages + [m];
        assert messages[..|db.messages|] == db.messages;
        (MessageSent(m.id, now), db.(messages := messages, nextMessageId := db.nextMessageId + 1))
  }

  // ------------------------------------------------------------ relay_message

  /** The payload of the deprecated `relay_message` event. */
  datatype LegacyRequest = LegacyRequest(
    senderId: Field<int>,
    roomId: Field<string>,
    content: Field<string>,
    encryptedMessage: Field<string>,
    messageType: Field<string>)

  /** A value written into a fresh dictionary: the key is always present,
      holding null for None. */
  function OfOption<T>(o: Option<T>): (f: Field<T>)
    ensures !f.Absent? && f.Get() == o
  {
    match o
    case Some(v) => Present(v)
    case None => Null
  }

  /** The dictionary `relay_message` builds: room `general` by default, the
      content or else the encrypted message or else '', and no encryption
      fields at all. */
  function ToSendRequest(l: LegacyRequest): (r: SendRequest)
    ensures r.senderId.Get() == l.senderId.Get()
    ensures r.roomId.Get() == l.roomId.GetOr(GeneralRoomId)
    ensures r.content.Get() == (if l.content.Absent? then l.encryptedMessage.GetOr("") else l.content.Get())
    ensures r.messageType.GetOr(DefaultMessageType) == l.messageType.GetOr(DefaultMessageType)
    ensures r.encryptedAesKey.Absent? && r.iv.Absent? && r.isEncrypted.Absent?
  {
    SendRequest(
      OfOption(l.senderId.Get()),
      OfOption(l.roomId.GetOr(GeneralRoomId)),
      OfOption(if l.content.Absent? then l.encryptedMessage.GetOr("") else l.content.Get()),
      OfOption(l.messageType.GetOr(DefaultMessageType)),
      Absent, Absent, Absent)
  }

  /** `relay_message`: the converted payload goes through `send_message`, so
      a stored legacy message is never marked encrypted and has no key or IV,
      lands in `general` unless a room is named, and a payload with neither
      content nor encrypted message is rejected as incomplete. */
  function RelayMessage(db: Db, l: LegacyRequest, now: Time): (out: (SendEvent, Db))
    ensures out.0.MessageError? ==> out.1 == db
    ensures l.content.Absent? && l.encryptedMessage.Absent? ==> out.0 == MessageError(MissingSendField)
    ensures out.0.MessageSent? ==> |out.1.messages| == |db.messages| + 1
    ensures out.0.MessageSent? ==>
              var m := out.1.messages[|db.messages|];
              && !m.isEncrypted && m.encryptedAesKey.None? && m.iv.None?
              && Some(m.roomId) == l.roomId.GetOr(GeneralRoomId)
              && Some(m.content) == (if l.content.Absent? then l.encryptedMessage.GetOr("") else l.content.Get())
              && m.content != ""
  {
    SendMessage(db, ToSendRequest(l), now)
  }

  /** Every legacy message has the same effect as a plain `send_message`
      with the same fields: the room defaults to `general`, `content` falls
      back to `encrypted_message` and then to '', and there are no encryption
      fields. */
  lemma RelayIsPlainSend(db: Db, l: LegacyRequest, now: Time)
    ensures var content := if l.content.Present? || l.content.Null? then l.content
                           else if l.encryptedMessage.Absent? then Present("") else l.encryptedMessage;
            RelayMessage(db, l, now)
            == SendMessage(db, SendRequest(l.senderId, if l.roomId.Absent? then Present(GeneralRoomId) else l.roomId,
                                           content, l.messageType, Absent, Absent, Absent), now)
  {
    var content := if l.content.Present? || l.content.Null? then l.content
                   else if l.encryptedMessage.Absent? then Present("") else l.encryptedMessage;
    var plain := SendRequest(l.senderId, if l.roomId.Absent? then Present(GeneralRoomId) else l.roomId,
                             content, l.messageType, Absent, Absent, Absent);
    var conv := ToSendRequest(l);
    assert conv.senderId.Get() == plain.senderId.Get();
    assert conv.roomId.Get() == plain.roomId.Get();
    assert conv.content.Get() == plain.content.Get();
    assert conv.messageType.GetOr(DefaultMessageType) == plain.messageType.GetOr(DefaultMessageType);
  }

  /** The old-field fallback: a legacy message with only `encrypted_message`
      is sent exactly as a plain message whose content is that field. */
  lemma RelayFallsBackToEncryptedMessage(db: Db, l: LegacyRequest, now: Time)
    requires l.content.Absent? && l.encryptedMessage.Present?
    ensures RelayMessage(db, l, now)
            == SendMessage(db, SendRequest(l.senderId, if l.roomId.Absent? then Present(GeneralRoomId) else l.roomId,
                                           l.encryptedMessage, l.messageType, Absent, Absent, Absent), now)
  {
    RelayIsPlainSend(db, l, now);
  }

  // ------------------------------------------------------ messages of a room

  /** The sort key of `ORDER BY timestamp DESC`: a missing timestamp is NULL,
      which orders below every time. */
  function TimeKey(m: Message): int {
    if m.timestamp.Some? then m.timestamp.value else -1
  }

  /** `Message.query.filter_by(room_id=rid)`, in storage order. */
  function RoomMessages(db: Db, rid: string): (r: seq<Message>)
    ensures forall m :: m in r <==> m in db.messages && m.roomId == rid
  {
    Filter(db.messages, (m: Message) => m.roomId == rid)
  }

  /** The same query `.order_by(desc(Message.timestamp))`: the room's
      messages, newest first. */
  function NewestFirst(db: Db, rid: string): (r: seq<Message>)
    ensures multiset(r) == multiset(RoomMessages(db, rid))
    ensures SortedDesc(r, TimeKey)
    ensures forall m :: m in r <==> m in db.messages && m.roomId == rid
  {
    var r := SortDesc(RoomMessages(db, rid), TimeKey);
    assert forall m :: m in r <==> m in multiset(RoomMessages(db, rid));
    r
  }

  // ---------------------------------------------------------------- get_chats

  datatype ChatsRequest = ChatsRequest(userId: Field<int>)

  /** One element of `chats`; `lastMessageTime` is the instant behind the ISO
      string the source sorts on. */
  datatype ChatEntry = ChatEntry(
    id: string,
    name: string,
    roomType: string,
    lastMessage: string,
    lastMessageTime: Time,
    unreadCount: int,
    isOnline: bool)

  /** `chat_list` or `chat_list_error`. */
  datatype ChatsEvent = ChatList(chats: seq<ChatEntry>) | ChatListError(message: string)

  const DefaultRooms: seq<string> := ["general", "tech-talk", "random"]
  const NoMessagesYet: string := "No messages yet"

  /** The user has sent at least one message to the room. */
  predicate SentTo(db: Db, uid: int, room: Room) {
    exists m :: m in db.messages && m.senderId == uid && m.roomId == room.id
  }

  /** The rooms joined with the user's messages (`user_rooms`). */
  function UserRooms(db: Db, uid: int): seq<Room> {
    Filter(db.rooms, (room: Room) => SentTo(db, uid, room))
  }

  /** The default rooms that exist (`default_rooms`). */
  function DefaultRoomRows(db: Db): seq<Room> {
    Filter(db.rooms, (room: Room) => room.id in DefaultRooms)
  }

  ghost function RoomIds(s: seq<Room>): set<string> {
    set room | room in s :: room.id
  }

  /** The ids of every room the chat list must show: rooms the user has sent
      to, and the default rooms, as far as they exist. */
  ghost function ListedIds(db: Db, uid: int): set<string> {
    set room | room in db.rooms && (SentTo(db, uid, room) || room.id in DefaultRooms) :: room.id
  }

  function RoomId(room: Room): string { room.id }

  /** Stores `x` in the dictionary `acc` under its id: an existing key keeps
      its position and takes the new value, a new key goes at the end. */
  function Put(acc: seq<Room>, x: Room): (r: seq<Room>)
    requires Distinct(acc, RoomId)
    ensures Distinct(r, RoomId)
    ensures RoomIds(r) == RoomIds(acc) + {x.id}
    ensures x in r
    ensures forall y :: y in acc && y.id != x.id ==> y in r
    ensures forall y :: y in r ==> (y in acc && y.id != x.id) || y == x
  {
    match FirstIndex(acc, (y: Room) => y.id == x.id)
    case Some(i) =>
      var r := acc[i := x];
      assert forall y :: y in acc && y.id != x.id ==> y in r by {
        forall y | y in acc && y.id != x.id ensures y in r {
          var j :| 0 <= j < |acc| && acc[j] == y;
          assert r[j] == y;
        }
      }
      assert r[i] == x;
      assert RoomIds(r) == RoomIds(acc) + {x.id} by {
        assert acc[i] in acc;
        forall id | id in RoomIds(acc) ensures id in RoomIds(r) {
          var y :| y in acc && y.id == id;
          if id != x.id { assert y in r; }
        }
      }
      r
    case None =>
      var r := acc + [x];
      assert r[|acc|] == x;
      r
  }

  /** Position `i` holds the last room of `s` with its id. */
  predicate LastWithId(s: seq<Room>, i: int) {
    0 <= i < |s| && forall j :: i < j < |s| ==> s[j].id != s[i].id
  }

  /** `{room.id: room for room in rooms}.values()`: one room per id, in the
      order the ids first appear; a later room replaces an earlier one with
      the same id, so the values are exactly the last room of each id. */
  function DictValues(s: seq<Room>): (r: seq<Room>)
    ensures Distinct(r, RoomId)
    ensures RoomIds(r) == RoomIds(s)
    ensures forall i :: LastWithId(s, i) ==> s[i] in r
    ensures forall y :: y in r ==> exists i :: LastWithId(s, i) && s[i] == y
  {
    if s == [] then []
    else
      var init := s[..|s| - 1];
      var x := s[|s| - 1];
      assert s == init + [x];
      assert RoomIds(s) == RoomIds(init) + {x.id};
      var prev := DictValues(init);
      var r := Put(prev, x);
      assert LastWithId(s, |s| - 1);
      assert forall i :: LastWithId(s, i) ==> s[i] in r by {
        forall i | LastWithId(s, i) ensures s[i] in r {
          if i < |s| - 1 {
            assert LastWithId(init, i);
          }
        }
      }
      assert forall y :: y in r ==> exists i :: LastWithId(s, i) && s[i] == y by {
        forall y | y in r ensures exists i :: LastWithId(s, i) && s[i] == y {
          if y != x {
            var i :| LastWithId(init, i) && init[i] == y;
            assert LastWithId(s, i);
          }
        }
      }
      r
  }

  /** The rooms of the chat list before sorting. */
  function ChatRooms(db: Db, uid: int): (r: seq<Room>)
    ensures Distinct(r, RoomId)
    ensures RoomIds(r) == ListedIds(db, uid)
    ensures forall room :: room in r ==> room in db.rooms
  {
    var both := UserRooms(db, uid) + DefaultRoomRows(db);
    assert forall room :: room in both <==> room in db.rooms && (SentTo(db, uid, room) || room.id in DefaultRooms);
    DictValues(both)
  }

  /** The room's newest message has no timestamp, so `.isoformat()` fails. */
  predicate Unstamped(db: Db, rid: string) {
    var newest := NewestFirst(db, rid);
    newest != [] && newest[0].timestamp.None?
  }

  /** What a chat entry must say about `room`: its id, name and type; the
      newest message's content and time, or the placeholder and the room's
      creation time when the room is empty; no unread messages; online. */
  ghost predicate Describes(db: Db, room: Room, e: ChatEntry) {
    && e.id == room.id && e.name == room.name && e.roomType == room.roomType
    && e.unreadCount == 0 && e.isOnline
    && (RoomMessages(db, room.id) == [] ==> e.lastMessage == NoMessagesYet && e.lastMessageTime == room.createdAt)
    && (RoomMessages(db, room.id) != [] ==>
          && (exists m :: m in RoomMessages(db, room.id) && m.content == e.lastMessage && m.timestamp == Some(e.lastMessageTime))
          && (forall m :: m in RoomMessages(db, room.id) ==> TimeKey(m) <= e.lastMessageTime))
  }

  /** The `chat_info` dictionary for one room, or None when its newest
      message has no timestamp. */
  function Entry(db: Db, room: Room): (e: Option<ChatEntry>)
    ensures e.None? <==> Unstamped(db, room.id)
    ensures e.Some? ==> Describes(db, room, e.value)
  {
    var newest := NewestFirst(db, room.id);
    if newest == [] then
      assert |RoomMessages(db, room.id)| == 0 by { assert |multiset(RoomMessages(db, room.id))| == 0; }
      Some(ChatEntry(room.id, room.name, room.roomType, NoMessagesYet, room.createdAt, 0, true))
    else if newest[0].timestamp.None? then
      None
    else
      var last := newest[0];
      assert last in RoomMessages(db, room.id) by { assert last in multiset(RoomMessages(db, room.id)); }
      forall m | m in RoomMessages(db, room.id) ensures TimeKey(m) <= last.timestamp.value {
        HeadIsMax(RoomMessages(db, room.id), newest, TimeKey, m);
      }
      Some(ChatEntry(room.id, room.name, room.roomType, last.content, last.timestamp.value, 0, true))
  }

  function LastActivity(e: ChatEntry): int { e.lastMessageTime }

  function EntryId(e: ChatEntry): string { e.id }

  /** `get_chats`: one entry per listed room, each describing that room,
      most recent activity first. It fails only when a listed room's newest
      message has no timestamp. */
  function GetChats(db: Db, req: ChatsRequest): (ev: ChatsEvent)
    ensures !TruthyInt(req.userId.Get()) ==> ev == ChatListError("user_id is required")
    ensures TruthyInt(req.userId.Get()) ==>
              (ev.ChatListError? <==> exists room :: room in db.rooms && room.id in ListedIds(db, req.userId.value) && Unstamped(db, room.id))
    ensures ev.ChatListError? && TruthyInt(req.userId.Get()) ==> ev.message == "Failed to retrieve chat list"
    ensures ev.ChatList? ==>
              && TruthyInt(req.userId.Get())
              && Distinct(ev.chats, EntryId)
              && (set e | e in ev.chats :: e.id) == ListedIds(db, req.userId.value)
              && SortedDesc(ev.chats, LastActivity)
              && (forall e :: e in ev.chats ==> exists room :: room in db.rooms && Describes(db, room, e))
  {
    if !TruthyInt(req.userId.Get()) then ChatListError("user_id is required")
    else
      var uid := req.userId.value;
      var rooms := ChatRooms(db, uid);
      ListedFailure(db, uid, rooms);
      match AllSome(rooms, (room: Room) => Entry(db, room))
      case None => ChatListError("Failed to retrieve chat list")
      case Some(entries) =>
        ChatsFacts(db, uid, rooms, entries);
        ChatList(SortDesc(entries, LastActivity))
  }

  /** The sorted entries of the chat rooms have distinct ids, cover exactly
      the listed ids and each describe a room. */
  lemma ChatsFacts(db: Db, uid: int, rooms: seq<Room>, entries: seq<ChatEntry>)
    requires rooms == ChatRooms(db, uid)
    requires |entries| == |rooms|
    requires forall i :: 0 <= i < |rooms| ==> Entry(db, rooms[i]) == Some(entries[i])
    ensures var chats := SortDesc(entries, LastActivity);
            && Distinct(chats, EntryId)
            && (set e | e in chats :: e.id) == ListedIds(db, uid)
            && (forall e :: e in chats ==> exists room :: room in db.rooms && Describes(db, room, e))
  {
    assert forall i :: 0 <= i < |rooms| ==> entries[i].id == rooms[i].id && Describes(db, rooms[i], entries[i]);
    SortedEntryIds(rooms, entries);
    SortedEntriesDescribe(db, rooms, entries);
  }

  /** Sorting entries made one per room keeps one entry per room id. */
  lemma SortedEntryIds(rooms: seq<Room>, entries: seq<ChatEntry>)
    requires |entries| == |rooms| && Distinct(rooms, RoomId)
    requires forall i :: 0 <= i < |rooms| ==> entries[i].id == rooms[i].id
    ensures var chats := SortDesc(entries, LastActivity);
            Distinct(chats, EntryId) && (set e | e in chats :: e.id) == RoomIds(rooms)
  {
    EntryIds(rooms, entries);
    SortKeepsDistinct(entries, LastActivity, EntryId);
    var chats := SortDesc(entries, LastActivity);
    assert forall e :: e in chats <==> e in multiset(entries);
  }

  /** Entries made one per room carry exactly the rooms' ids, each once. */
  lemma EntryIds(rooms: seq<Room>, entries: seq<ChatEntry>)
    requires |entries| == |rooms| && Distinct(rooms, RoomId)
    requires forall i :: 0 <= i < |rooms| ==> entries[i].id == rooms[i].id
    ensures Distinct(entries, EntryId) && (set e | e in entries :: e.id) == RoomIds(rooms)
  {
    forall i, j | 0 <= i < j < |entries| ensures entries[i].id != entries[j].id {
      assert entries[i].id == rooms[i].id && entries[j].id == rooms[j].id;
    }
    forall x | x in RoomIds(rooms) ensures x in (set e | e in entries :: e.id) {
      var room :| room in rooms && room.id == x;
      var i :| 0 <= i < |rooms| && rooms[i] == room;
      assert entries[i] in entries;
    }
  }

  /** Every sorted entry still describes one of the rooms it was made from. */
  lemma SortedEntriesDescribe(db: Db, rooms: seq<Room>, entries: seq<ChatEntry>)
    requires |entries| == |rooms|
    requires forall room :: room in rooms ==> room in db.rooms
    requires forall i :: 0 <= i < |rooms| ==> Describes(db, rooms[i], entries[i])
    ensures forall e :: e in SortDesc(entries, LastActivity) ==> exists room :: room in db.rooms && Describes(db, room, e)
  {
    var chats := SortDesc(entries, LastActivity);
    forall e | e in chats ensures exists room :: room in db.rooms && Describes(db, room, e) {
      assert e in multiset(entries);
      var i :| 0 <= i < |entries| && entries[i] == e;
      assert rooms[i] in rooms;
    }
  }

  /** Some room of the chat list fails exactly when some listed room id has
      an unstamped newest message. */
  lemma ListedFailure(db: Db, uid: int, rooms: seq<Room>)
    requires rooms == ChatRooms(db, uid)
    ensures (exists i :: 0 <= i < |rooms| && Entry(db, rooms[i]).None?) <==>
            (exists room :: room in db.rooms && room.id in ListedIds(db, uid) && Unstamped(db, room.id))
  {
    if i :| 0 <= i < |rooms| && Entry(db, rooms[i]).None? {
      var room := rooms[i];
      assert Unstamped(db, room.id);
      assert room in rooms && room in db.rooms && room.id in RoomIds(rooms);
    }
    if room :| room in db.rooms && room.id in ListedIds(db, uid) && Unstamped(db, room.id) {
      assert room.id in RoomIds(rooms);
      var other :| other in rooms && other.id == room.id;
      var i :| 0 <= i < |rooms| && rooms[i] == other;
      assert Unstamped(db, rooms[i].id);
      assert Entry(db, rooms[i]).None?;
    }
  }

  /** In a well-formed database every message has a timestamp, so the chat
      list of any given user succeeds. */
  lemma ChatsSucceedOnWellFormed(db: Db, req: ChatsRequest)
    requires WellFormed(db)
    requires TruthyInt(req.userId.Get())
    ensures GetChats(db, req).ChatList?
  {
    forall room | room in db.rooms ensures !Unstamped(db, room.id) {
      var newest := NewestFirst(db, room.id);
      if newest != [] {
        assert newest[0] in db.messages;
      }
    }
  }

  // --------------------------------------------------------- get_chat_history

  datatype HistoryRequest = HistoryRequest(
    userId: Field<int>,
    roomId: Field<string>,
    limit: Field<nat>,
    offset: Field<nat>)

  /** One element of `messages`: the row's dictionary plus its sender. */
  datatype HistoryEntry = HistoryEntry(message: MessageDict, senderName: string, senderEmail: string)

  /** `chat_history` or `chat_history_error`. */
  datatype HistoryEvent = ChatHistory(roomId: string, messages: seq<HistoryEntry>, hasMore: bool)
                        | ChatHistoryError(message: string)

  const DefaultHistoryLimit: nat := 50
  const UnknownSenderName: string := "Unknown"
  const UnknownSenderEmail: string := "unknown@example.com"

  /** `data.get('limit', 50)`; an explicit null passes `.limit(None)`, which
      is no limit at all. */
  function HistoryLimit(req: HistoryRequest): Option<nat> {
    req.limit.GetOr(DefaultHistoryLimit)
  }

  /** `data.get('offset', 0)`; an explicit null passes `.offset(None)`, which
      skips nothing. */
  function HistoryOffset(req: HistoryRequest): nat {
    req.offset.GetOr(0).GetOr(0)
  }

  /** The history element for `m`: its dictionary, and its sender's name (the
      `name` when set and non-empty, else the username) and email, or
      placeholders when the sender no longer exists. */
  function HistoryItem(db: Db, m: Message): (h: HistoryEntry)
    ensures h.message == ToDict(m) && FromDict(h.message) == m
    ensures UserIndex(db, m.senderId).None? ==>
              h.senderName == UnknownSenderName && h.senderEmail == UnknownSenderEmail
    ensures UserIndex(db, m.senderId).Some? ==>
              var u := db.users[UserIndex(db, m.senderId).value];
              && h.senderEmail == u.email
              && (TruthyStr(u.name) ==> h.senderName == u.name.value)
              && (!TruthyStr(u.name) ==> h.senderName == u.username)
  {
    match UserIndex(db, m.senderId)
    case None => HistoryEntry(ToDict(m), UnknownSenderName, UnknownSenderEmail)
    case Some(k) =>
      var u := db.users[k];
      HistoryEntry(ToDict(m), if TruthyStr(u.name) then u.name.value else u.username, u.email)
  }

  /** `rev` holds the elements of the newest-first `newest` ranked `offset`
      to `offset + limit - 1`, as many as exist, last rank first, so that it
      runs oldest first. */
  predicate IsPage(newest: seq<Message>, offset: nat, limit: Option<nat>, rev: seq<Message>) {
    && |rev| == (if offset >= |newest| then 0
                 else if limit.Some? && offset + limit.value < |newest| then limit.value
                 else |newest| - offset)
    && (forall i :: 0 <= i < |rev| ==>
          offset + |rev| - 1 - i < |newest| && rev[i] == newest[offset + |rev| - 1 - i])
    && (forall i, j :: 0 <= i < j < |rev| ==> TimeKey(rev[i]) <= TimeKey(rev[j]))
  }

  /** The messages of one history page: those of room `rid` ranked
      `offset` to `offset + limit - 1` newest first, in reverse, so oldest
      first. */
  function PageMessages(db: Db, rid: string, offset: nat, limit: Option<nat>): (rev: seq<Message>)
    ensures IsPage(NewestFirst(db, rid), offset, limit, rev)
  {
    var newest := NewestFirst(db, rid);
    ReversedWindow(newest, offset, limit);
    Reverse(Window(newest, offset, limit))
  }

  /** The history elements of one page, one per page message, in order. */
  function HistoryPage(db: Db, rid: string, offset: nat, limit: Option<nat>): (items: seq<HistoryEntry>)
    ensures var ms := PageMessages(db, rid, offset, limit);
            && |items| == |ms|
            && (forall i :: 0 <= i < |items| ==> items[i] == HistoryItem(db, ms[i]))
            && (forall i :: 0 <= i < |items| ==> FromDict(items[i].message) == ms[i])
  {
    var ms := PageMessages(db, rid, offset, limit);
    var items := Map(ms, (m: Message) => HistoryItem(db, m));
    ItemsCarryMessages(db, ms, items);
    items
  }

  /** Each history element is the one built for the message at the same
      position. */
  lemma ItemsCarryMessages(db: Db, ms: seq<Message>, items: seq<HistoryEntry>)
    requires items == Map(ms, (m: Message) => HistoryItem(db, m))
    ensures |items| == |ms|
    ensures forall i :: 0 <= i < |items| ==> items[i] == HistoryItem(db, ms[i])
  {
    var f := (m: Message) => HistoryItem(db, m);
    forall i | 0 <= i < |items| ensures items[i] == HistoryItem(db, ms[i]) {
      assert items[i] == f(ms[i]);
    }
  }

  /** A window of a newest-first sequence, reversed, holds ranks
      `offset + n - 1` down to `offset` and runs oldest first. */
  lemma ReversedWindow(newest: seq<Message>, offset: nat, limit: Option<nat>)
    requires SortedDesc(newest, TimeKey)
    ensures IsPage(newest, offset, limit, Reverse(Window(newest, offset, limit)))
  {
    var rev := Reverse(Window(newest, offset, limit));
    WindowRanks(newest, offset, limit);
    RanksAscend(newest, offset, rev);
  }

  /** The reversed window holds rank `offset + n - 1 - i` at position `i`. */
  lemma WindowRanks<T>(newest: seq<T>, offset: nat, limit: Option<nat>)
    ensures var rev := Reverse(Window(newest, offset, limit));
            forall i :: 0 <= i < |rev| ==> offset + |rev| - 1 - i < |newest| && rev[i] == newest[offset + |rev| - 1 - i]
  {
    var page := Window(newest, offset, limit);
    var rev := Reverse(page);
    var n := |page|;
    forall i | 0 <= i < n ensures offset + n - 1 - i < |newest| && rev[i] == newest[offset + n - 1 - i] {
      assert rev[i] == page[n - 1 - i];
    }
  }

  /** Ranks of a newest-first sequence taken from the highest down run
      oldest first. */
  lemma RanksAscend(newest: seq<Message>, offset: nat, rev: seq<Message>)
    requires SortedDesc(newest, TimeKey)
    requires forall i :: 0 <= i < |rev| ==> offset + |rev| - 1 - i < |newest| && rev[i] == newest[offset + |rev| - 1 - i]
    ensures forall i, j :: 0 <= i < j < |rev| ==> TimeKey(rev[i]) <= TimeKey(rev[j])
  {
    var n := |rev|;
    forall i, j | 0 <= i < j < n ensures TimeKey(rev[i]) <= TimeKey(rev[j]) {
      var ki, kj := offset + n - 1 - i, offset + n - 1 - j;
      var ri, rj := rev[i], rev[j];
      assert 0 <= kj < ki < |newest|;
      assert rev[i] == newest[ki] && rev[j] == newest[kj];
    }
  }

  /** `get_chat_history`: the page of the room's history `offset` and
      `limit` select, oldest first, with `has_more` set when the page came
      back full. Membership of the requester is not checked. */
  function GetChatHistory(db: Db, req: HistoryRequest): (ev: HistoryEvent)
    ensures !TruthyInt(req.userId.Get()) || !TruthyStr(req.roomId.Get()) ==>
              ev == ChatHistoryError("user_id and room_id are required")
    ensures TruthyInt(req.userId.Get()) && TruthyStr(req.roomId.Get()) ==>
              ev.ChatHistory? && ev.roomId == req.roomId.value
    ensures ev.ChatHistory? ==>
              var ms := PageMessages(db, ev.roomId, HistoryOffset(req), HistoryLimit(req));
              && |ev.messages| == |ms|
              && (forall i :: 0 <= i < |ms| ==> ev.messages[i] == HistoryItem(db, ms[i]))
              && (forall i :: 0 <= i < |ms| ==> FromDict(ev.messages[i].message) == ms[i])
              && (ev.hasMore <==> HistoryLimit(req).Some? && |ms| == HistoryLimit(req).value)
  {
    if !TruthyInt(req.userId.Get()) || !TruthyStr(req.roomId.Get()) then
      ChatHistoryError("user_id and room_id are required")
    else
      var rid := req.roomId.value;
      var items := HistoryPage(db, rid, HistoryOffset(req), HistoryLimit(req));
      ChatHistory(rid, items, HistoryLimit(req).Some? && |items| == HistoryLimit(req).value)
  }

  // ------------------------------------------------ properties across events

  /** Joining keeps the schema's guarantees: `general` is only created when
      no room has that id. */
  lemma JoinKeepsWellFormed(db: Db, req: JoinRequest, accepted: bool, now: Time)
    requires WellFormed(db)
    ensures WellFormed(JoinRoom(db, req, accepted, now).1)
  {
    var db1 := JoinRoom(db, req, accepted, now).1;
    if db1.rooms != db.rooms {
      var rid := req.roomId.value;
      assert RoomIndex(db, rid).None? && rid == GeneralRoomId;
      assert forall j :: 0 <= j < |db.rooms| ==> db1.rooms[j] == db.rooms[j] && db1.rooms[j] in db.rooms;
    }
  }

  /** Sending keeps the schema's guarantees: the new row takes the next
      message id and has a timestamp. */
  lemma SendKeepsWellFormed(db: Db, req: SendRequest, now: Time)
    requires WellFormed(db)
    ensures WellFormed(SendMessage(db, req, now).1)
  {
    var out := SendMessage(db, req, now);
    if out.0.MessageSent? {
      assert forall j :: 0 <= j < |db.messages| ==> out.1.messages[j] == db.messages[j];
    }
  }

  /** A user the room manager admitted to a room may send to it. */
  lemma JoinThenSend(db: Db, uid: int, rid: string, content: string, now: Time, later: Time)
    requires uid != 0 && rid != "" && content != ""
    requires JoinRoom(db, JoinRequest(Present(uid), Present(rid)), true, now).0.RoomJoined?
    ensures var joined := JoinRoom(db, JoinRequest(Present(uid), Present(rid)), true, now).1;
            SendMessage(joined, SendRequest(Present(uid), Present(rid), Present(content), Absent, Absent, Absent, Absent), later).0
              == MessageSent(joined.nextMessageId, later)
  {
  }

  /** A message sent later than every stored one is the newest of its room. */
  lemma SentMessageIsNewest(db: Db, req: SendRequest, now: Time)
    requires forall m :: m in db.messages ==> TimeKey(m) < now
    requires SendMessage(db, req, now).0.MessageSent?
    ensures var after := SendMessage(db, req, now).1;
            var m := after.messages[|db.messages|];
            NewestFirst(after, m.roomId) != [] && NewestFirst(after, m.roomId)[0] == m
  {
    var after := SendMessage(db, req, now).1;
    var m := after.messages[|db.messages|];
    var newest := NewestFirst(after, m.roomId);
    assert after.messages == db.messages + [m];
    assert m in RoomMessages(after, m.roomId);
    HeadIsMax(RoomMessages(after, m.roomId), newest, TimeKey, m);
    assert newest[0] in after.messages;
  }

  /** After a message is sent later than every stored one, the first page of
      its room's history ends with it. */
  lemma SendThenHistory(db: Db, req: SendRequest, now: Time, userId: int)
    requires userId != 0
    requires forall m :: m in db.messages ==> TimeKey(m) < now
    requires SendMessage(db, req, now).0.MessageSent?
    ensures var after := SendMessage(db, req, now).1;
            var m := after.messages[|db.messages|];
            var ev := GetChatHistory(after, HistoryRequest(Present(userId), Present(m.roomId), Absent, Absent));
            ev.ChatHistory? && ev.messages != [] && FromDict(ev.messages[|ev.messages| - 1].message) == m
  {
    SentMessageIsNewest(db, req, now);
    var after := SendMessage(db, req, now).1;
    var m := after.messages[|db.messages|];
    var req' := HistoryRequest(Present(userId), Present(m.roomId), Absent, Absent);
    var newest := NewestFirst(after, m.roomId);
    var ms := PageMessages(after, m.roomId, 0, Some(DefaultHistoryLimit));
    assert HistoryOffset(req') == 0 && HistoryLimit(req') == Some(DefaultHistoryLimit);
    assert IsPage(newest, 0, Some(DefaultHistoryLimit), ms);
    assert |ms| > 0;
    assert ms[|ms| - 1] == newest[0];
    var ev := GetChatHistory(after, req');
    assert FromDict(ev.messages[|ms| - 1].message) == ms[|ms| - 1];
  }

  /** After a message is sent later than every stored one to an existing
      room, the sender's chat list shows that room with the message as its
      last activity. */
  lemma SendThenChats(db: Db, req: SendRequest, now: Time)
    requires WellFormed(db)
    requires forall m :: m in db.messages ==> TimeKey(m) < now
    requires SendMessage(db, req, now).0.MessageSent?
    requires RoomIndex(db, req.roomId.value).Some?
    ensures var after := SendMessage(db, req, now).1;
            var ev := GetChats(after, ChatsRequest(req.senderId));
            && ev.ChatList?
            && (exists e :: e in ev.chats && e.id == req.roomId.value)
            && (forall e :: e in ev.chats && e.id == req.roomId.value ==>
                  e.lastMessage == req.content.value && e.lastMessageTime == now)
  {
    var after := SendMessage(db, req, now).1;
    var m := after.messages[|db.messages|];
    var uid, rid := req.senderId.value, req.roomId.value;
    assert after.messages == db.messages + [m];
    SendKeepsWellFormed(db, req, now);
    ChatsSucceedOnWellFormed(after, ChatsRequest(req.senderId));
    var ev := GetChats(after, ChatsRequest(req.senderId));
    var room := db.rooms[RoomIndex(db, rid).value];
    assert SentTo(after, uid, room) by { assert m in after.messages; }
    assert rid in ListedIds(after, uid);
    assert rid in (set e | e in ev.chats :: e.id);
    assert forall x :: x in RoomMessages(after, rid) && x != m ==> TimeKey(x) < TimeKey(m) by {
      forall x | x in RoomMessages(after, rid) && x != m ensures TimeKey(x) < TimeKey(m) {
        assert x in db.messages;
      }
    }
    forall e | e in ev.chats && e.id == rid
      ensures e.lastMessage == m.content && e.lastMessageTime == now
    {
      var r :| r in after.rooms && Describes(after, r, e);
      DescribedByNewest(after, r, e, m);
    }
  }

  /** When one message of a room is strictly newer than all others, an entry
      describing the room reports that message. */
  lemma DescribedByNewest(db: Db, room: Room, e: ChatEntry, m: Message)
    requires Describes(db, room, e)
    requires m in RoomMessages(db, room.id) && m.timestamp.Some?
    requires forall x :: x in RoomMessages(db, room.id) && x != m ==> TimeKey(x) < TimeKey(m)
    ensures e.lastMessage == m.content && Some(e.lastMessageTime) == m.timestamp
  {
    var last :| last in RoomMessages(db, room.id) && last.content == e.lastMessage && last.timestamp == Some(e.lastMessageTime);
    assert TimeKey(m) <= e.lastMessageTime;
  }

  /** The newer of two consecutive pages, put after the older one, is the
      page that spans both: paging through the history loses and repeats
      nothing. */
  lemma ConsecutivePages(db: Db, rid: string, offset: nat, n: nat, limit: Option<nat>)
    ensures PageMessages(db, rid, offset + n, limit) + PageMessages(db, rid, offset, Some(n))
            == PageMessages(db, rid, offset, if limit.Some? then Some(n + limit.value) else None)
  {
    var newest := NewestFirst(db, rid);
    var a, b := Window(newest, offset, Some(n)), Window(newest, offset + n, limit);
    WindowsTile(newest, offset, n, limit);
    ReverseAppend(a, b);
  }

  /** A page that comes back short was the last one: no message of the room
      is ranked beyond it. */
  lemma ShortPageIsLast(db: Db, req: HistoryRequest)
    requires GetChatHistory(db, req).ChatHistory?
    requires HistoryLimit(req).Some? && !GetChatHistory(db, req).hasMore
    ensures var ev := GetChatHistory(db, req);
            HistoryOffset(req) + |ev.messages| >= |RoomMessages(db, ev.roomId)|
  {
    var ev := GetChatHistory(db, req);
    assert |NewestFirst(db, ev.roomId)| == |RoomMessages(db, ev.roomId)| by {
      assert |multiset(NewestFirst(db, ev.roomId))| == |multiset(RoomMessages(db, ev.roomId))|;
    }
  }

  /** The flag only says the page is full, not that more follows: a room
      with exactly one message, read with limit 1, reports `has_more` and the
      next page is empty. */
  lemma FullLastPageReportsMore()
    ensures var m := Message(1, 7, "general", "hi", None, None, false, "text", "sent", None, Some(5));
            var db := Db([], [], [m], {}, 1, 2);
            var req := HistoryRequest(Present(7), Present("general"), Present(1), Absent);
            && GetChatHistory(db, req).hasMore
            && GetChatHistory(db, req.(offset := Present(1))).messages == []
  {
    var m := Message(1, 7, "general", "hi", None, None, false, "text", "sent", None, Some(5));
    var db := Db([], [], [m], {}, 1, 2);
    var req := HistoryRequest(Present(7), Present("general"), Present(1), Absent);
    assert RoomMessages(db, "general") == [m];
    assert |NewestFirst(db, "general")| == 1;
    assert |PageMessages(db, "general", 0, Some(1))| == 1;
    assert |GetChatHistory(db, req).messages| == 1;
    assert PageMessages(db, "general", 1, Some(1)) == [];
  }

  /** Who asks does not matter: any two non-zero user ids read the same
      history, whether or not they belong to the room. */
  lemma HistoryIgnoresRequester(db: Db, req: HistoryRequest, other: int)
    requires TruthyInt(req.userId.Get()) && other != 0
    ensures GetChatHistory(db, req) == GetChatHistory(db, req.(userId := Present(other)))
  {
  }
}
