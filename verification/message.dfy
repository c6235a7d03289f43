/** The stored chat message (`models/message.py`) and its JSON projection.
    Times are instants as natural numbers; `isoformat()` is left abstract. */
module MessageModel {
  import opened Common

  /** One row of the message table. `senderId`, `roomId` and `content` are
      NOT NULL columns and so are never absent; the key, the IV and the
      delivery time may be. `timestamp` is unset only before the row is
      inserted. */
  datatype Message = Message(
    id: int,
    senderId: int,
    roomId: string,
    content: string,
    encryptedAesKey: Option<string>,
    iv: Option<string>,
    isEncrypted: bool,
    messageType: string,
    status: string,
    deliveredAt: Option<nat>,
    timestamp: Option<nat>)

  const DefaultMessageType: string := "text"
  const DefaultStatus: string := "sent"

  /** The row created by `Message(...)` and inserted at time `now`. A column
      given as None (left out, or explicitly null) takes its column default:
      not encrypted, type 'text'; the status starts as 'sent', nothing is
      delivered yet, and the timestamp is the insertion time. */
  function NewMessage(id: int, senderId: int, roomId: string, content: string,
                      encryptedAesKey: Option<string>, iv: Option<string>,
                      isEncrypted: Option<bool>, messageType: Option<string>,
                      now: nat): (m: Message)
    ensures m.id == id && m.senderId == senderId && m.roomId == roomId && m.content == content
    ensures m.encryptedAesKey == encryptedAesKey && m.iv == iv
    ensures isEncrypted.None? ==> !m.isEncrypted
    ensures isEncrypted.Some? ==> m.isEncrypted == isEncrypted.value
    ensures messageType.None? ==> m.messageType == "text"
    ensures messageType.Some? ==> m.messageType == messageType.value
    ensures m.status == "sent" && m.deliveredAt == None && m.timestamp == Some(now)
  {
    Message(id, senderId, roomId, content, encryptedAesKey, iv,
            isEncrypted.GetOr(false), messageType.GetOr(DefaultMessageType),
            DefaultStatus, None, Some(now))
  }

  /** The dictionary `to_dict()` returns; `messageId` duplicates `id` for old
      clients. */
  datatype MessageDict = MessageDict(
    id: int,
    messageId: int,
    senderId: int,
    roomId: string,
    content: string,
    encryptedAesKey: Option<string>,
    iv: Option<string>,
    isEncrypted: bool,
    messageType: string,
    status: string,
    deliveredAt: Option<nat>,
    timestamp: Option<nat>)

  /** `to_dict()`: `message_id` repeats the row id, an unset delivery time or
      timestamp becomes null, and no stored field is lost. */
  function ToDict(m: Message): (d: MessageDict)
    ensures d.id == m.id && d.messageId == m.id
    ensures m.deliveredAt.None? <==> d.deliveredAt.None?
    ensures m.timestamp.None? <==> d.timestamp.None?
    ensures FromDict(d) == m
  {
    MessageDict(m.id, m.id, m.senderId, m.roomId, m.content, m.encryptedAesKey, m.iv,
                m.isEncrypted, m.messageType, m.status, m.deliveredAt, m.timestamp)
  }

  /** Reads a message back from its dictionary. */
  function FromDict(d: MessageDict): Message {
    Message(d.id, d.senderId, d.roomId, d.content, d.encryptedAesKey, d.iv,
            d.isEncrypted, d.messageType, d.status, d.deliveredAt, d.timestamp)
  }
}
