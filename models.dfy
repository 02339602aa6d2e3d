/** The message records of the API: the validated request (`MessageIn`), the
    response shape (`MessageOut`), the dictionary form that the service hands to
    the store (`MessageData`), the stored table row (`MessageRow`) with its
    serialisation, and the outcomes shared by every layer. */
module Models {

  datatype Option<T> = None | Some(value: T)

  /** A date as the `DateTime` columns store it, modelled by an integer clock. */
  type Instant = int

  /** The failures the core reports, as values rather than exceptions. */
  datatype Error =
    | DuplicateKey(messageId: string)   // primary-key violation on save
    | InvalidQuery                      // search term too short
    | InvalidSender(sender: string)     // sender outside the whitelist
    | MissingContent                    // the record handed to the store has no content
    | InvalidTimestamp(text: string)    // a date string the ISO parser rejects

  datatype Result<T> = Ok(value: T) | Err(error: Error)

  /** The only senders a message may have. */
  const Senders: set<string> := {"user", "system"}

  /** The field validator on `sender`: the value is accepted unchanged when it
      is whitelisted and rejected otherwise. */
  function ValidateSender(v: string): (r: Result<string>)
    ensures r.Ok? <==> (v == "user" || v == "system")
    ensures r.Ok? ==> r.value == v
    ensures r.Err? ==> r.error == InvalidSender(v)
  {
    if v !in Senders then Err(InvalidSender(v)) else Ok(v)
  }

  /** A validated create request. */
  datatype MessageIn = MessageIn(
    messageId: string,
    sessionId: string,
    content: string,
    timestamp: Instant,
    sender: string)

  /** Building a request runs the sender validator; every other field is
      taken as given. */
  function NewMessageIn(messageId: string, sessionId: string, content: string,
                        timestamp: Instant, sender: string): (r: Result<MessageIn>)
    ensures r.Ok? <==> sender in Senders
    ensures r.Err? ==> r.error == InvalidSender(sender)
    ensures r.Ok? ==> r.value.messageId == messageId && r.value.sessionId == sessionId
                      && r.value.content == content && r.value.timestamp == timestamp
                      && r.value.sender == sender
  {
    match ValidateSender(sender)
    case Ok(v) => Ok(MessageIn(messageId, sessionId, content, timestamp, v))
    case Err(e) => Err(e)
  }

  /** The response shape: a request plus `processed_at`, absent by default. */
  datatype MessageOut = MessageOut(
    messageId: string,
    sessionId: string,
    content: string,
    timestamp: Instant,
    sender: string,
    processedAt: Option<Instant>)

  function RequestOf(o: MessageOut): MessageIn {
    MessageIn(o.messageId, o.sessionId, o.content, o.timestamp, o.sender)
  }

  /** A response built from a request alone carries the request unchanged and
      no processing time. */
  function MessageOutOf(m: MessageIn): (o: MessageOut)
    ensures RequestOf(o) == m
    ensures o.processedAt == None
  {
    MessageOut(m.messageId, m.sessionId, m.content, m.timestamp, m.sender, None)
  }

  /** A date-valued entry of a message dictionary: missing, a date, or text
      still to be parsed. */
  datatype TimeValue = NoTime | DateTime(instant: Instant) | IsoText(text: string)

  datatype Metadata = Metadata(length: nat, badWords: seq<string>)

  /** The dictionary form of a message that travels from the service to the
      store. `content` may be missing; `metadata` is added by the processor. */
  datatype MessageData = MessageData(
    messageId: string,
    sessionId: string,
    content: Option<string>,
    timestamp: TimeValue,
    sender: string,
    processedAt: TimeValue,
    metadata: Option<Metadata>)

  /** `model_dump` of a request: every request field, nothing else. */
  function Dump(m: MessageIn): (d: MessageData)
    ensures d.messageId == m.messageId && d.sessionId == m.sessionId && d.sender == m.sender
    ensures d.content == Some(m.content) && d.timestamp == DateTime(m.timestamp)
    ensures d.processedAt == NoTime && d.metadata == None
  {
    MessageData(m.messageId, m.sessionId, Some(m.content), DateTime(m.timestamp), m.sender, NoTime, None)
  }

  /** One row of the `messages` table; `messageId` is its primary key. */
  datatype MessageRow = MessageRow(
    messageId: string,
    sessionId: string,
    content: string,
    timestamp: Option<Instant>,
    sender: string,
    processedAt: Option<Instant>)

  /** A serialised value: text or null. */
  datatype JsonValue = JString(text: string) | JNull

  const RowKeys: set<string> :=
    {"message_id", "session_id", "content", "timestamp", "sender", "processed_at"}

  /** A date column as ISO text, or null when it is empty. `iso` stands for
      `datetime.isoformat`. */
  function IsoOrNull(t: Option<Instant>, iso: Instant -> string): (v: JsonValue)
    ensures v == JNull <==> t.None?
    ensures t.Some? ==> v == JString(iso(t.value))
  {
    match t
    case None => JNull
    case Some(i) => JString(iso(i))
  }

  /** `to_dict`: the six columns under their column names. */
  function ToDict(row: MessageRow, iso: Instant -> string): (d: map<string, JsonValue>)
    ensures d.Keys == RowKeys
    ensures d["message_id"] == JString(row.messageId)
    ensures d["session_id"] == JString(row.sessionId)
    ensures d["content"] == JString(row.content)
    ensures d["sender"] == JString(row.sender)
    ensures d["timestamp"] == IsoOrNull(row.timestamp, iso)
    ensures d["processed_at"] == IsoOrNull(row.processedAt, iso)
  {
    map["message_id" := JString(row.messageId),
        "session_id" := JString(row.sessionId),
        "content" := JString(row.content),
        "timestamp" := IsoOrNull(row.timestamp, iso),
        "sender" := JString(row.sender),
        "processed_at" := IsoOrNull(row.processedAt, iso)]
  }

  /** Serialisation loses nothing: when distinct dates have distinct ISO texts,
      distinct rows have distinct dictionaries. */
  lemma ToDictInjective(a: MessageRow, b: MessageRow, iso: Instant -> string)
    requires forall x, y :: iso(x) == iso(y) ==> x == y
    ensures ToDict(a, iso) == ToDict(b, iso) ==> a == b
  {
    if ToDict(a, iso) == ToDict(b, iso) {
      var da, db := ToDict(a, iso), ToDict(b, iso);
      assert da["timestamp"] == db["timestamp"];
      assert da["processed_at"] == db["processed_at"];
      if a.timestamp.Some? {
        assert iso(a.timestamp.value) == iso(b.timestamp.value);
      }
      if a.processedAt.Some? {
        assert iso(a.processedAt.value) == iso(b.processedAt.value);
      }
    }
  }
}
