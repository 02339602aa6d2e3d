/** The message service: a record is processed and then saved, a session's
    messages are read through the store, and a text search is refused
    before it reaches the store when its query is too short. */
module Service {
  import opened Models
  import opened Text
  import opened Table
  import opened Processor
  import opened Repository

  /** The guard of `search_messages`: an empty query, or one with fewer than
      two characters once surrounding whitespace is stripped. */
  predicate QueryTooShort(query: string) {
    query == [] || |Strip(query)| < 2
  }

  /** A query is refused exactly when it holds fewer than two characters
      that are not whitespace. */
  lemma QueryTooShortIff(query: string)
    ensures QueryTooShort(query)
            <==> !exists a, b :: 0 <= a < b < |query| && !IsSpace(query[a]) && !IsSpace(query[b])
  {
    StripLengthAtLeastTwo(query);
  }

  /** What a successful `save_message` stores: the censored content, the
      processing time, and the record's other fields; a failure can only
      come from the timestamp or the key, since processing always supplies
      the content and a processing date. */
  lemma SavedMessageIsProcessed(rows: seq<MessageRow>, data: MessageData, now: Instant,
                                fromIso: string -> Option<Instant>)
    ensures var out := SaveOutcome(rows, ProcessMessage(data, now), fromIso);
            && (out.0.Ok? <==> ParseIsoToDt(data.timestamp, fromIso).Ok? && !HasId(rows, data.messageId))
            && (out.0.Ok? ==> out.0.value.content == Censor(OriginalContent(data))
                              && out.0.value.processedAt == Some(now)
                              && out.0.value.messageId == data.messageId
                              && out.0.value.sessionId == data.sessionId
                              && out.0.value.sender == data.sender
                              && out.0.value.timestamp == ParseIsoToDt(data.timestamp, fromIso).value
                              && out.1 == rows + [out.0.value])
            && (ParseIsoToDt(data.timestamp, fromIso).Err? ==> out == (Err(InvalidTimestamp(data.timestamp.text)), rows))
  {
    var p := ProcessMessage(data, now);
    assert ParseIsoToDt(p.processedAt, fromIso) == Ok(Some(now));
  }

  class MessageService {
    const repository: MessageRepository

    /** A service over the given store; the forbidden words it masks are
        `Processor.BadWords`. */
    constructor(repository: MessageRepository)
      ensures this.repository == repository
    {
      this.repository := repository;
    }

    /** `save_message`: the record is processed at time `now` and the
        processed record is saved. */
    method SaveMessage(data: MessageData, now: Instant) returns (r: Result<MessageRow>)
      requires repository.Valid()
      modifies repository
      ensures repository.Valid()
      ensures (r, repository.rows) == SaveOutcome(old(repository.rows), ProcessMessage(data, now), repository.fromIso)
    {
      var processed := ProcessMessage(data, now);
      r := repository.Save(processed);
    }

    /** `get_messages`: the store's page of the session's messages for the
        same arguments. */
    function GetMessages(sessionId: string, limit: nat, offset: nat, sender: Option<string>): (r: seq<MessageRow>)
      reads repository
      ensures r == repository.GetBySession(sessionId, limit, offset, sender)
      ensures Ordered(r) && |r| <= limit
      ensures forall x :: x in r ==> x in repository.rows && InSession(x, sessionId, sender)
    {
      repository.GetBySession(sessionId, limit, offset, sender)
    }

    /** `search_messages`: a too-short query is refused whatever the store
        holds; any other query gets the store's page of search hits. */
    function SearchMessages(sessionId: string, query: string, limit: nat, offset: nat): (r: Result<seq<MessageRow>>)
      reads repository
      ensures r.Err? <==> QueryTooShort(query)
      ensures r.Err? ==> r.error == InvalidQuery
      ensures r.Ok? ==> r.value == repository.SearchMessages(sessionId, query, limit, offset)
      ensures r.Ok? ==> Ordered(r.value) && |r.value| <= limit
                        && forall x :: x in r.value ==> x in repository.rows && SearchHit(x, sessionId, query)
    {
      if QueryTooShort(query) then Err(InvalidQuery)
      else Ok(repository.SearchMessages(sessionId, query, limit, offset))
    }
  }
}
