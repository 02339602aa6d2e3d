/** The message store: the `messages` table as an in-memory sequence of rows
    with `message_id` as primary key, the date normalisation applied when a
    record is saved, and the two read queries (a session's messages and a
    text search within a session). */
module Repository {
  import opened Models
  import opened Text
  import opened Table

  // ---------------------------------------------------------------------
  // Date normalisation

  /** What `replace("Z", "+00:00")` turns one character into. */
  function ReplaceZChar(c: char): string {
    if c == 'Z' then "+00:00" else [c]
  }

  /** `replace("Z", "+00:00")`: every `Z` of the text is rewritten, not only
      a trailing one. */
  function ReplaceZ(s: string): (r: string)
    ensures 'Z' in s || r == s
  {
    if s == [] then [] else ReplaceZChar(s[0]) + ReplaceZ(s[1..])
  }

  lemma {:induction false} ReplaceZAppend(a: string, b: string)
    ensures ReplaceZ(a + b) == ReplaceZ(a) + ReplaceZ(b)
  {
    if a == [] {
      assert a + b == b;
    } else {
      var head := ReplaceZChar(a[0]);
      assert (a + b)[0] == a[0] && (a + b)[1..] == a[1..] + b;
      ReplaceZAppend(a[1..], b);
      calc {
        ReplaceZ(a + b);
        head + ReplaceZ(a[1..] + b);
        head + (ReplaceZ(a[1..]) + ReplaceZ(b));
        (head + ReplaceZ(a[1..])) + ReplaceZ(b);
        ReplaceZ(a) + ReplaceZ(b);
      }
    }
  }

  /** No `Z` survives the rewriting. */
  lemma {:induction false} ReplaceZRemovesAll(s: string)
    ensures 'Z' !in ReplaceZ(s)
  {
    if s != [] {
      ReplaceZRemovesAll(s[1..]);
    }
  }

  /** The rewriting changes the text exactly when it holds a `Z`. */
  lemma ReplaceZUnchanged(s: string)
    ensures ReplaceZ(s) == s <==> 'Z' !in s
  {
    ReplaceZRemovesAll(s);
  }

  /** The text handed to the ISO parser: a text that ends in `Z` has its `Z`
      characters rewritten to the `+00:00` offset, any other text is kept. */
  function NormalizeIso(s: string): (r: string)
    ensures (s == [] || s[|s| - 1] != 'Z') ==> r == s
    ensures (s != [] && s[|s| - 1] == 'Z') ==> r == ReplaceZ(s) && 'Z' !in r
  {
    ReplaceZRemovesAll(s);
    if s != [] && s[|s| - 1] == 'Z' then ReplaceZ(s) else s
  }

  /** A trailing zulu marker becomes the UTC offset. */
  lemma NormalizeZulu(s: string)
    requires 'Z' !in s
    ensures NormalizeIso(s + "Z") == s + "+00:00"
  {
    ReplaceZAppend(s, "Z");
    ReplaceZUnchanged(s);
  }

  /** `_parse_iso_to_dt`: a missing value stays missing, a date passes
      through unchanged, and a text is normalised and handed to the ISO
      parser `fromIso` (standing for `datetime.fromisoformat`), whose
      rejection is reported with the original text. */
  function ParseIsoToDt(v: TimeValue, fromIso: string -> Option<Instant>): (r: Result<Option<Instant>>)
    ensures v.NoTime? ==> r == Ok(None)
    ensures v.DateTime? ==> r == Ok(Some(v.instant))
    ensures v.IsoText? ==> (r.Ok? <==> fromIso(NormalizeIso(v.text)).Some?)
    ensures v.IsoText? && r.Ok? ==> r.value == fromIso(NormalizeIso(v.text))
    ensures v.IsoText? && r.Err? ==> r.error == InvalidTimestamp(v.text)
    ensures r.Err? ==> v.IsoText?
  {
    match v
    case NoTime => Ok(None)
    case DateTime(t) => Ok(Some(t))
    case IsoText(text) =>
      match fromIso(NormalizeIso(text))
      case Some(t) => Ok(Some(t))
      case None => Err(InvalidTimestamp(text))
  }

  /** What `to_dict` writes for a date is read back as the same date, when
      the parser inverts the formatter and the formatter writes no `Z`. */
  lemma ParseIsoRoundTrip(row: MessageRow, iso: Instant -> string, fromIso: string -> Option<Instant>)
    requires forall t :: fromIso(iso(t)) == Some(t)
    requires forall t :: 'Z' !in iso(t)
    requires row.timestamp.Some?
    ensures ToDict(row, iso)["timestamp"].JString?
    ensures ParseIsoToDt(IsoText(ToDict(row, iso)["timestamp"].text), fromIso) == Ok(row.timestamp)
  {
    var t := row.timestamp.value;
    var text := iso(t);
    assert ToDict(row, iso)["timestamp"] == JString(text);
    assert 'Z' !in text;
    assert text == [] || text[|text| - 1] != 'Z';
    assert fromIso(text) == Some(t);
  }

  // ---------------------------------------------------------------------
  // Saving

  /** The row `save` builds from a record: both dates are parsed (the
      timestamp first), then the content is looked up; `metadata` is not
      stored. */
  function BuildRow(data: MessageData, fromIso: string -> Option<Instant>): (r: Result<MessageRow>)
    ensures ParseIsoToDt(data.timestamp, fromIso).Err? ==> r == Err(ParseIsoToDt(data.timestamp, fromIso).error)
    ensures ParseIsoToDt(data.timestamp, fromIso).Ok? && ParseIsoToDt(data.processedAt, fromIso).Err?
            ==> r == Err(ParseIsoToDt(data.processedAt, fromIso).error)
    ensures r.Ok? <==> ParseIsoToDt(data.timestamp, fromIso).Ok? && ParseIsoToDt(data.processedAt, fromIso).Ok?
                       && data.content.Some?
    ensures r.Err? && ParseIsoToDt(data.timestamp, fromIso).Ok? && ParseIsoToDt(data.processedAt, fromIso).Ok?
            ==> r.error == MissingContent
    ensures r.Ok? ==> r.value.messageId == data.messageId && r.value.sessionId == data.sessionId
                      && r.value.sender == data.sender && Some(r.value.content) == data.content
                      && r.value.timestamp == ParseIsoToDt(data.timestamp, fromIso).value
                      && r.value.processedAt == ParseIsoToDt(data.processedAt, fromIso).value
  {
    match ParseIsoToDt(data.timestamp, fromIso)
    case Err(e) => Err(e)
    case Ok(ts) =>
      match ParseIsoToDt(data.processedAt, fromIso)
      case Err(e) => Err(e)
      case Ok(processedAt) =>
        match data.content
        case None => Err(MissingContent)
        case Some(content) =>
          Ok(MessageRow(data.messageId, data.sessionId, content, ts, data.sender, processedAt))
  }

  /** What one `save` reports and leaves in the table: the new row is
      appended when it is well formed and its key is new; otherwise the
      table is left as it was and the failure is reported, a taken key as
      `DuplicateKey`. */
  function SaveOutcome(rows: seq<MessageRow>, data: MessageData, fromIso: string -> Option<Instant>)
    : (out: (Result<MessageRow>, seq<MessageRow>))
    ensures out.0.Ok? <==> BuildRow(data, fromIso).Ok? && !HasId(rows, data.messageId)
    ensures out.0.Ok? ==> out.0.value == BuildRow(data, fromIso).value && out.1 == rows + [out.0.value]
    ensures out.0.Err? ==> out.1 == rows
    ensures BuildRow(data, fromIso).Err? ==> out.0 == Err(BuildRow(data, fromIso).error)
    ensures BuildRow(data, fromIso).Ok? && HasId(rows, data.messageId) ==> out.0 == Err(DuplicateKey(data.messageId))
  {
    match BuildRow(data, fromIso)
    case Err(e) => (Err(e), rows)
    case Ok(row) =>
      if HasId(rows, row.messageId) then (Err(DuplicateKey(row.messageId)), rows)
      else (Ok(row), rows + [row])
  }

  /** Saving never breaks the primary key. */
  lemma SaveKeepsKeysUnique(rows: seq<MessageRow>, data: MessageData, fromIso: string -> Option<Instant>)
    requires UniqueIds(rows)
    ensures UniqueIds(SaveOutcome(rows, data, fromIso).1)
  {
    var out := SaveOutcome(rows, data, fromIso);
    if out.0.Ok? {
      UniqueSnoc(rows, out.0.value);
    }
  }

  /** Saving the same record twice: the second save reports the taken key
      and leaves the table as the first save left it. */
  lemma SaveTwiceFails(rows: seq<MessageRow>, data: MessageData, fromIso: string -> Option<Instant>)
    requires SaveOutcome(rows, data, fromIso).0.Ok?
    ensures var after := SaveOutcome(rows, data, fromIso).1;
            SaveOutcome(after, data, fromIso) == (Err(DuplicateKey(data.messageId)), after)
  {
    var out := SaveOutcome(rows, data, fromIso);
    assert out.0.value in out.1;
  }

  // ---------------------------------------------------------------------
  // Queries

  /** The filter of `get_by_session`: the session, and the sender when one
      is given (an empty sender, like a missing one, filters nothing). */
  predicate InSession(x: MessageRow, sessionId: string, sender: Option<string>) {
    x.sessionId == sessionId && (sender.None? || sender.value == [] || x.sender == sender.value)
  }

  /** The filter of `search_messages`: the session, and `content ILIKE
      '%query%'`, which SQLite evaluates by lower-casing both sides. */
  predicate SearchHit(x: MessageRow, sessionId: string, query: string) {
    x.sessionId == sessionId && Like(Lower(x.content), Lower("%" + query + "%"))
  }

  /** The rows `get_by_session` pages through: those of the session (and
      sender), each as often as the table holds it, in timestamp order. */
  function Timeline(rows: seq<MessageRow>, sessionId: string, sender: Option<string>): (r: seq<MessageRow>)
    ensures Ordered(r)
    ensures forall x :: multiset(r)[x] == if InSession(x, sessionId, sender) then multiset(rows)[x] else 0
  {
    var keep := x => InSession(x, sessionId, sender);
    var kept := Filter(rows, keep);
    FilterCount(rows, keep);
    SortOrdered(kept);
    Sort(kept)
  }

  /** The rows `search_messages` pages through: those of the session whose
      content the pattern matches, in timestamp order. */
  function SearchTimeline(rows: seq<MessageRow>, sessionId: string, query: string): (r: seq<MessageRow>)
    ensures Ordered(r)
    ensures forall x :: multiset(r)[x] == if SearchHit(x, sessionId, query) then multiset(rows)[x] else 0
  {
    var keep := x => SearchHit(x, sessionId, query);
    var kept := Filter(rows, keep);
    FilterCount(rows, keep);
    SortOrdered(kept);
    Sort(kept)
  }

  /** Filtering by sender after ordering the session gives the sender's
      timeline: the sender filter does not disturb the order of the rows. */
  lemma SenderTimeline(rows: seq<MessageRow>, sessionId: string, sender: string)
    requires sender != []
    ensures Timeline(rows, sessionId, Some(sender))
            == Filter(Timeline(rows, sessionId, None), (x: MessageRow) => x.sender == sender)
  {
    var all := x => InSession(x, sessionId, None);
    var bySender := (x: MessageRow) => x.sender == sender;
    var both := x => InSession(x, sessionId, Some(sender));
    FilterSort(Filter(rows, all), bySender);
    FilterTwice(rows, all, bySender, both);
  }

  /** Two filters in a row are one filter on their conjunction. */
  lemma {:induction false} FilterTwice(rows: seq<MessageRow>, p: MessageRow -> bool, q: MessageRow -> bool,
                                       both: MessageRow -> bool)
    requires forall x :: both(x) == (p(x) && q(x))
    ensures Filter(Filter(rows, p), q) == Filter(rows, both)
  {
    if rows != [] {
      FilterTwice(rows[1..], p, q, both);
      var head := rows[0];
      var ft := Filter(rows[1..], p);
      assert Filter(rows, both) == (if both(head) then [head] else []) + Filter(rows[1..], both);
      if p(head) {
        assert Filter(rows, p) == [head] + ft;
        assert ([head] + ft)[1..] == ft;
        assert Filter([head] + ft, q) == (if q(head) then [head] else []) + Filter(ft, q);
      } else {
        assert Filter(rows, p) == ft;
      }
    }
  }

  /** The search does not depend on the case of the query. */
  lemma SearchIgnoresCase(rows: seq<MessageRow>, sessionId: string, q1: string, q2: string)
    requires Lower(q1) == Lower(q2)
    ensures SearchTimeline(rows, sessionId, q1) == SearchTimeline(rows, sessionId, q2)
  {
    LowerAppend("%", q1 + "%");
    LowerAppend(q1, "%");
    LowerAppend("%", q2 + "%");
    LowerAppend(q2, "%");
    assert "%" + q1 + "%" == "%" + (q1 + "%");
    assert "%" + q2 + "%" == "%" + (q2 + "%");
    FilterCongruent(rows, x => SearchHit(x, sessionId, q1), x => SearchHit(x, sessionId, q2));
  }

  /** For a query without `%` or `_`, a row is a hit exactly when its
      content holds the query as a substring, ignoring case. The
      wildcards are not escaped, so in other queries they match any run of
      characters and any single character. */
  lemma SearchIsSubstring(x: MessageRow, sessionId: string, query: string)
    requires NoWildcards(query)
    ensures SearchHit(x, sessionId, query)
            <==> x.sessionId == sessionId && IsSubstring(Lower(query), Lower(x.content))
  {
    LowerAppend("%", query + "%");
    LowerAppend(query, "%");
    assert "%" + query + "%" == "%" + (query + "%");
    assert Lower("%" + query + "%") == "%" + Lower(query) + "%";
    assert NoWildcards(Lower(query));
    LikeContains(Lower(x.content), Lower(query));
  }

  /** A session's timeline has unique keys when the table has. */
  lemma TimelineUnique(rows: seq<MessageRow>, sessionId: string, sender: Option<string>)
    requires UniqueIds(rows)
    ensures UniqueIds(Timeline(rows, sessionId, sender))
  {
    var keep := x => InSession(x, sessionId, sender);
    FilterUnique(rows, keep);
    SortUnique(Filter(rows, keep));
  }

  lemma SearchTimelineUnique(rows: seq<MessageRow>, sessionId: string, query: string)
    requires UniqueIds(rows)
    ensures UniqueIds(SearchTimeline(rows, sessionId, query))
  {
    var keep := x => SearchHit(x, sessionId, query);
    FilterUnique(rows, keep);
    SortUnique(Filter(rows, keep));
  }

  // ---------------------------------------------------------------------
  // The repository object

  class MessageRepository {
    /** The `messages` table, in insertion order. */
    var rows: seq<MessageRow>
    /** The ISO date parser (`datetime.fromisoformat`) followed by the
        `DateTime` column's storage: the date the column keeps for a text (its
        wall-clock reading, the offset dropped), or nothing when the text is
        not an ISO date. */
    const fromIso: string -> Option<Instant>

    /** The table honours its primary key. */
    ghost predicate Valid()
      reads this
    {
      UniqueIds(rows)
    }

    /** A store over the table the database already holds. */
    constructor(fromIso: string -> Option<Instant>, table: seq<MessageRow>)
      requires UniqueIds(table)
      ensures Valid() && rows == table && this.fromIso == fromIso
    {
      rows := table;
      this.fromIso := fromIso;
    }

    /** `save`: build the row, reject a taken key, append. */
    method Save(data: MessageData) returns (r: Result<MessageRow>)
      requires Valid()
      modifies this
      ensures Valid()
      ensures (r, rows) == SaveOutcome(old(rows), data, fromIso)
    {
      var built := BuildRow(data, fromIso);
      if built.Err? {
        return Err(built.error);
      }
      var row := built.value;
      if HasId(rows, row.messageId) {
        return Err(DuplicateKey(row.messageId));
      }
      UniqueSnoc(rows, row);
      rows := rows + [row];
      r := Ok(row);
    }

    /** `get_by_session`: the page of the session's timeline that starts at
        `offset` and holds at most `limit` rows. */
    function GetBySession(sessionId: string, limit: nat, offset: nat, sender: Option<string>): (r: seq<MessageRow>)
      reads this
      ensures var all := Timeline(rows, sessionId, sender);
              && |r| == (if offset >= |all| then 0 else Min(limit, |all| - offset))
              && (forall k :: 0 <= k < |r| ==> r[k] == all[offset + k])
      ensures Ordered(r)
      ensures forall x :: x in r ==> x in rows && InSession(x, sessionId, sender)
    {
      var all := Timeline(rows, sessionId, sender);
      var r := Page(all, offset, limit);
      assert forall x :: x in r ==> x in all && x in multiset(all);
      r
    }

    /** `search_messages`: the page of the session's search hits that starts
        at `offset` and holds at most `limit` rows. */
    function SearchMessages(sessionId: string, query: string, limit: nat, offset: nat): (r: seq<MessageRow>)
      reads this
      ensures var all := SearchTimeline(rows, sessionId, query);
              && |r| == (if offset >= |all| then 0 else Min(limit, |all| - offset))
              && (forall k :: 0 <= k < |r| ==> r[k] == all[offset + k])
      ensures Ordered(r)
      ensures forall x :: x in r ==> x in rows && SearchHit(x, sessionId, query)
    {
      var all := SearchTimeline(rows, sessionId, query);
      var r := Page(all, offset, limit);
      assert forall x :: x in r ==> x in all && x in multiset(all);
      r
    }
  }

  /** Pages that follow one another share no message: the second page starts
      where the first ends, and the keys are unique. */
  lemma ConsecutivePagesDisjoint(repo: MessageRepository, sessionId: string, sender: Option<string>,
                                 limit: nat, offset: nat)
    requires repo.Valid()
    ensures forall x, y :: x in repo.GetBySession(sessionId, limit, offset, sender)
                        && y in repo.GetBySession(sessionId, limit, offset + limit, sender)
                        ==> x.messageId != y.messageId
  {
    TimelineUnique(repo.rows, sessionId, sender);
    PagesDisjoint(Timeline(repo.rows, sessionId, sender), offset, limit, offset + limit, limit);
  }

  /** Upper- and lower-case forms of a query give the same page. */
  lemma SearchPageIgnoresCase(repo: MessageRepository, sessionId: string, q1: string, q2: string,
                              limit: nat, offset: nat)
    requires Lower(q1) == Lower(q2)
    ensures repo.SearchMessages(sessionId, q1, limit, offset) == repo.SearchMessages(sessionId, q2, limit, offset)
  {
    SearchIgnoresCase(repo.rows, sessionId, q1, q2);
  }
}
