# Message storage API — a Dafny model

This project models the core of a small chat-message API.

- **Processor** (`process_message`): masks the forbidden words `tonto` and `idiota` with `***`. An occurrence counts when it is a whole word, in any letter case. The processor also records the original length and the sorted list of words it found.
- **Service** (`MessageService`): processes a message and then saves it. It reads a session's messages, and it refuses a text search whose query is too short.
- **Store** (`MessageRepository`): keeps the `messages` table with `message_id` as primary key. It normalises ISO dates on save, and it answers two paged queries in timestamp order: a session's messages, optionally by sender, and a case-insensitive `LIKE` search.
- **Record model**: the request and response shapes, the sender whitelist and the six-column dictionary form of a row.
- **API-key gate**: missing key → 401, wrong key → 403, right key → accepted.

Modules, in dependency order:

| file | module | contents |
|---|---|---|
| `models.dfy` | `Models` | `Option`, `Result`, `Error`, the message records, `ValidateSender`, `ToDict` |
| `text.dfy` | `Text` | ASCII case folding, `\w`, Python whitespace and `strip()`, SQL `LIKE` |
| `auth.dfy` | `Auth` | `RequireApiKey` |
| `processor.dfy` | `Processor` | censorship scan, found words, metadata, `ProcessMessage` |
| `table.dfy` | `Table` | filter, stable sort by timestamp, `OFFSET`/`LIMIT` page, unique keys |
| `repository.dfy` | `Repository` | `_parse_iso_to_dt`, the save outcome, the two queries, class `MessageRepository` |
| `service.dfy` | `Service` | the query guard, class `MessageService` |

Some operations change state and others only read it, and the model keeps that split:

- The store is a class whose `rows` field `Save` reassigns (`modifies this`).
- The service holds the store and passes saves through to it (`modifies repository`).
- The read queries are functions that `reads` the store, so they cannot change the table.
- Everything else is pure.

The censorship scan has two independent descriptions, proved equal:

- Position by position: `\b(tonto|idiota)\b`, case-insensitive, leftmost match first. A match needs no word character right before it and none right after it.
- By tokens: the text is split into maximal runs of word characters and single other characters. A run whose lower-case form is a forbidden word becomes `***`, and every other token is copied.

In the censorship example, tests/unit/test_unit.py:68 compares the metadata length with `len("Hola tonto idiota")`, which is 17; `Processor.ProcessGreeting` proves that value.

## Model

| member | source | states |
|---|---|---|
| Processor.MatchAt | services.py:54 | the forbidden word matched at a position, if any; it lies inside the text and is at least five long; its meaning is proved by `Processor.MatchAtSpec` |
| Processor.CensorFrom | services.py:56 | definition of `pattern.sub("***", ...)` from a position: a match is replaced by `***` and the scan resumes after it, otherwise the character is copied; its meaning is proved by `Processor.CensorFromTokens`, `Processor.CopyUnmatched` and `Processor.CensorFromLength` |
| Processor.Censor | services.py:56 | definition: the substitution over the whole text; its meaning is proved by `Processor.CensorMasksWords` and `Processor.CensorUnchangedIffNothingFound` |
| Processor.FoundFrom | services.py:55 | definition of the lower-cased `findall` results from a position, taking matches left to right without overlap; its meaning is proved by `Processor.FoundFromExact` |
| Processor.FoundWords | services.py:55 | definition: the found set of the whole text; its meaning is proved by `Processor.FoundWordsExact` |
| Processor.OriginalContent | services.py:53 | definition of `data.get("content", "")`: the content, or the empty text when it is missing; used by `Processor.ProcessMessage` |
| Service.QueryTooShort | services.py:107 | definition of the guard `not query or len(query.strip()) < 2`; its meaning is proved by `Service.QueryTooShortIff` |
| Text.IsSpace | services.py:107 | definition of `str.isspace` for one character, as the list of code points Python treats as whitespace; used by `Text.Strip` |
| Text.Like | repositories.py:56 | definition of SQL `LIKE` without escapes: `%` any run, `_` any one character, anything else itself; its meaning is proved by `Text.LikeAnything`, `Text.LikePrefix` and `Text.LikeContains` |
| Repository.InSession | repositories.py:39-41 | definition of the `get_by_session` filter: the session, and the sender only when it is a non-empty text; used by `Repository.Timeline` and proved by `Repository.SenderTimeline` |
| Repository.SearchHit | repositories.py:54-56 | definition of the search filter: the session, and the lower-cased content matching the lower-cased `%query%`; its meaning is proved by `Repository.SearchIsSubstring` and `Repository.SearchIgnoresCase` |
| Table.TsLeq | repositories.py:43 | definition of the `ORDER BY timestamp ASC` comparison: a missing timestamp sorts first, present ones by value; used by `Table.Ordered` and `Table.SortOrdered` |
| Processor.BadWordsShape | services.py:24 | each forbidden word is lower-case letters only, at least five long, so it is longer than the mask |
| Processor.MatchAtSpec | services.py:54 | the pattern matches at a position exactly when a forbidden word appears there in any case, with no word character on either side; the match is that word |
| Processor.NoMatchAfterWordChar | services.py:54 | no match starts right after a word character, so occurrences inside longer words are left alone |
| Processor.NoMatchAtNonWordChar | services.py:54 | no match starts at a character that is not a word character |
| Processor.FoundFromExact | services.py:55 | a word is in the found set of a suffix scan iff it is forbidden and has a whole-word occurrence in that suffix |
| Processor.FoundFromForbidden | services.py:55 | only forbidden words are ever found |
| Processor.FoundWordsExact | services.py:55 | the found set is exactly the forbidden words with a whole-word occurrence, however many times each occurs |
| Processor.CopyUnmatched | services.py:56 | where no match starts, the substitution copies the text unchanged |
| Processor.CensorFromLength | services.py:56 | substitution never lengthens the text, and it shortens it whenever something was found |
| Processor.CensorUnchangedIffNothingFound | services.py:55-57 | the censored text equals the original iff nothing was found |
| Processor.WordRunEnd | services.py:54 | the end of a word run: every character before it is a word character, the one at it is not |
| Processor.TokensCover | services.py:56 | concatenating the tokens gives back the text |
| Processor.MatchIsRun | services.py:54 | a whole-word match spans exactly one maximal word run, and that run spells the word in lower case |
| Processor.RunIsMatch | services.py:54 | a maximal word run that spells a forbidden word in any case is matched where it starts |
| Processor.RunNotMatched | services.py:54 | a word run that is not a forbidden word is not matched where it starts |
| Processor.RunIsCopied | services.py:56 | such a run is copied unchanged by the substitution |
| Processor.TokenStep | services.py:56 | one token of the scan is masked or copied, and the scan goes on at the next token |
| Processor.CensorFromTokens | services.py:56 | the substitution from any token start equals the token-wise masking |
| Processor.CensorMasksWords | services.py:54-56 | the censored text is the token split of the original with exactly the forbidden words replaced by `***`; every other character is kept |
| Processor.SortedFound | services.py:57 | `sorted(list(found))` is strictly sorted, holds exactly the found words, and they are lower-case |
| Processor.ProcessMessage | services.py:52-62 | the result copies the record with censored content, metadata length equal to the original length (missing content read as empty) and processing time `now`; every other field is unchanged |
| Processor.ProcessedBadWords | services.py:55-57 | `bad_words` is strictly sorted, lower-case and is exactly the forbidden words that occur as whole words; it is empty iff the content comes back unchanged |
| Processor.GreetingFound | tests/unit/test_unit.py:56-69 | both forbidden words are found in `Hola tonto idiota` |
| Processor.ProcessGreeting | tests/unit/test_unit.py:56-69 | processing `Hola tonto idiota` gives metadata length 17 and bad words `["idiota", "tonto"]` |
| Service.QueryTooShortIff | services.py:107 | a query is refused iff it has fewer than two non-whitespace characters |
| Service.SavedMessageIsProcessed | services.py:74-77 | processing then saving succeeds iff the timestamp parses and the key is new; the stored row holds the censored content, the processing time and the record's other fields; a bad timestamp is reported with its text |
| Service.MessageService.constructor | services.py:16-23 | the service holds the given store; the forbidden words of services.py:24 are the constant `Processor.BadWords` |
| Service.MessageService.SaveMessage | services.py:64-77 | the result and new table are those of saving the processed record; the table's key stays unique |
| Service.MessageService.GetMessages | services.py:79-92 | returns exactly the store's page for the same arguments: ordered, at most `limit` rows, all from the session and sender |
| Service.MessageService.SearchMessages | services.py:94-109 | fails with `InvalidQuery` iff the query is empty or strips to fewer than two characters, whatever the store holds; otherwise returns exactly the store's search page |
| Text.Lower | repositories.py:56 | lower-casing keeps the length and folds each character |
| Text.LowerAppend | repositories.py:56 | lower-casing distributes over concatenation |
| Text.Strip | services.py:107 | `strip()` leaves a slice of the text that neither starts nor ends with whitespace, with only whitespace cut off on each side |
| Text.TrimStart | services.py:107 | leading trim of a character class: a suffix, only characters of the class removed, none left at its start |
| Text.TrimEnd | services.py:107 | trailing trim of a character class: a prefix, only characters of the class removed, none left at its end |
| Text.StrippedLengthAtLeastTwo | services.py:107 | a stripped slice holds two or more characters iff the text holds two characters outside the stripped class |
| Text.StripLengthAtLeastTwo | services.py:107 | `len(query.strip()) >= 2` iff the query holds two non-whitespace characters |
| Text.LikeAnything | repositories.py:56 | pattern `%` matches every text |
| Text.LikePrefix | repositories.py:56 | for a literal `q`, pattern `q%` matches exactly the texts that begin with `q` |
| Text.LikeContains | repositories.py:56 | for a literal `q`, pattern `%q%` matches exactly the texts that contain `q` |
| Repository.ReplaceZ | repositories.py:13 | text without `Z` is left unchanged |
| Repository.ReplaceZAppend | repositories.py:13 | the rewriting distributes over concatenation |
| Repository.ReplaceZRemovesAll | repositories.py:13 | no `Z` survives; every `Z` is rewritten, not only a trailing one |
| Repository.ReplaceZUnchanged | repositories.py:13 | the rewriting changes the text iff it holds a `Z` |
| Repository.NormalizeIso | repositories.py:11-13 | text ending in `Z` has every `Z` rewritten to `+00:00`; any other text is kept |
| Repository.NormalizeZulu | repositories.py:12-13 | a trailing zulu marker becomes the `+00:00` offset |
| Repository.ParseIsoToDt | repositories.py:6-14 | missing → missing, a date passes through, text is normalised and parsed; a parse failure is an `InvalidTimestamp` error carrying the text, and only text can fail |
| Repository.ParseIsoRoundTrip | repositories.py:6-14 | the ISO text of a stored timestamp parses back to the same instant |
| Repository.BuildRow | repositories.py:22-31 | the row holds the six fields of the record, with both dates parsed and `metadata` dropped; it fails on the timestamp first, then on the processing date, then on missing content |
| Repository.SaveOutcome | repositories.py:20-35 | succeeds iff the row builds and its key is new, and then appends exactly that row; on failure the table is unchanged; a taken key is `DuplicateKey` |
| Repository.SaveKeepsKeysUnique | models.py:17 | saving keeps the primary key unique |
| Repository.SaveTwiceFails | tests/unit/test_unit.py:79-93 | saving the same record again fails with `DuplicateKey` and leaves the table as the first save left it |
| Repository.Timeline | repositories.py:39-43 | the session's rows, filtered by the sender when one is given, in timestamp order, each as often as the table holds it |
| Repository.SearchTimeline | repositories.py:52-58 | the session's rows whose lower-cased content matches `%query%` lower-cased, in timestamp order, each as often as the table holds it |
| Repository.SenderTimeline | repositories.py:40-41 | filtering by a non-empty sender after ordering gives the sender's timeline |
| Repository.FilterTwice | repositories.py:39-41 | two successive filters are one filter on their conjunction |
| Repository.SearchIgnoresCase | repositories.py:56 | queries with the same lower-case form find the same rows |
| Repository.SearchIsSubstring | repositories.py:54-57 | for a query without `%` or `_`, a row is a hit iff it is in the session and its content contains the query, ignoring case |
| Repository.TimelineUnique | models.py:17 | a session's timeline has unique keys |
| Repository.SearchTimelineUnique | models.py:17 | search hits have unique keys |
| Repository.MessageRepository.constructor | repositories.py:16-18 | a store wraps the table the database already holds (any table with unique keys) and the date parser |
| Repository.MessageRepository.Save | repositories.py:20-35 | the result and new table are exactly the save outcome of the old table; the key stays unique |
| Repository.MessageRepository.GetBySession | repositories.py:37-48 | the page holds `min(limit, N - offset)` rows (0 past the end) and its k-th row is row `offset + k` of the timeline; ordered; every row is in the table, the session and the sender |
| Repository.MessageRepository.SearchMessages | repositories.py:50-63 | the same page shape over the search hits; ordered; every row is in the table and is a hit |
| Repository.ConsecutivePagesDisjoint | tests/unit/test_unit.py:179-197 | a page and the one after it share no message |
| Repository.SearchPageIgnoresCase | tests/unit/test_unit.py:200-217 | the upper- and lower-case forms of a query give the same page |
| Table.Filter | repositories.py:39-41 | filtering never adds rows |
| Table.FilterCount | repositories.py:39-41 | a kept row appears as often as in the table, and a dropped row not at all |
| Table.OrderedFirst | repositories.py:43 | the first row of an ordered table sorts no later than any of its rows |
| Table.OrderedTail | repositories.py:43 | the tail of an ordered table is ordered |
| Table.OrderedCons | repositories.py:43 | a row no later than all others can go in front |
| Table.FilterOrdered | repositories.py:43 | filtering keeps the order |
| Table.FilterCongruent | repositories.py:39-41 | filters that agree on every row keep the same rows |
| Table.Insert | repositories.py:43 | inserting adds one row |
| Table.InsertCount | repositories.py:43 | inserting adds exactly that row |
| Table.InsertOrdered | repositories.py:43 | insertion keeps the table ordered |
| Table.Sort | repositories.py:43 | the sort keeps the number of rows |
| Table.SortOrdered | repositories.py:43 | the sorted table is in non-decreasing timestamp order, missing timestamps first, and it is a permutation of the input |
| Table.SortOfOrdered | repositories.py:43 | the sort leaves an ordered table unchanged |
| Table.FilterInsert | repositories.py:39-43 | filtering and inserting commute |
| Table.FilterSort | repositories.py:39-43 | filtering and sorting commute |
| Table.Page | repositories.py:44-45 | `OFFSET o LIMIT l` has `min(l, N - o)` rows (0 past the end), and its k-th row is row `o + k` |
| Table.PagesTile | repositories.py:44-45 | two consecutive pages together are one larger page, so paging neither skips nor repeats rows |
| Table.UniqueSnoc | models.py:17 | appending a row keeps the keys unique iff its key is new |
| Table.UniqueCons | models.py:17 | putting a row in front keeps the keys unique iff its key is new |
| Table.FilterUnique | models.py:17 | filtering keeps the keys unique |
| Table.InsertUnique | models.py:17 | inserting a row with a new key keeps the keys unique |
| Table.SortUnique | models.py:17 | sorting keeps the keys unique |
| Table.PagesDisjoint | repositories.py:44-45 | pages that do not overlap in position share no key |
| Models.ValidateSender | models.py:48-52 | accepts exactly `user` and `system`, unchanged; anything else is an `InvalidSender` error |
| Models.NewMessageIn | models.py:38-52 | a request can be built iff the sender is whitelisted, and then carries its fields as given |
| Models.MessageOutOf | models.py:55-60 | a response is its request plus `processed_at`, which defaults to none |
| Models.Dump | services.py:36-37 | the dump of a request holds its fields; it has no processing date and no metadata |
| Models.IsoOrNull | models.py:32-34 | an empty date column serialises to null, a present one to its ISO text |
| Models.ToDict | models.py:24-35 | exactly the six column keys; the four text columns are copied verbatim, and the two dates are ISO text or null |
| Models.ToDictInjective | models.py:24-35 | serialisation loses nothing: distinct rows have distinct dictionaries |
| Auth.RequireApiKey | auth.py:5-15 | missing → 401, wrong → 403, expected → accepted and handed back; a missing key never gets 403 |

## Left out

- I/O and libraries:
  - The current time (`datetime.now`), `datetime.fromisoformat` and `datetime.isoformat` are parameters: `now`, `fromIso` and `iso`.
  - Dates are integers.
  - Pydantic's coercion of the request timestamp is not modelled.
- `_ensure_dict`'s duck-typing of `model_dump`, `dict` and `dict(...)` (services.py:26-40) is not modelled. The service works on the one dictionary type `MessageData`, and `Models.Dump` stands for `model_dump`.
- Character handling is ASCII only:
  - The regex `\b`, `\w` and `re.IGNORECASE` cover ASCII letters, digits and `_`; Python's Unicode classes are not modelled.
  - `ilike`'s case folding is ASCII lower-casing, as in SQLite.
  - `str.isspace` is written out as a fixed character list.
- Processor.CensorMasksWords: the token reference relies on the forbidden words being plain letters. Other words would need a regex engine, which is not modelled.
- `ilike` wildcards: the model matches `%` and `_` in a query as wildcards, just as the code does, since it does not escape them. The substring property `Repository.SearchIsSubstring` is therefore stated only for queries without them.
- Negative `limit` or `offset`: they are naturals here. SQLite's reading of negative values is not modelled.
- Ordering ties: rows with equal timestamps keep insertion order (a stable sort). SQLite leaves that order unspecified. A missing timestamp sorts first, as `NULL` does in SQLite.
- Dates: an `Instant` stands for the date as the `DateTime` column keeps it. `fromIso` is the parser followed by that storage step, so the offset of the ISO text is not modelled (SQLite keeps the wall-clock reading). Ordering compares these stored dates.
- SQLAlchemy session mechanics are not modelled: `add`, `commit`, `refresh`, the rollback after an `IntegrityError`, and concurrent saves racing on the same key. A save either succeeds or leaves the table unchanged.
- Exceptions are values:
  - `IntegrityError` → `DuplicateKey`, `ValueError` → `InvalidQuery`.
  - A validator error → `InvalidSender`, `HTTPException` → `Unauthorized`.
  - A failing `fromisoformat` → `InvalidTimestamp`; a missing `content` key in `save` → `MissingContent`.
- main.py routing is not part of this model, nor is its mapping of exceptions to HTTP 400/500; exception.py is not either.
- The update and delete that the tests perform directly on the session are not repository operations and are not modelled.
- Processor.ProcessGreeting: the concrete example pins down only the metadata of `Hola tonto idiota`. The censored text of that example follows from `Processor.CensorMasksWords` but is not computed as a literal.
