# Webhook message ingestion — a Dafny model

This project models the core of a small webhook service. The service receives
message events, identified by a `message_id` and a sender and recipient phone
number (MSISDN). It authenticates every request with an HMAC-SHA256 signature
over the raw body. It validates the JSON payload and stores each message
exactly once, so a resent delivery is acknowledged without a second row. It
also answers a paginated, filterable message list and a small statistics query.

The model is sequential and pure. The `messages` table is a
`map<string, Message>` keyed by `message_id`. Each endpoint is a function or
method over that map:

- `Wrappers`: `Option` and `Result`.
- `Text`: ASCII digits and case folding, and the lexicographic string order
  SQLite uses for TEXT columns. Also SQL `LIKE` with its `%` and `_`
  wildcards, with a proof that `%q%` means "contains `q`, ignoring ASCII case"
  when `q` has no wildcards.
- `Models`: the `Message` row, the store, and the primary-key invariant (`app/models.py`).
- `Schemas`: `WebhookPayload` validation, with field aliases, the MSISDN
  pattern, text length and collected field errors. Also the list and stats
  response shapes (`app/schemas.py`).
- `Signature`: the accept/reject decision of `verify_signature` (`main.py`).
- `Ingestion`: the `/webhook` handler as `Webhook(cfg, mac, request, store, storage)`,
  which returns the status and the new store. It comes with lemmas on the store
  invariant, first-write-wins and repeated delivery.
- `Listing`: `/messages`. It clamps `limit` and `offset`, applies the AND of
  the filters, counts independently of paging, orders by `(ts, message_id)`
  and returns one window.
- `Stats`: `/stats`. It reports the row count and the number of distinct
  senders and recipients.

Inputs the code takes from outside enter as parameters:

- The HMAC function is `mac: (string, Bytes) -> string`.
- The framework's decoding of the body is a `Decoded` value next to the raw bytes: unreadable, not JSON, or a parsed `Body`.
- The database clock for `created_at` is `Storage.now`.
- Database failures are `Storage.fault`: a failed lookup or a failed write.

### Where the code's behaviour is surprising (the model follows the code)

- **Order of checks.** The framework decodes the JSON body before it runs any
  dependency. Bytes it cannot turn into text (not valid UTF-8, for example)
  are therefore answered 400, and text that is not JSON 422, even when the
  signature is wrong. Only after decoding comes the signature check (401),
  and after that the field validation (422). `Webhook` states each step of
  this order. It also states that every answer other than 200 leaves the
  store unchanged.
- **Non-ASCII signatures.** `hmac.compare_digest` raises `TypeError` when a
  `str` argument holds a non-ASCII character. Header values are decoded as
  Latin-1, so a client can send such a character. The request then ends in a
  500 rather than the 401 of other signature failures. This is
  `Verdict.Fault`, and `Webhook` answers it with `ServerError`.
- **Large offsets.** The list query passes `offset` to SQLite as a bound
  parameter. An offset above 2^63 - 1 cannot be bound and the request ends
  in a 500. `QueryMessages` returns `None` for it.
- **Trailing newline.** `re.match(r"^\+\d+$", v)` also accepts a number
  followed by one final `\n`, because Python's `$` matches before a trailing
  newline. The value is returned unchanged, so `"+123\n"` is stored. This is
  `MsisdnAccepted`. The stored-row invariant uses it rather than strict E.164.
- **Duplicate detection.** The code looks the id up and then inserts. It does
  not use one atomic insert-if-absent. In a sequential model the two are the
  same, and the model gives insert-if-absent semantics. A lookup failure
  happens outside the `try` and a write failure is rolled back inside it.
  Both end in 500 with the store unchanged.
- **Timestamp.** `ts` is accepted as any string. Filtering and ordering
  compare it as a string.

## Model

| member | source | states |
|---|---|---|
| Signature.VerifySignature | main.py:50-70 | the request proceeds exactly when the header is present, non-empty, ASCII and equal to the HMAC of the raw body under the secret; an absent or empty header is rejected; a non-ASCII header is the `compare_digest` fault |
| Ingestion.Webhook | main.py:78-113 | an unreadable body is 400 and a body that is not JSON is 422, before the signature is looked at; for a parsed body a rejected signature is 401 and a non-ASCII one is 500; success implies a non-empty signature equal to the body's HMAC and a valid payload; an authenticated invalid payload is 422 with its field errors; an accepted request goes through insert-if-absent; every answer other than 200 leaves the store unchanged; the store only ever changes by adding the request's own row |
| Ingestion.Ingest | main.py:85-113 | a stored id is acknowledged as duplicate with the store unchanged (even if a write would fail); a new id on a healthy database adds exactly one row copied from the payload with every other row unchanged; a lookup failure, or a write failure for a new id, is 500 with the store unchanged and never a success |
| Ingestion.NewRow | main.py:95-101 | the inserted row copies id, sender, recipient, ts and text from the payload; `created_at` is the database clock, never a payload value |
| Ingestion.ValidPayloadAdmissible | app/schemas.py:5-17 | every payload that passes validation gives a row with a non-empty id, accepted phone numbers and text of at most 4096 characters |
| Ingestion.WebhookPreservesInvariant | app/models.py:10-14 | handling any request keeps the primary-key invariant and the admissibility of every stored row |
| Ingestion.FirstWriteWins | main.py:85-92 | after an acknowledged request, a later accepted request with the same id is a duplicate and the stored row keeps the first request's content |
| Ingestion.RedeliveryOfStoredId | main.py:85-92 | resending a request whose id is stored, any number of times, leaves the store unchanged and is acknowledged as duplicate every time |
| Ingestion.ExactlyOnceIngestion | main.py:84-109 | an accepted request delivered one or more times to a healthy database is acknowledged every time; only the first delivery can create; the final store is the first delivery's, with exactly the request's id added |
| Models.RowsMatchKeys | app/models.py:10 | with `message_id` as primary key, the number of distinct rows equals the number of keys |
| Schemas.Validate | app/schemas.py:5-20 | a decodable object is accepted exactly when every field passes its rule; the record then carries the supplied strings unchanged; otherwise the rejection is non-empty and names exactly the failing fields; a non-object body is rejected as a whole |
| Schemas.FieldErrorsNameFailures | app/schemas.py:5-17 | the collected rejection entries name a field if and only if that field fails its rule |
| Schemas.Lookup | app/schemas.py:7-20 | a field is read from its alias (`from`, `to`) when present, otherwise from its own name (`from_msisdn`, `to_msisdn`), otherwise it is missing |
| Schemas.CheckMessageId | app/schemas.py:6 | `message_id` is accepted exactly when it is a string of length at least one; absent is "missing", empty is "too short" |
| Schemas.CheckMsisdn | app/schemas.py:7-17 | a phone-number field is accepted exactly when it is a string matching the pattern, and is returned unchanged |
| Schemas.CheckTs | app/schemas.py:9 | `ts` is accepted as any string, with no format check |
| Schemas.CheckText | app/schemas.py:10 | absent or null text becomes none; a string is accepted unchanged exactly when its length is at most 4096, else "too long"; any other value is rejected |
| Schemas.ValidateMsisdn | app/schemas.py:12-17 | the validator accepts exactly the values the pattern accepts and returns them unchanged |
| Schemas.MsisdnPatternMeaning | app/schemas.py:15 | the step-by-step regular-expression match (`+`, greedy digit run of length at least one, end or final newline) accepts exactly E.164 numbers, optionally followed by one newline |
| Schemas.DigitRun | app/schemas.py:15 | the greedy `\d+` run ends at the first non-digit, and every character before it is a digit |
| Schemas.MsisdnExamples | app/schemas.py:15-16 | `+919876543210` is accepted; `919876543210`, `+` and `+91a` are rejected |
| Schemas.ToSchema | app/schemas.py:24-29 | a listed message carries the row's id, numbers, ts and text, and no `created_at` |
| Listing.ClampLimit | main.py:125 | the effective limit lies in [1, 100], equals the request when already in range, and is the value of that range nearest to the request |
| Listing.ClampOffset | main.py:126 | the effective offset is non-negative and equals the request when it is non-negative |
| Listing.FilterMeaning | main.py:129-134 | a row is selected exactly when it has the given sender, its `ts` is at or after `since`, and its text contains `q` ignoring ASCII case; each filter is ignored when absent or empty |
| Listing.NoFilterSelectsAll | main.py:129-134 | with no filter given, every row is selected |
| Listing.InsertSorted | main.py:138 | inserting a row with a fresh id into a list sorted by `(ts, message_id)` keeps it sorted and adds exactly that row |
| Listing.SortedRank | main.py:138 | in a sorted list each row's position equals the number of listed rows ordered before it |
| Listing.PrecedesTotal | main.py:138 | any two rows with different ids are ordered by `(ts, message_id)`, so the order is deterministic |
| Listing.PrecedesTransitive | main.py:138 | the `(ts, message_id)` order is transitive |
| Listing.QueryMessages | main.py:115-138 | an omitted limit is 50 and an omitted offset 0; a clamped offset above 2^63 - 1 is the 500 answer; otherwise the echoed limit and offset are the clamped values, `total` is the number of matching rows whatever the paging, and the page is sorted, has at most `limit` (at most 100) rows, is empty when `offset >= total`, and its i-th row is the matching row of rank `offset + i` |
| Listing.SortMatching | main.py:129-138 | the matching rows, each exactly once, sorted by `(ts, message_id)` |
| Listing.Window | main.py:138 | `LIMIT limit OFFSET offset` over the sorted rows keeps at most `limit` rows, none when the offset is past the end, and its i-th row has rank `offset + i` |
| Listing.RequestedLimit | main.py:117 | an omitted `limit` is 50, a given one is used as is |
| Listing.RequestedOffset | main.py:118 | an omitted `offset` is 0, a given one is used as is |
| Listing.Respond | main.py:140-145 | the response lists the page's rows in order without `created_at`, with total, limit and offset echoed |
| Text.LikeSubstring | main.py:134 | the pattern `%q%` matches a text exactly when `q` occurs in it ignoring ASCII case, for `q` without wildcards |
| Text.LexLessTotal | main.py:132 | two different strings are always ordered by the column comparison used for `ts >= since` and for sorting |
| Text.LexLessTransitive | main.py:138 | the string order is transitive |
| Stats.GetStats | main.py:148-158 | `total_messages` is the number of rows; `unique_senders` and `unique_recipients` are the numbers of distinct sender and recipient values, each at most `total_messages` |
| Stats.DistinctAtMostRows | main.py:151-152 | a column never has more distinct values than there are rows |
| Stats.StatsBounds | main.py:150-152 | the distinct sender and recipient counts are at most the row count, and at least one when there is a row |
| Stats.StatsAfterWebhook | main.py:94-109 | a created row adds one to the row count and adds its numbers to the distinct sets; any other outcome leaves all three statistics unchanged |

## Left out

- HTTP and framework plumbing: routing, dependency injection and re-injecting the body via `request._receive`. The model takes the raw body, its JSON decoding and the header value as inputs.
- JSON decoding itself. The `Decoded` value (unreadable, not JSON, or a parsed `Body`) is an input next to the raw bytes. The model does not check that it is the decoding of those bytes.
- The HMAC-SHA256 computation. It is the parameter `mac`. The constant-time behaviour of `compare_digest` is not modelled; only its result and its non-ASCII fault are.
- SQLAlchemy, the database engine, table creation and sessions. They are replaced by the map, a clock value and a fault parameter.
- The race between the duplicate lookup and the insert under concurrent requests. The model is sequential and gives insert-if-absent semantics.
- Metrics middleware and `/metrics` (main.py:22-44, 160-171). These are process-wide counters and text output.
- `/` (main.py:74-76), the health endpoints (`app/health.py`), `app/config.py` and `app/logging_config.py`. They are configuration, I/O probes and logger setup. The log records written on each path are not modelled.
- `app/hmac.py` is not part of this model. Nothing imports it, and it duplicates `verify_signature`.
- Parsing of the `limit` and `offset` query parameters. A non-integer value is rejected by the framework before the handler runs. The model takes integers.
- Schemas.ValidateMsisdn: Python's `\d` also matches non-ASCII decimal digits. The model accepts ASCII digits only.
- Text.LikeSubstring: SQLite folds only ASCII letters, and the model does the same. `%` and `_` inside `q` keep their wildcard meaning in `Listing.Selects`. The plain substring reading is proved only for `q` without them.
- Listing.FilterMeaning: stated only for `q` without `%` or `_`, for the same reason. With wildcards the filter is the `LIKE` match itself.
- Schemas.Validate: the wording and `loc` paths of the framework's error messages are not modelled. A rejection carries the field and the kind of failure.
- String lengths count code points, as Python does. Strings holding lone surrogates are not modelled.
