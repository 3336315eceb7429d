/**
 * The `/webhook` handler (main.py): signature check, payload validation and
 * insert-if-absent into the message store, with the status each path answers.
 */
module Ingestion {
  import opened Wrappers
  import opened Models
  import opened Schemas
  import opened Signature

  /**
   * What the framework's JSON decoder makes of the body bytes: bytes it
   * cannot turn into text (not valid UTF-8, say), text that is not JSON, or
   * a parsed body.
   */
  datatype Decoded = Unreadable | Malformed | Parsed(body: Body)

  /**
   * One inbound request: the exact body bytes, the framework's decoding of
   * those bytes, and the `X-Signature` header (absent is `None`).
   */
  datatype Request = Request(rawBody: Bytes, decoded: Decoded, signature: Option<string>)

  /** Process configuration; only the shared secret matters here. */
  datatype Config = Config(webhookSecret: string)

  /** Where the database gives out, if it does during this request. */
  datatype StorageFault = NoFault | LookupFails | WriteFails

  /**
   * What the database contributes beyond its contents: the clock reading its
   * `created_at` default would take, and whether a statement fails.
   */
  datatype Storage = Storage(now: string, fault: StorageFault)

  datatype Ack = Created | Duplicate

  /**
   * The answer: 200 `{"status":"ok"}` (new or duplicate), 400 for a body that
   * cannot be read as text, 401, 422 with the failing fields, or 500.
   */
  datatype Status =
    | Acknowledged(ack: Ack)
    | BadRequest
    | Unauthorized
    | Invalid(errors: seq<FieldError>)
    | ServerError

  datatype Reply = Reply(status: Status, store: Store)

  function StatusCode(s: Status): int {
    match s
    case Acknowledged(_) => 200
    case BadRequest => 400
    case Unauthorized => 401
    case Invalid(_) => 422
    case ServerError => 500
  }

  /** What every row inserted by the ingestion path satisfies. */
  predicate Admissible(m: Message) {
    && |m.messageId| >= 1
    && MsisdnAccepted(m.fromMsisdn)
    && MsisdnAccepted(m.toMsisdn)
    && (m.text.Some? ==> |m.text.value| <= MaxTextLength)
  }

  /** The store invariant: primary key respected and every row admissible. */
  predicate StoreInvariant(store: Store) {
    && WellKeyed(store)
    && forall id :: id in store ==> Admissible(store[id])
  }

  /** The row `Message(...)` built from a payload; `created_at` comes from the database. */
  function NewRow(p: WebhookPayload, now: string): (m: Message)
    ensures m.messageId == p.messageId && m.fromMsisdn == p.fromMsisdn && m.toMsisdn == p.toMsisdn
    ensures m.ts == p.ts && m.text == p.text && m.createdAt == now
  {
    Message(p.messageId, p.fromMsisdn, p.toMsisdn, p.ts, p.text, now)
  }

  /** Every payload that passes validation yields an admissible row. */
  lemma ValidPayloadAdmissible(body: Body, now: string)
    requires Validate(body).Success?
    ensures Admissible(NewRow(Validate(body).value, now))
  {
    var p := Validate(body).value;
    assert FieldAccepted(body.fields, MessageId) && FieldAccepted(body.fields, From);
    assert FieldAccepted(body.fields, To) && FieldAccepted(body.fields, TextField);
  }

  /**
   * The store step for a validated payload: look the id up, acknowledge a
   * duplicate without writing, otherwise add the row and commit; a failed
   * write is rolled back.
   */
  function Ingest(p: WebhookPayload, store: Store, storage: Storage): (reply: Reply)
    ensures reply.status.Acknowledged? || reply.status == ServerError
    ensures storage.fault == LookupFails ==> reply == Reply(ServerError, store)
    ensures p.messageId in store && storage.fault != LookupFails ==>
      reply == Reply(Acknowledged(Duplicate), store)
    ensures reply.status == Acknowledged(Created) <==> p.messageId !in store && storage.fault == NoFault
    ensures reply.status == Acknowledged(Created) ==>
      && reply.store.Keys == store.Keys + {p.messageId}
      && reply.store[p.messageId] == NewRow(p, storage.now)
      && forall id :: id in store ==> reply.store[id] == store[id]
    ensures p.messageId !in store && storage.fault == WriteFails ==> reply == Reply(ServerError, store)
    ensures reply.status != Acknowledged(Created) ==> reply.store == store
  {
    if storage.fault == LookupFails then Reply(ServerError, store)
    else if p.messageId in store then Reply(Acknowledged(Duplicate), store)
    else if storage.fault == WriteFails then Reply(ServerError, store)
    else
      assert storage.fault == NoFault;
      Reply(Acknowledged(Created), store[p.messageId := NewRow(p, storage.now)])
  }

  /** Accepted: the body parses, the signature matches and the payload validates. */
  predicate Accepted(cfg: Config, mac: Mac, req: Request) {
    && req.decoded.Parsed?
    && VerifySignature(mac, cfg.webhookSecret, req.rawBody, req.signature) == Accept
    && Validate(req.decoded.body).Success?
  }

  /**
   * The whole request. The body is decoded before any dependency runs, so an
   * unreadable body is a 400 and text that is not JSON a 422 even without a
   * valid signature; the signature check runs next and field validation
   * after it.
   */
  function Webhook(cfg: Config, mac: Mac, req: Request, store: Store, storage: Storage): (reply: Reply)
    // Decoding comes first.
    ensures req.decoded.Unreadable? ==> reply == Reply(BadRequest, store)
    ensures req.decoded.Malformed? ==> reply == Reply(Invalid([FieldError(WholeBody, JsonInvalid)]), store)
    // Authentication: success needs a non-empty header equal to the body's HMAC.
    ensures reply.status.Acknowledged? ==>
      && req.signature.Some? && req.signature.value != ""
      && req.signature.value == mac(cfg.webhookSecret, req.rawBody)
    ensures req.decoded.Parsed? && VerifySignature(mac, cfg.webhookSecret, req.rawBody, req.signature) == Reject ==>
      reply == Reply(Unauthorized, store)
    ensures req.decoded.Parsed? && VerifySignature(mac, cfg.webhookSecret, req.rawBody, req.signature) == Fault ==>
      reply == Reply(ServerError, store)
    // Validation: success needs a valid payload; an authenticated but invalid one is a 422 with its errors.
    ensures reply.status.Acknowledged? ==> req.decoded.Parsed? && Validate(req.decoded.body).Success?
    ensures
      && req.decoded.Parsed?
      && VerifySignature(mac, cfg.webhookSecret, req.rawBody, req.signature) == Accept
      && Validate(req.decoded.body).Failure?
      ==> reply == Reply(Invalid(Validate(req.decoded.body).error), store)
    // Authenticated, valid payloads go through insert-if-absent.
    ensures Accepted(cfg, mac, req) ==> reply == Ingest(Validate(req.decoded.body).value, store, storage)
    // Any answer other than 200 leaves the store as it was.
    ensures StatusCode(reply.status) != 200 ==> reply.store == store
    // The store only ever grows by the request's own row.
    ensures reply.store != store ==>
      && reply.status == Acknowledged(Created)
      && Accepted(cfg, mac, req)
      && reply.store == store[Validate(req.decoded.body).value.messageId := NewRow(Validate(req.decoded.body).value, storage.now)]
  {
    match req.decoded
    case Unreadable => Reply(BadRequest, store)
    case Malformed => Reply(Invalid([FieldError(WholeBody, JsonInvalid)]), store)
    case Parsed(body) =>
      match VerifySignature(mac, cfg.webhookSecret, req.rawBody, req.signature)
      case Fault => Reply(ServerError, store)
      case Reject => Reply(Unauthorized, store)
      case Accept =>
        match Validate(body)
        case Failure(errors) => Reply(Invalid(errors), store)
        case Success(p) => Ingest(p, store, storage)
  }

  /** Handling a request never breaks the store invariant. */
  lemma WebhookPreservesInvariant(cfg: Config, mac: Mac, req: Request, store: Store, storage: Storage)
    requires StoreInvariant(store)
    ensures StoreInvariant(Webhook(cfg, mac, req, store, storage).store)
  {
    var reply := Webhook(cfg, mac, req, store, storage);
    if reply.store != store {
      var p := Validate(req.decoded.body).value;
      ValidPayloadAdmissible(req.decoded.body, storage.now);
      assert reply.store == store[p.messageId := NewRow(p, storage.now)];
    }
  }

  /**
   * First write wins: once a row exists under an id, a later accepted request
   * for the same id is acknowledged as a duplicate and the stored row keeps
   * the first request's content, whatever the later one carries.
   */
  lemma FirstWriteWins(cfg: Config, mac: Mac, first: Request, later: Request, store: Store, s1: Storage, s2: Storage)
    requires Accepted(cfg, mac, first) && Accepted(cfg, mac, later)
    requires Validate(first.decoded.body).value.messageId == Validate(later.decoded.body).value.messageId
    requires Webhook(cfg, mac, first, store, s1).status.Acknowledged?
    requires s2.fault != LookupFails
    ensures var after := Webhook(cfg, mac, first, store, s1).store;
      && Webhook(cfg, mac, later, after, s2) == Reply(Acknowledged(Duplicate), after)
      && var id := Validate(first.decoded.body).value.messageId;
         id in after && (id !in store ==> after[id] == NewRow(Validate(first.decoded.body).value, s1.now))
  {
  }

  /** The same request delivered once per storage state, in order. */
  function Redeliver(cfg: Config, mac: Mac, req: Request, store: Store, storages: seq<Storage>): (r: (Store, seq<Status>))
    ensures |r.1| == |storages|
    decreases |storages|
  {
    if |storages| == 0 then (store, [])
    else
      var reply := Webhook(cfg, mac, req, store, storages[0]);
      var rest := Redeliver(cfg, mac, req, reply.store, storages[1..]);
      (rest.0, [reply.status] + rest.1)
  }

  /** Resending a request whose id is already stored changes nothing, however often. */
  lemma {:induction false} RedeliveryOfStoredId(cfg: Config, mac: Mac, req: Request, store: Store, storages: seq<Storage>)
    requires Accepted(cfg, mac, req)
    requires Validate(req.decoded.body).value.messageId in store
    requires forall i :: 0 <= i < |storages| ==> storages[i].fault != LookupFails
    ensures Redeliver(cfg, mac, req, store, storages).0 == store
    ensures forall i :: 0 <= i < |storages| ==> Redeliver(cfg, mac, req, store, storages).1[i] == Acknowledged(Duplicate)
    decreases |storages|
  {
    if |storages| > 0 {
      assert Webhook(cfg, mac, req, store, storages[0]) == Reply(Acknowledged(Duplicate), store);
      RedeliveryOfStoredId(cfg, mac, req, store, storages[1..]);
      var rest := Redeliver(cfg, mac, req, store, storages[1..]);
      assert Redeliver(cfg, mac, req, store, storages) == (rest.0, [Acknowledged(Duplicate)] + rest.1);
    }
  }

  /**
   * At-least-once delivery: an accepted request delivered one or more times
   * against a healthy database is acknowledged every time and leaves exactly
   * the store the first delivery produced, which holds the request's id.
   */
  lemma {:induction false} ExactlyOnceIngestion(cfg: Config, mac: Mac, req: Request, store: Store, storages: seq<Storage>)
    requires Accepted(cfg, mac, req)
    requires |storages| >= 1
    requires forall i :: 0 <= i < |storages| ==> storages[i].fault == NoFault
    ensures var first := Webhook(cfg, mac, req, store, storages[0]);
      && Redeliver(cfg, mac, req, store, storages).0 == first.store
      && Validate(req.decoded.body).value.messageId in first.store
      && first.store.Keys == store.Keys + {Validate(req.decoded.body).value.messageId}
    ensures forall i :: 0 <= i < |storages| ==> Redeliver(cfg, mac, req, store, storages).1[i].Acknowledged?
    ensures forall i :: 1 <= i < |storages| ==> Redeliver(cfg, mac, req, store, storages).1[i] == Acknowledged(Duplicate)
  {
    var first := Webhook(cfg, mac, req, store, storages[0]);
    RedeliveryOfStoredId(cfg, mac, req, first.store, storages[1..]);
    var rest := Redeliver(cfg, mac, req, first.store, storages[1..]);
    assert Redeliver(cfg, mac, req, store, storages) == (rest.0, [first.status] + rest.1);
  }
}
