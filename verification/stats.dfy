/**
 * `GET /stats` (main.py): row count and the number of distinct senders and
 * recipients.
 */
module Stats {
  import opened Models
  import opened Schemas
  import opened Ingestion

  /** The distinct `from_msisdn` values in the store. */
  function Senders(store: Store): set<string> {
    set id | id in store :: store[id].fromMsisdn
  }

  /** The distinct `to_msisdn` values in the store. */
  function Recipients(store: Store): set<string> {
    set id | id in store :: store[id].toMsisdn
  }

  /** Counting every row once while collecting the distinct numbers. */
  method GetStats(store: Store) returns (r: StatsResponse)
    ensures r.totalMessages == |store|
    ensures r.uniqueSenders == |Senders(store)|
    ensures r.uniqueRecipients == |Recipients(store)|
    ensures r.uniqueSenders <= r.totalMessages && r.uniqueRecipients <= r.totalMessages
  {
    var count := 0;
    var senders: set<string> := {};
    var recipients: set<string> := {};
    var rest := store.Keys;
    while rest != {}
      invariant rest <= store.Keys
      invariant count + |rest| == |store|
      invariant senders == set id | id in store.Keys - rest :: store[id].fromMsisdn
      invariant recipients == set id | id in store.Keys - rest :: store[id].toMsisdn
      decreases |rest|
    {
      var id :| id in rest;
      count := count + 1;
      senders := senders + {store[id].fromMsisdn};
      recipients := recipients + {store[id].toMsisdn};
      rest := rest - {id};
    }
    assert store.Keys - rest == store.Keys;
    StatsBounds(store);
    r := StatsResponse(count, |senders|, |recipients|);
  }

  /** The distinct values a column takes over the store. */
  function Image(store: Store, column: Message -> string): set<string> {
    set id | id in store :: column(store[id])
  }

  lemma SubsetCardinality<T>(a: set<T>, b: set<T>)
    requires a <= b
    ensures |a| <= |b|
  {
    assert b == a + (b - a);
    assert a * (b - a) == {};
  }

  /** There are never more distinct values of a column than rows. */
  lemma {:induction false} DistinctAtMostRows(store: Store, column: Message -> string)
    ensures |Image(store, column)| <= |store|
    decreases |store|
  {
    if |store| > 0 {
      var id :| id in store;
      var rest := map k | k in store && k != id :: store[k];
      assert rest.Keys == store.Keys - {id};
      assert |rest| == |rest.Keys| == |store.Keys| - 1 == |store| - 1;
      DistinctAtMostRows(rest, column);
      assert Image(store, column) <= Image(rest, column) + {column(store[id])} by {
        forall v | v in Image(store, column) ensures v in Image(rest, column) + {column(store[id])} {
          var k :| k in store && column(store[k]) == v;
          if k != id {
            assert rest[k] == store[k];
          }
        }
      }
      var bigger := Image(rest, column) + {column(store[id])};
      assert |bigger| <= |Image(rest, column)| + 1;
      SubsetCardinality(Image(store, column), bigger);
    }
  }

  /** At least one distinct value when there is at least one row. */
  lemma DistinctNonEmpty(store: Store, column: Message -> string)
    requires |store| > 0
    ensures |Image(store, column)| >= 1
  {
    var id :| id in store;
    assert column(store[id]) in Image(store, column);
  }

  lemma StatsBounds(store: Store)
    ensures |Senders(store)| <= |store| && |Recipients(store)| <= |store|
    ensures |store| > 0 ==> |Senders(store)| >= 1 && |Recipients(store)| >= 1
  {
    var from := (m: Message) => m.fromMsisdn;
    var to := (m: Message) => m.toMsisdn;
    assert Senders(store) == Image(store, from);
    assert Recipients(store) == Image(store, to);
    DistinctAtMostRows(store, from);
    DistinctAtMostRows(store, to);
    if |store| > 0 {
      DistinctNonEmpty(store, from);
      DistinctNonEmpty(store, to);
    }
  }

  /**
   * How one webhook request moves the statistics: a new row adds one to the
   * count and its numbers to the distinct sets; every other outcome leaves
   * them as they were.
   */
  lemma StatsAfterWebhook(cfg: Config, mac: Signature.Mac, req: Request, store: Store, storage: Storage)
    ensures var reply := Webhook(cfg, mac, req, store, storage);
      reply.status == Acknowledged(Created) ==>
        && |reply.store| == |store| + 1
        && Senders(reply.store) == Senders(store) + {Validate(req.decoded.body).value.fromMsisdn}
        && Recipients(reply.store) == Recipients(store) + {Validate(req.decoded.body).value.toMsisdn}
    ensures var reply := Webhook(cfg, mac, req, store, storage);
      reply.status != Acknowledged(Created) ==>
        |reply.store| == |store| && Senders(reply.store) == Senders(store) && Recipients(reply.store) == Recipients(store)
  {
    var reply := Webhook(cfg, mac, req, store, storage);
    if reply.status == Acknowledged(Created) {
      var p := Validate(req.decoded.body).value;
      assert p.messageId !in store;
      assert reply.store == store[p.messageId := NewRow(p, storage.now)];
      assert reply.store.Keys == store.Keys + {p.messageId};
    }
  }
}
