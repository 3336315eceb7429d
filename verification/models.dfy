/**
 * The `messages` table (app/models.py). The database becomes a map from
 * `message_id` to the row filed under it.
 */
module Models {
  import opened Wrappers

  /**
   * One stored message. `from_msisdn`, `to_msisdn` and `ts` are NOT NULL
   * columns, so they are plain strings; `text` is nullable. `created_at` is
   * filled in by the database at insert time.
   */
  datatype Message = Message(
    messageId: string,
    fromMsisdn: string,
    toMsisdn: string,
    ts: string,
    text: Option<string>,
    createdAt: string)

  type Store = map<string, Message>

  /** `message_id` is the primary key: every row is filed under its own id. */
  predicate WellKeyed(store: Store) {
    forall id :: id in store ==> store[id].messageId == id
  }

  /** Two different rows of a well-keyed store never share a `message_id`. */
  lemma DistinctRowsDistinctIds(store: Store, a: Message, b: Message)
    requires WellKeyed(store)
    requires a in store.Values && b in store.Values && a != b
    ensures a.messageId != b.messageId
  {
  }

  /** In a well-keyed store, there are as many distinct rows as keys. */
  lemma {:induction false} RowsMatchKeys(store: Store)
    requires WellKeyed(store)
    ensures |store.Values| == |store|
    decreases |store|
  {
    if |store| > 0 {
      var id :| id in store;
      var rest := map k | k in store && k != id :: store[k];
      assert rest.Keys == store.Keys - {id};
      assert rest.Values == store.Values - {store[id]} by {
        forall m | m in rest.Values ensures m in store.Values && m != store[id] {
          var k :| k in rest && rest[k] == m;
          assert m.messageId == k;
        }
        forall m | m in store.Values && m != store[id] ensures m in rest.Values {
          var k :| k in store && store[k] == m;
          assert k != id;
          assert rest[k] == m;
        }
      }
      RowsMatchKeys(rest);
    }
  }
}
