/**
 * `GET /messages` (main.py): clamp the paging parameters, filter, count,
 * order by `(ts, message_id)` and cut out one page.
 */
module Listing {
  import opened Wrappers
  import opened Text
  import opened Models
  import opened Schemas

  const MaxLimit: int := 100

  /** `max(1, min(100, limit))`: the value of [1, 100] nearest to the request. */
  function ClampLimit(limit: int): (r: int)
    ensures 1 <= r <= MaxLimit
    ensures 1 <= limit <= MaxLimit ==> r == limit
    ensures forall v :: 1 <= v <= MaxLimit ==> Dist(r, limit) <= Dist(v, limit)
  {
    if limit < 1 then 1 else if limit > MaxLimit then MaxLimit else limit
  }

  /** `max(0, offset)`. */
  function ClampOffset(offset: int): (r: nat)
    ensures offset >= 0 ==> r == offset
    ensures offset < 0 ==> r == 0
  {
    if offset < 0 then 0 else offset
  }

  function Dist(a: int, b: int): nat {
    if a < b then b - a else a - b
  }

  // ---------------------------------------------------------------------------
  // Filters.
  // ---------------------------------------------------------------------------

  datatype Filter = Filter(fromMsisdn: Option<string>, since: Option<string>, q: Option<string>)

  /** The query parameters; an omitted `limit` or `offset` is `None`. */
  datatype ListParams = ListParams(limit: Option<int>, offset: Option<int>, filter: Filter)

  const DefaultLimit: int := 50
  const DefaultOffset: int := 0

  /** The requested limit, 50 when omitted. */
  function RequestedLimit(params: ListParams): (l: int)
    ensures params.limit.Some? ==> l == params.limit.value
    ensures params.limit.None? ==> l == DefaultLimit
  {
    if params.limit.Some? then params.limit.value else DefaultLimit
  }

  /** The requested offset, 0 when omitted. */
  function RequestedOffset(params: ListParams): (o: int)
    ensures params.offset.Some? ==> o == params.offset.value
    ensures params.offset.None? ==> o == DefaultOffset
  {
    if params.offset.Some? then params.offset.value else DefaultOffset
  }

  /**
   * The largest value SQLite's driver binds as an INTEGER; a larger Python
   * int raises `OverflowError` when passed as a query parameter.
   */
  const MaxSqlInteger: int := 0x7FFF_FFFF_FFFF_FFFF

  /** A query parameter takes effect only when present and non-empty. */
  predicate Given(p: Option<string>) {
    p.Some? && p.value != ""
  }

  /**
   * The WHERE clause: `from_msisdn = ?`, `ts >= ?` in the column's string
   * order, and `text ILIKE '%q%'` (a NULL text never matches), each applied
   * only when given.
   */
  predicate Selects(f: Filter, m: Message) {
    && (Given(f.fromMsisdn) ==> m.fromMsisdn == f.fromMsisdn.value)
    && (Given(f.since) ==> !LexLess(m.ts, f.since.value))
    && (Given(f.q) ==> m.text.Some? && Like("%" + f.q.value + "%", m.text.value))
  }

  /** The rows the filters select. */
  function Matching(store: Store, f: Filter): set<Message> {
    set m | m in store.Values && Selects(f, m)
  }

  /**
   * The filters as the API describes them: exact sender, timestamp at or
   * after `since`, and `q` a case-insensitive substring of the text.
   */
  lemma FilterMeaning(f: Filter, m: Message)
    requires Given(f.q) ==> NoWildcards(f.q.value)
    ensures Selects(f, m) <==>
      && (Given(f.fromMsisdn) ==> m.fromMsisdn == f.fromMsisdn.value)
      && (Given(f.since) ==> m.ts == f.since.value || LexLess(f.since.value, m.ts))
      && (Given(f.q) ==> m.text.Some? && ContainsIgnoringCase(m.text.value, f.q.value))
  {
    if Given(f.since) {
      if m.ts == f.since.value {
        LexLessIrreflexive(m.ts);
      } else if LexLess(f.since.value, m.ts) {
        LexLessAsymmetric(f.since.value, m.ts);
      } else {
        LexLessTotal(m.ts, f.since.value);
      }
    }
    if Given(f.q) && m.text.Some? {
      LikeSubstring(f.q.value, m.text.value);
    }
  }

  /** With no filter given, every row is listed. */
  lemma NoFilterSelectsAll(store: Store, f: Filter)
    requires !Given(f.fromMsisdn) && !Given(f.since) && !Given(f.q)
    ensures Matching(store, f) == store.Values
  {
  }

  // ---------------------------------------------------------------------------
  // Ordering: `ORDER BY ts ASC, message_id ASC`.
  // ---------------------------------------------------------------------------

  predicate Precedes(a: Message, b: Message) {
    LexLess(a.ts, b.ts) || (a.ts == b.ts && LexLess(a.messageId, b.messageId))
  }

  predicate Sorted(s: seq<Message>) {
    forall i, j :: 0 <= i < j < |s| ==> Precedes(s[i], s[j])
  }

  lemma PrecedesIrreflexive(a: Message)
    ensures !Precedes(a, a)
  {
    LexLessIrreflexive(a.ts);
    LexLessIrreflexive(a.messageId);
  }

  lemma PrecedesAsymmetric(a: Message, b: Message)
    requires Precedes(a, b)
    ensures !Precedes(b, a)
  {
    if LexLess(a.ts, b.ts) {
      LexLessAsymmetric(a.ts, b.ts);
      LexLessIrreflexive(a.ts);
    } else {
      LexLessAsymmetric(a.messageId, b.messageId);
      LexLessIrreflexive(a.ts);
    }
  }

  lemma PrecedesTransitive(a: Message, b: Message, c: Message)
    requires Precedes(a, b) && Precedes(b, c)
    ensures Precedes(a, c)
  {
    if LexLess(a.ts, b.ts) && LexLess(b.ts, c.ts) {
      LexLessTransitive(a.ts, b.ts, c.ts);
    } else if a.ts == b.ts && b.ts == c.ts {
      LexLessTransitive(a.messageId, b.messageId, c.messageId);
    }
  }

  /** Rows with different ids are always ordered. */
  lemma PrecedesTotal(a: Message, b: Message)
    requires a.messageId != b.messageId
    ensures Precedes(a, b) || Precedes(b, a)
  {
    if a.ts != b.ts {
      LexLessTotal(a.ts, b.ts);
    } else {
      LexLessTotal(a.messageId, b.messageId);
    }
  }

  lemma PrependSorted(m: Message, s: seq<Message>)
    requires Sorted(s)
    requires forall x :: x in s ==> Precedes(m, x)
    ensures Sorted([m] + s)
  {
    var r := [m] + s;
    forall i, j | 0 <= i < j < |r| ensures Precedes(r[i], r[j]) {
      if i > 0 {
        assert r[i] == s[i - 1] && r[j] == s[j - 1];
      } else {
        assert r[j] == s[j - 1];
      }
    }
  }

  /** Inserting a row with a fresh id into a sorted list keeps it sorted. */
  function InsertSorted(s: seq<Message>, m: Message): (r: seq<Message>)
    requires Sorted(s)
    requires forall i :: 0 <= i < |s| ==> s[i].messageId != m.messageId
    ensures Sorted(r)
    ensures |r| == |s| + 1
    ensures forall x :: x in r <==> x in s || x == m
    decreases |s|
  {
    if |s| == 0 then [m]
    else if Precedes(m, s[0]) then
      assert forall x :: x in s ==> Precedes(m, x) by {
        forall x | x in s ensures Precedes(m, x) {
          var k :| 0 <= k < |s| && s[k] == x;
          if k > 0 {
            PrecedesTransitive(m, s[0], x);
          }
        }
      }
      PrependSorted(m, s);
      [m] + s
    else
      PrecedesTotal(m, s[0]);
      assert Sorted(s[1..]) by {
        forall i, j | 0 <= i < j < |s[1..]| ensures Precedes(s[1..][i], s[1..][j]) {
          assert s[1..][i] == s[i + 1] && s[1..][j] == s[j + 1];
        }
      }
      var tail := InsertSorted(s[1..], m);
      assert forall x :: x in tail ==> Precedes(s[0], x) by {
        forall x | x in tail ensures Precedes(s[0], x) {
          if x != m {
            var k :| 0 <= k < |s[1..]| && s[1..][k] == x;
            assert x == s[k + 1];
          }
        }
      }
      PrependSorted(s[0], tail);
      assert forall x :: x in s <==> x == s[0] || x in s[1..] by {
        assert s == [s[0]] + s[1..];
      }
      [s[0]] + tail
  }

  function Elements(s: seq<Message>): set<Message> {
    set x | x in s
  }

  /** A sorted list has no repeats: it holds as many rows as its length. */
  lemma {:induction false} SortedDistinct(s: seq<Message>)
    requires Sorted(s)
    ensures |Elements(s)| == |s|
  {
    if |s| > 0 {
      var t := s[1..];
      assert Sorted(t) by {
        forall i, j | 0 <= i < j < |t| ensures Precedes(t[i], t[j]) {
          assert t[i] == s[i + 1] && t[j] == s[j + 1];
        }
      }
      SortedDistinct(t);
      assert s == [s[0]] + t;
      assert Elements(s) == {s[0]} + Elements(t);
      if s[0] in t {
        var k :| 0 <= k < |t| && t[k] == s[0];
        assert Precedes(s[0], s[k + 1]);
        PrecedesIrreflexive(s[0]);
      }
    }
  }

  /** The number of selected rows that sort strictly before `m`. */
  function Rank(m: Message, rows: set<Message>): nat {
    |set x | x in rows && Precedes(x, m)|
  }

  /** In a sorted list, a row's position is its rank among the list's rows. */
  lemma SortedRank(s: seq<Message>, i: int)
    requires Sorted(s) && 0 <= i < |s|
    ensures Rank(s[i], Elements(s)) == i
  {
    var before := set x | x in Elements(s) && Precedes(x, s[i]);
    assert before == Elements(s[..i]) by {
      forall x | x in before ensures x in Elements(s[..i]) {
        var k :| 0 <= k < |s| && s[k] == x;
        if k >= i {
          if k == i {
            PrecedesIrreflexive(x);
          } else {
            PrecedesAsymmetric(s[i], s[k]);
          }
        }
        assert s[..i][k] == x;
      }
      forall x | x in Elements(s[..i]) ensures x in before {
        var k :| 0 <= k < i && s[..i][k] == x;
        assert x == s[k];
      }
    }
    assert Sorted(s[..i]) by {
      forall a, b | 0 <= a < b < i ensures Precedes(s[..i][a], s[..i][b]) {
        assert s[..i][a] == s[a] && s[..i][b] == s[b];
      }
    }
    SortedDistinct(s[..i]);
  }

  // ---------------------------------------------------------------------------
  // The query.
  // ---------------------------------------------------------------------------

  /** The rows of one page, the full filtered count and the effective paging. */
  datatype Page = Page(rows: seq<Message>, total: nat, limit: int, offset: nat)

  /** How many rows `LIMIT limit OFFSET offset` keeps out of `total`. */
  function PageSize(total: nat, limit: int, offset: nat): nat
    requires limit >= 1
  {
    if offset >= total then 0 else if total - offset < limit then total - offset else limit
  }

  /**
   * The query. `None` is the 500 answer when the clamped offset is too large
   * for the database driver to bind.
   */
  method QueryMessages(store: Store, params: ListParams) returns (result: Option<Page>)
    requires WellKeyed(store)
    ensures result.None? <==> ClampOffset(RequestedOffset(params)) > MaxSqlInteger
    ensures result.Some? ==> var page := result.value;
      && page.limit == ClampLimit(RequestedLimit(params))
      && page.offset == ClampOffset(RequestedOffset(params))
      && page.total == |Matching(store, params.filter)|
      && |page.rows| == PageSize(page.total, page.limit, page.offset)
      && |page.rows| <= page.limit <= MaxLimit
      && (page.offset >= page.total ==> page.rows == [])
      && Sorted(page.rows)
      && forall i :: 0 <= i < |page.rows| ==>
           && page.rows[i] in Matching(store, params.filter)
           && Rank(page.rows[i], Matching(store, params.filter)) == page.offset + i
  {
    var limit := ClampLimit(RequestedLimit(params));
    var offset := ClampOffset(RequestedOffset(params));
    if offset > MaxSqlInteger {
      return None;
    }
    var sorted := SortMatching(store, params.filter);
    result := Some(Page(Window(sorted, limit, offset), |sorted|, limit, offset));
  }

  /** The matching rows in `(ts, message_id)` order, each exactly once. */
  method SortMatching(store: Store, f: Filter) returns (sorted: seq<Message>)
    requires WellKeyed(store)
    ensures Sorted(sorted)
    ensures Elements(sorted) == Matching(store, f)
    ensures |sorted| == |Matching(store, f)|
  {
    var matching := set m | m in store.Values && Selects(f, m);
    sorted := [];
    var rest := matching;
    while rest != {}
      invariant rest <= matching
      invariant Sorted(sorted)
      invariant forall x :: x in sorted <==> x in matching && x !in rest
      invariant |sorted| + |rest| == |matching|
      decreases |rest|
    {
      var m :| m in rest;
      forall i | 0 <= i < |sorted| ensures sorted[i].messageId != m.messageId {
        assert sorted[i] in sorted;
        DistinctRowsDistinctIds(store, sorted[i], m);
      }
      sorted := InsertSorted(sorted, m);
      rest := rest - {m};
    }
  }

  /**
   * `LIMIT limit OFFSET offset` over a sorted list: the rows whose rank is in
   * `[offset, offset + limit)`, in order.
   */
  function Window(sorted: seq<Message>, limit: int, offset: nat): (rows: seq<Message>)
    requires Sorted(sorted) && limit >= 1
    ensures |rows| == PageSize(|sorted|, limit, offset)
    ensures Sorted(rows)
    ensures forall i :: 0 <= i < |rows| ==>
      rows[i] in Elements(sorted) && Rank(rows[i], Elements(sorted)) == offset + i
  {
    var start := if offset < |sorted| then offset else |sorted|;
    var end := if offset + limit < |sorted| then offset + limit else |sorted|;
    var rows := sorted[start..end];
    assert Sorted(rows) by {
      forall a, b | 0 <= a < b < |rows| ensures Precedes(rows[a], rows[b]) {
        assert rows[a] == sorted[start + a] && rows[b] == sorted[start + b];
      }
    }
    assert forall i :: 0 <= i < |rows| ==>
      rows[i] in Elements(sorted) && Rank(rows[i], Elements(sorted)) == offset + i
    by {
      forall i | 0 <= i < |rows|
        ensures rows[i] in Elements(sorted) && Rank(rows[i], Elements(sorted)) == offset + i
      {
        assert rows[i] == sorted[start + i];
        SortedRank(sorted, start + i);
      }
    }
    rows
  }

  /** The JSON body: rows serialised without `created_at`, paging echoed back. */
  function Respond(page: Page): (r: MessageListResponse)
    ensures |r.data| == |page.rows|
    ensures forall i :: 0 <= i < |r.data| ==> r.data[i] == ToSchema(page.rows[i])
    ensures r.total == page.total && r.limit == page.limit && r.offset == page.offset
  {
    MessageListResponse(seq(|page.rows|, i requires 0 <= i < |page.rows| => ToSchema(page.rows[i])),
      page.total, page.limit, page.offset)
  }
}
