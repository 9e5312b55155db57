/**
 When a live query may skip re-evaluation: the impact filter built at
 subscription time, the event test that uses it together with the keys of the
 last page, and the runs of event batches a subscribed client goes through.
 */
module LiveQuery {
  import opened Lex
  import opened Options
  import opened QueryDiff
  import opened Records
  import opened Sorting

  type Condition = Record -> bool

  /** Reading through a secondary index: exactly the given values, or a range of them. */
  datatype IndexUse = IndexUse(declared: bool, parses: bool, range: bool, exact: Condition, inRange: Condition)

  /** A live query: filter, order, cursor and limit over one table. */
  datatype Query = Query(table: string, parentPrefix: Option<string>, condition: Option<Condition>,
                         index: Option<IndexUse>,
                         atMost: (Record, Record) -> bool, afterCursor: Condition, limit: nat)

  predicate Admits(condition: Option<Condition>, record: Record) {
    condition.Some? ==> condition.value(record)
  }

  predicate Matches(q: Query, record: Record) {
    record.table == q.table &&
    (q.parentPrefix.Some? ==> q.parentPrefix.value <= record.key) &&
    Admits(q.condition, record) &&
    (q.index.Some? ==> if q.index.value.range then q.index.value.inRange(record) else q.index.value.exact(record)) &&
    q.afterCursor(record)
  }

  // ---------------------------------------------------------------- impact filter and event test

  datatype ImpactFilter = AllUpserts | ByPredicate(single: Condition)
                        | ExactIndex(exact: Condition, condition: Option<Condition>)

  function PredicateOrAll(condition: Option<Condition>): ImpactFilter {
    match condition
    case Some(single) => ByPredicate(single)
    case None => AllUpserts
  }

  function ImpactOf(q: Query): ImpactFilter {
    if q.index.None? then PredicateOrAll(q.condition)
    else if q.index.value.range || !q.index.value.declared || !q.index.value.parses then PredicateOrAll(q.condition)
    else ExactIndex(q.index.value.exact, q.condition)
  }

  predicate Passes(filter: ImpactFilter, record: Record) {
    match filter
    case AllUpserts => true
    case ByPredicate(single) => single(record)
    case ExactIndex(exact, condition) => Admits(condition, record) && exact(record)
  }

  datatype Event = Upserted(table: string, key: string, record: Record)
                 | Deleted(table: string, key: string)
                 | OtherEvent

  datatype Subscription = Subscription(query: Query, impact: ImpactFilter, schemaVersion: nat, lastKeys: set<string>,
                                       lastResultId: Option<string>)

  /** `record_query_matches_event`: must the query be evaluated again? */
  predicate MatchesEvent(schemaVersion: nat, sub: Subscription, event: Event) {
    match event
    case OtherEvent => false
    case Deleted(table, key) =>
      table == sub.query.table && (sub.query.parentPrefix.Some? ==> sub.query.parentPrefix.value <= key)
    case Upserted(table, key, record) =>
      table == sub.query.table && (sub.query.parentPrefix.Some? ==> sub.query.parentPrefix.value <= key) &&
      (key in sub.lastKeys || schemaVersion != sub.schemaVersion || Passes(sub.impact, record))
  }

  // ---------------------------------------------------------------- the stored table and its pages

  type Store = map<string, Record>

  ghost predicate StoreOk(q: Query, store: Store) {
    forall k :: k in store ==> store[k].key == k && store[k].table == q.table
  }

  predicate EventOk(event: Event) {
    event.Upserted? ==> event.record.key == event.key && event.record.table == event.table
  }

  function After(q: Query, store: Store, event: Event): Store {
    match event
    case Upserted(table, key, record) => if table == q.table then store[key := record] else store
    case Deleted(table, key) => if table == q.table then store - {key} else store
    case OtherEvent => store
  }

  function AfterAll(q: Query, store: Store, events: seq<Event>): Store {
    if events == [] then store else After(q, AfterAll(q, store, events[..|events| - 1]), events[|events| - 1])
  }

  /** The event writes or removes the record of this table and key. */
  predicate Touches(event: Event, table: string, key: string) {
    (event.Upserted? || event.Deleted?) && event.table == table && event.key == key
  }

  ghost predicate LastTouch(events: seq<Event>, i: int, table: string, key: string) {
    0 <= i < |events| && Touches(events[i], table, key) &&
    forall j :: i < j < |events| ==> !Touches(events[j], table, key)
  }

  lemma {:induction false} UntouchedStays(q: Query, store: Store, events: seq<Event>, key: string)
    requires forall i :: 0 <= i < |events| ==> !Touches(events[i], q.table, key)
    ensures var after := AfterAll(q, store, events);
            (key in after <==> key in store) && (key in store ==> after[key] == store[key])
  {
    if events != [] {
      UntouchedStays(q, store, events[..|events| - 1], key);
      assert !Touches(events[|events| - 1], q.table, key);
    }
  }

  /** What is stored under a key is what the last event about it wrote, and nothing if that removed it. */
  lemma {:induction false} StoreFollowsLastTouch(q: Query, store: Store, events: seq<Event>, i: nat, key: string)
    requires LastTouch(events, i, q.table, key)
    ensures var after := AfterAll(q, store, events);
            (key in after <==> events[i].Upserted?) && (events[i].Upserted? ==> after[key] == events[i].record)
  {
    var n := |events| - 1;
    if i < n {
      assert !Touches(events[n], q.table, key);
      StoreFollowsLastTouch(q, store, events[..n], i, key);
    }
  }

  /** Pages are listed by a total order in which only records of one key can be tied. */
  ghost predicate OrderOk(q: Query) {
    (forall a, b :: q.atMost(a, b) || q.atMost(b, a)) &&
    (forall a, b, c :: q.atMost(a, b) && q.atMost(b, c) ==> q.atMost(a, c)) &&
    (forall a, b :: q.atMost(a, b) && q.atMost(b, a) ==> a.key == b.key)
  }

  ghost function Matching(q: Query, store: Store): set<Record> {
    set k | k in store && Matches(q, store[k]) :: store[k]
  }

  ghost function Listing(records: set<Record>): seq<Record> {
    if records == {} then [] else var r :| r in records; [r] + Listing(records - {r})
  }

  /** A fresh evaluation: the first `limit` matching records in order. */
  ghost function Evaluate(q: Query, store: Store): seq<Record> {
    var all := Sort(q.atMost, Listing(Matching(q, store)));
    if |all| <= q.limit then all else all[..q.limit]
  }

  ghost predicate HasMore(q: Query, store: Store) {
    |Matching(q, store)| > q.limit
  }

  /** The same, said of a given page. */
  ghost predicate IsPage(q: Query, store: Store, page: seq<Record>) {
    |page| <= q.limit && SortedBy(q.atMost, page) && DistinctKeys(page) &&
    (forall r :: r in page ==> r in Matching(q, store)) &&
    (forall r :: r in Matching(q, store) && r !in page ==>
       |page| == q.limit && forall p :: p in page ==> q.atMost(p, r))
  }

  function KeySet(page: seq<Record>): set<string> {
    set i | 0 <= i < |page| :: page[i].key
  }

  lemma {:induction false} ListingLists(records: set<Record>)
    ensures multiset(Listing(records)) == multiset(records)
    decreases records
  {
    if records != {} {
      var r :| r in records && Listing(records) == [r] + Listing(records - {r});
      ListingLists(records - {r});
      assert multiset(records) == multiset(records - {r}) + multiset{r};
    }
  }

  lemma {:induction false} DistinctPageLists(page: seq<Record>)
    requires DistinctKeys(page)
    ensures multiset(page) == multiset(set r | r in page)
  {
    if page != [] {
      var init, last := page[..|page| - 1], page[|page| - 1];
      assert page == init + [last];
      DistinctPageLists(init);
      assert last !in init;
      assert (set r | r in page) == (set r | r in init) + {last};
    }
  }

  lemma OrderedListing(q: Query, store: Store)
    requires OrderOk(q) && StoreOk(q, store)
    ensures var all := Sort(q.atMost, Listing(Matching(q, store)));
            SortedBy(q.atMost, all) && multiset(all) == multiset(Matching(q, store)) && NoTies(q.atMost, all)
  {
    var listing := Listing(Matching(q, store));
    SortSorts(q.atMost, listing);
    SortPermutes(q.atMost, listing);
    ListingLists(Matching(q, store));
    forall r | r in Sort(q.atMost, listing)
      ensures r in Matching(q, store)
    {
      assert r in multiset(Sort(q.atMost, listing));
    }
  }

  /** The matching records a page leaves out, in order. */
  ghost function Rest(q: Query, store: Store, page: seq<Record>): seq<Record> {
    Sort(q.atMost, Listing(Matching(q, store) - (set r | r in page)))
  }

  lemma RestIsOrdered(q: Query, store: Store, page: seq<Record>)
    requires OrderOk(q)
    ensures SortedBy(q.atMost, Rest(q, store, page))
    ensures multiset(Rest(q, store, page)) == multiset(Matching(q, store) - (set r | r in page))
    ensures forall i :: 0 <= i < |Rest(q, store, page)| ==>
              Rest(q, store, page)[i] in Matching(q, store) && Rest(q, store, page)[i] !in page
  {
    var left := Matching(q, store) - (set r | r in page);
    ListingLists(left);
    SortPermutes(q.atMost, Listing(left));
    SortSorts(q.atMost, Listing(left));
    var rest := Rest(q, store, page);
    forall i | 0 <= i < |rest|
      ensures rest[i] in left
    {
      assert rest[i] in multiset(rest);
    }
  }

  lemma PageAndRestListAll(q: Query, store: Store, page: seq<Record>)
    requires OrderOk(q) && IsPage(q, store, page)
    ensures multiset(page + Rest(q, store, page)) == multiset(Matching(q, store))
  {
    var matching, shown := Matching(q, store), set r | r in page;
    RestIsOrdered(q, store, page);
    DistinctPageLists(page);
    assert shown <= matching;
    assert multiset(matching) == multiset(shown) + multiset(matching - shown);
  }

  lemma PageThenRestIsOrdered(q: Query, store: Store, page: seq<Record>)
    requires OrderOk(q) && IsPage(q, store, page)
    ensures SortedBy(q.atMost, page + Rest(q, store, page))
  {
    var rest := Rest(q, store, page);
    RestIsOrdered(q, store, page);
    forall i, j | 0 <= i < j < |page + rest|
      ensures q.atMost((page + rest)[i], (page + rest)[j])
    {
      if i < |page| <= j {
        assert page[i] in page && rest[j - |page|] !in page;
      }
    }
  }

  /** A page with these properties is the fresh evaluation: nothing else has them. */
  lemma PageIsEvaluation(q: Query, store: Store, page: seq<Record>)
    requires OrderOk(q) && StoreOk(q, store) && IsPage(q, store, page)
    ensures page == Evaluate(q, store)
  {
    var rest, all := Rest(q, store, page), Sort(q.atMost, Listing(Matching(q, store)));
    OrderedListing(q, store);
    RestIsOrdered(q, store, page);
    PageAndRestListAll(q, store, page);
    PageThenRestIsOrdered(q, store, page);
    SortedIsUnique(q.atMost, all, page + rest);
    if rest != [] {
      assert rest[0] in Matching(q, store) && rest[0] !in page;
    }
    assert all[..|page|] == page;
  }

  /** In an ordered listing of the matching records, no key is listed twice. */
  lemma ListingHasDistinctKeys(q: Query, store: Store, all: seq<Record>)
    requires StoreOk(q, store) && multiset(all) == multiset(Matching(q, store))
    ensures DistinctKeys(all)
    ensures forall i :: 0 <= i < |all| ==> all[i] in Matching(q, store)
  {
    forall i | 0 <= i < |all|
      ensures all[i] in Matching(q, store)
    {
      assert all[i] in multiset(all);
    }
    forall i, j | 0 <= i < j < |all|
      ensures all[i].key != all[j].key
    {
      if all[i].key == all[j].key {
        assert all[i] in Matching(q, store) && all[j] in Matching(q, store);
        TwiceCountsTwo(all, i, j);
      }
    }
  }

  lemma EvaluationIsPage(q: Query, store: Store)
    requires OrderOk(q) && StoreOk(q, store)
    ensures IsPage(q, store, Evaluate(q, store))
  {
    var all, page := Sort(q.atMost, Listing(Matching(q, store))), Evaluate(q, store);
    OrderedListing(q, store);
    ListingHasDistinctKeys(q, store, all);
    FirstOfOrdered(q, all, page);
    forall r | r in Matching(q, store) && r !in page
      ensures |page| == q.limit && forall p :: p in page ==> q.atMost(p, r)
    {
      assert r in multiset(all);
    }
  }

  /**
   The record stored under a key is on the fresh page only if table, parent, condition, index and cursor ask for it, and
   if they do it is left out only from a full page of records that do not come after it.
   */
  lemma EvaluationAnswersQuery(q: Query, store: Store, key: string)
    requires OrderOk(q) && StoreOk(q, store) && key in store
    ensures var r, page := store[key], Evaluate(q, store);
            var asked := r.table == q.table &&
                         (q.parentPrefix.Some? ==> q.parentPrefix.value <= key) &&
                         (q.condition.Some? ==> q.condition.value(r)) &&
                         (q.index.Some? && q.index.value.range ==> q.index.value.inRange(r)) &&
                         (q.index.Some? && !q.index.value.range ==> q.index.value.exact(r)) &&
                         q.afterCursor(r);
            (r in page ==> asked) &&
            (asked && r !in page ==> |page| == q.limit && forall p :: p in page ==> q.atMost(p, r))
    ensures forall p :: p in Evaluate(q, store) ==> p.key in store && store[p.key] == p
    ensures |Evaluate(q, store)| <= q.limit && SortedBy(q.atMost, Evaluate(q, store))
  {
    EvaluationIsPage(q, store);
    assert Matches(q, store[key]) <==> store[key] in Matching(q, store);
  }

  lemma FirstOfOrdered(q: Query, all: seq<Record>, page: seq<Record>)
    requires SortedBy(q.atMost, all) && page == if |all| <= q.limit then all else all[..q.limit]
    ensures SortedBy(q.atMost, page) && forall r :: r in page ==> r in all
    ensures forall r :: r in all && r !in page ==> |page| == q.limit && forall p :: p in page ==> q.atMost(p, r)
  {
    forall r | r in all && r !in page
      ensures |page| == q.limit && forall p :: p in page ==> q.atMost(p, r)
    {
      assert forall i :: 0 <= i < |page| ==> page[i] == all[i] && page[i] in page;
    }
  }

  // ---------------------------------------------------------------- skipping

  /** A matching record always passes the filter built for the query. */
  lemma MatchPassesFilter(q: Query, record: Record)
    requires Matches(q, record)
    ensures Passes(ImpactOf(q), record)
  {
  }

  /** The filter asks for the query's condition, and for the index values when the index is an exact one it can use. */
  lemma FilterAsksConditionAndIndex(q: Query, record: Record)
    ensures Passes(ImpactOf(q), record) <==>
            (q.condition.Some? ==> q.condition.value(record)) &&
            (q.index.Some? && !q.index.value.range && q.index.value.declared && q.index.value.parses ==>
               q.index.value.exact(record))
  {
  }

  /**
   An upsert in the query's table and parent is skipped exactly when its key was not shown last, the schema is that of
   the subscription, and condition or index values turn the record away.
   */
  lemma UpsertIsSkippedIff(schemaVersion: nat, sub: Subscription, event: Event)
    requires sub.impact == ImpactOf(sub.query) && event.Upserted? && event.table == sub.query.table
    requires sub.query.parentPrefix.Some? ==> sub.query.parentPrefix.value <= event.key
    ensures var q := sub.query;
            !MatchesEvent(schemaVersion, sub, event) <==>
              event.key !in sub.lastKeys && schemaVersion == sub.schemaVersion &&
              !((q.condition.Some? ==> q.condition.value(event.record)) &&
                (q.index.Some? && !q.index.value.range && q.index.value.declared && q.index.value.parses ==>
                   q.index.value.exact(event.record)))
  {
    FilterAsksConditionAndIndex(sub.query, event.record);
  }

  /** An event of another table, or of a key outside the query's parent, is skipped and changes no page. */
  lemma EventElsewhereIsSkipped(schemaVersion: nat, sub: Subscription, store: Store, event: Event)
    requires StoreOk(sub.query, store) && EventOk(event)
    requires forall key :: Touches(event, sub.query.table, key) ==>
               sub.query.parentPrefix.Some? && !(sub.query.parentPrefix.value <= key)
    ensures !MatchesEvent(schemaVersion, sub, event)
    ensures Evaluate(sub.query, After(sub.query, store, event)) == Evaluate(sub.query, store)
    ensures HasMore(sub.query, After(sub.query, store, event)) <==> HasMore(sub.query, store)
  {
    var after := After(sub.query, store, event);
    assert !event.OtherEvent? && event.table == sub.query.table ==> Touches(event, sub.query.table, event.key);
    forall r
      ensures r in Matching(sub.query, after) <==> r in Matching(sub.query, store)
    {
      if r in Matching(sub.query, store) {
        assert after == store || r.key != event.key;
        assert r.key in after && after[r.key] == r;
      }
    }
    assert Matching(sub.query, after) == Matching(sub.query, store);
  }

  /** A record under `key` that the impact filter turns away. */
  predicate Rejected(sub: Subscription, key: string, record: Record) {
    record.key == key && record.table == sub.query.table && !Passes(sub.impact, record)
  }

  ghost predicate SomeRejected(sub: Subscription, key: string) {
    exists record :: Rejected(sub, key, record)
  }

  /**
   No change of a shown record goes unnoticed: its key is remembered, or the filter lets all records under it through.
   */
  ghost predicate Guarded(sub: Subscription, page: seq<Record>) {
    forall i :: 0 <= i < |page| ==> page[i].key in sub.lastKeys || !SomeRejected(sub, page[i].key)
  }

  /** A skipped event leaves a guarded page as it is. */
  lemma SkipKeepsPage(schemaVersion: nat, sub: Subscription, store: Store, page: seq<Record>, event: Event)
    requires StoreOk(sub.query, store) && EventOk(event) && sub.impact == ImpactOf(sub.query)
    requires IsPage(sub.query, store, page) && Guarded(sub, page)
    requires !MatchesEvent(schemaVersion, sub, event)
    ensures StoreOk(sub.query, After(sub.query, store, event)) &&
            IsPage(sub.query, After(sub.query, store, event), page)
  {
    var q, store' := sub.query, After(sub.query, store, event);
    if !event.OtherEvent? && event.table == q.table {
      assert event.key !in store' || !Matches(q, store'[event.key]) by {
        if event.Upserted? && Matches(q, event.record) {
          MatchPassesFilter(q, event.record);
        }
      }
      assert forall r :: r in Matching(q, store') ==> r in Matching(q, store);
      forall r | r in page
        ensures r in Matching(q, store')
      {
        assert r in Matching(q, store);
        var i :| 0 <= i < |page| && page[i] == r;
        assert Matches(q, r);
        assert r.key != event.key by {
          if event.Upserted? && r.key == event.key {
            assert Rejected(sub, event.key, event.record);
          }
        }
        assert store'[r.key] == r;
      }
    }
  }

  lemma {:induction false} SkipBatchKeepsPage(schemaVersion: nat, sub: Subscription, store: Store, page: seq<Record>,
                                              events: seq<Event>)
    requires StoreOk(sub.query, store) && sub.impact == ImpactOf(sub.query)
    requires forall i :: 0 <= i < |events| ==> EventOk(events[i])
    requires IsPage(sub.query, store, page) && Guarded(sub, page)
    requires forall i :: 0 <= i < |events| ==> !MatchesEvent(schemaVersion, sub, events[i])
    ensures StoreOk(sub.query, AfterAll(sub.query, store, events)) &&
            IsPage(sub.query, AfterAll(sub.query, store, events), page)
  {
    if events != [] {
      var before := events[..|events| - 1];
      SkipBatchKeepsPage(schemaVersion, sub, store, page, before);
      SkipKeepsPage(schemaVersion, sub, AfterAll(sub.query, store, before), page, events[|events| - 1]);
    }
  }

  lemma {:induction false} AfterAllKeepsStoreOk(q: Query, store: Store, events: seq<Event>)
    requires StoreOk(q, store) && forall i :: 0 <= i < |events| ==> EventOk(events[i])
    ensures StoreOk(q, AfterAll(q, store, events))
  {
    if events != [] {
      AfterAllKeepsStoreOk(q, store, events[..|events| - 1]);
    }
  }

  // ---------------------------------------------------------------- runs

  /** A connection's view of one live query; `page` is the record list last given to the client. */
  datatype Client = Client(store: Store, sub: Subscription, page: seq<Record>)

  /** The page fingerprint, taken to be collision-free. */
  type ResultId = (seq<Record>, bool) -> string

  ghost predicate Injective(resultId: ResultId) {
    forall p, m, q, n :: resultId(p, m) == resultId(q, n) ==> p == q
  }

  function Values(received: seq<Option<Record>>): seq<Record> {
    if received == [] then []
    else
      var before, last := Values(received[..|received| - 1]), received[|received| - 1];
      if last.Some? then before + [last.value] else before
  }

  /** What the client holds after a full result, or after merging a diff into what it held. */
  function Received(previous: seq<Record>, next: seq<Record>, asDiff: bool): seq<Record> {
    if asDiff then Values(Rebuild(previous, DiffBetween(previous, next))) else next
  }

  ghost predicate Affected(schemaVersion: nat, sub: Subscription, events: seq<Event>) {
    exists i :: 0 <= i < |events| && MatchesEvent(schemaVersion, sub, events[i])
  }

  /** One batch of events: apply them to the store, and refresh the query if some event says so. */
  ghost function Deliver(resultId: ResultId, client: Client, schemaVersion: nat, events: seq<Event>,
                         asDiff: bool): Client
  {
    var store := AfterAll(client.sub.query, client.store, events);
    if !Affected(schemaVersion, client.sub, events) then client.(store := store)
    else
      var page := Evaluate(client.sub.query, store);
      var id := resultId(page, HasMore(client.sub.query, store));
      if client.sub.lastResultId == Some(id) then client.(store := store)
      else Client(store, client.sub.(lastKeys := KeySet(page), lastResultId := Some(id)),
                  Received(client.page, page, asDiff))
  }

  /** A batch that asks for nothing, or whose fresh result has the last one's fingerprint, sends nothing. */
  lemma UnchangedResultSendsNothing(resultId: ResultId, client: Client, schemaVersion: nat, events: seq<Event>,
                                    asDiff: bool)
    requires var store := AfterAll(client.sub.query, client.store, events);
             (forall e :: e in events ==> !MatchesEvent(schemaVersion, client.sub, e)) ||
             client.sub.lastResultId ==
               Some(resultId(Evaluate(client.sub.query, store), HasMore(client.sub.query, store)))
    ensures var after := Deliver(resultId, client, schemaVersion, events, asDiff);
            after.sub == client.sub && after.page == client.page
  {
    if Affected(schemaVersion, client.sub, events) {
      var i :| 0 <= i < |events| && MatchesEvent(schemaVersion, client.sub, events[i]);
      assert events[i] in events;
    }
  }

  datatype Batch = Batch(schemaVersion: nat, events: seq<Event>, asDiff: bool)

  ghost function Run(resultId: ResultId, client: Client, batches: seq<Batch>): Client {
    if batches == [] then client
    else
      var last := batches[|batches| - 1];
      Deliver(resultId, Run(resultId, client, batches[..|batches| - 1]), last.schemaVersion, last.events, last.asDiff)
  }

  /** The client holds what a fresh evaluation gives, and the server remembers its fingerprint and enough keys. */
  ghost predicate Fresh(resultId: ResultId, client: Client) {
    StoreOk(client.sub.query, client.store) && client.sub.impact == ImpactOf(client.sub.query) &&
    client.page == Evaluate(client.sub.query, client.store) &&
    Guarded(client.sub, client.page) &&
    (client.sub.lastResultId == Some(resultId(client.page, true)) ||
     client.sub.lastResultId == Some(resultId(client.page, false)))
  }

  lemma {:induction false} ValuesOf(received: seq<Option<Record>>, page: seq<Record>)
    requires |received| == |page| && forall i :: 0 <= i < |page| ==> received[i] == Some(page[i])
    ensures Values(received) == page
  {
    if page != [] {
      ValuesOf(received[..|page| - 1], page[..|page| - 1]);
      assert page == page[..|page| - 1] + [page[|page| - 1]];
    }
  }

  lemma ReceivedIsNext(q: Query, before: Store, after: Store, asDiff: bool)
    requires OrderOk(q) && StoreOk(q, before) && StoreOk(q, after)
    ensures Received(Evaluate(q, before), Evaluate(q, after), asDiff) == Evaluate(q, after)
  {
    var previous, next := Evaluate(q, before), Evaluate(q, after);
    EvaluationIsPage(q, before);
    EvaluationIsPage(q, after);
    assert forall i :: 0 <= i < |previous| ==> previous[i] in previous;
    assert forall i :: 0 <= i < |next| ==> next[i] in next;
    RebuildGivesNext(previous, next, q.table);
    ValuesOf(Rebuild(previous, DiffBetween(previous, next)), next);
  }

  lemma DeliverStaysFresh(resultId: ResultId, client: Client, schemaVersion: nat, events: seq<Event>, asDiff: bool)
    requires Injective(resultId) && OrderOk(client.sub.query) && Fresh(resultId, client)
    requires forall i :: 0 <= i < |events| ==> EventOk(events[i])
    ensures Fresh(resultId, Deliver(resultId, client, schemaVersion, events, asDiff))
    ensures Deliver(resultId, client, schemaVersion, events, asDiff).sub.query == client.sub.query
  {
    var q := client.sub.query;
    var store := AfterAll(q, client.store, events);
    AfterAllKeepsStoreOk(q, client.store, events);
    if Affected(schemaVersion, client.sub, events) {
      ReceivedIsNext(q, client.store, store, asDiff);
    } else {
      EvaluationIsPage(q, client.store);
      SkipBatchKeepsPage(schemaVersion, client.sub, client.store, client.page, events);
      PageIsEvaluation(q, store, client.page);
    }
  }

  ghost predicate BatchesOk(batches: seq<Batch>) {
    forall b, i :: 0 <= b < |batches| && 0 <= i < |batches[b].events| ==> EventOk(batches[b].events[i])
  }

  /** Over any run of event batches the record list last given to the client equals a fresh evaluation. */
  lemma {:induction false} RunStaysFresh(resultId: ResultId, client: Client, batches: seq<Batch>)
    requires Injective(resultId) && OrderOk(client.sub.query) && Fresh(resultId, client) && BatchesOk(batches)
    ensures var after := Run(resultId, client, batches);
            Fresh(resultId, after) && after.sub.query == client.sub.query &&
            after.page == Evaluate(client.sub.query, after.store)
  {
    if batches != [] {
      var last := batches[|batches| - 1];
      RunStaysFresh(resultId, client, batches[..|batches| - 1]);
      DeliverStaysFresh(resultId, Run(resultId, client, batches[..|batches| - 1]), last.schemaVersion, last.events,
                        last.asDiff);
    }
  }

  // ---------------------------------------------------------------- subscribing, anew or again

  /** `held` is what the client has already, `given` the fingerprint it names; if that is current, no result is sent. */
  ghost function Subscribe(resultId: ResultId, q: Query, schemaVersion: nat, store: Store, held: seq<Record>,
                           given: Option<string>): Client
  {
    var page := Evaluate(q, store);
    var id := resultId(page, HasMore(q, store));
    if given == Some(id) then Client(store, Subscription(q, ImpactOf(q), schemaVersion, {}, given), held)
    else Client(store, Subscription(q, ImpactOf(q), schemaVersion, KeySet(page), Some(id)), page)
  }

  ghost predicate AlwaysFresh(resultId: ResultId, client: Client) {
    forall batches {:trigger Run(resultId, client, batches)} :: BatchesOk(batches) ==>
      var after := Run(resultId, client, batches);
      after.page == Evaluate(client.sub.query, after.store)
  }

  /**
   A client is up to date after every run exactly when its page is guarded: a subscription that was sent its page is,
   one resumed without a result only if the filter turns away no record under a shown key.
   */
  lemma SubscriptionIsAlwaysFreshIff(resultId: ResultId, q: Query, schemaVersion: nat, store: Store, held: seq<Record>,
                                     given: Option<string>)
    requires Injective(resultId) && OrderOk(q) && StoreOk(q, store)
    requires given.Some? ==> given == Some(resultId(held, true)) || given == Some(resultId(held, false))
    ensures var client := Subscribe(resultId, q, schemaVersion, store, held, given);
            var page := Evaluate(q, store);
            AlwaysFresh(resultId, client) <==>
              given != Some(resultId(page, HasMore(q, store))) ||
              forall i :: 0 <= i < |page| ==> !SomeRejected(client.sub, page[i].key)
  {
    var client, page := Subscribe(resultId, q, schemaVersion, store, held, given), Evaluate(q, store);
    assert client.page == page;
    if Guarded(client.sub, page) {
      forall batches | BatchesOk(batches)
        ensures var after := Run(resultId, client, batches); after.page == Evaluate(q, after.store)
      {
        RunStaysFresh(resultId, client, batches);
      }
    } else {
      var i :| 0 <= i < |page| && page[i].key !in client.sub.lastKeys && SomeRejected(client.sub, page[i].key);
      var event := MissedEvent(client.sub, store, i);
      MissedEventLeavesStale(resultId, client, event);
    }
  }

  lemma MissedEventLeavesStale(resultId: ResultId, client: Client, event: Event)
    requires client.page == Evaluate(client.sub.query, client.store) && !SkipIsSafe(client.sub, client.store, event)
    ensures var batches := [Batch(client.sub.schemaVersion, [event], false)];
            BatchesOk(batches) &&
            Run(resultId, client, batches).page != Evaluate(client.sub.query, Run(resultId, client, batches).store)
    ensures !AlwaysFresh(resultId, client)
  {
    var batch := Batch(client.sub.schemaVersion, [event], false);
    assert [batch][..0] == [] && Run(resultId, client, []) == client;
    assert [event][..0] == [] && AfterAll(client.sub.query, client.store, []) == client.store;
    assert !Affected(batch.schemaVersion, client.sub, [event]);
    assert Run(resultId, client, [batch]) == Deliver(resultId, client, batch.schemaVersion, [event], false);
  }

  // ---------------------------------------------------------------- what a skip can leave stale

  /** After a skipped upsert the has-more flag is right exactly unless the last match beyond the limit went away. */
  lemma HasMoreAfterSkip(schemaVersion: nat, sub: Subscription, store: Store, event: Event)
    requires StoreOk(sub.query, store) && EventOk(event) && sub.impact == ImpactOf(sub.query)
    requires event.Upserted? && event.table == sub.query.table && !MatchesEvent(schemaVersion, sub, event)
    ensures var hadMatch := event.key in store && Matches(sub.query, store[event.key]);
            (HasMore(sub.query, After(sub.query, store, event)) <==> HasMore(sub.query, store))
              <==> !(hadMatch && |Matching(sub.query, store)| == sub.query.limit + 1)
  {
    var q, store' := sub.query, After(sub.query, store, event);
    if Matches(q, event.record) {
      MatchPassesFilter(q, event.record);
    }
    var before, after := Matching(q, store), Matching(q, store');
    if event.key in store && Matches(q, store[event.key]) {
      var gone := store[event.key];
      assert gone in before;
      forall r | r in before && r != gone
        ensures r in after
      {
        assert store'[r.key] == r;
      }
      assert after == before - {gone};
    } else {
      forall r | r in before
        ensures r in after
      {
        assert store'[r.key] == r;
      }
      assert after == before;
    }
  }

  /** With a last hidden match that is closed, the flag goes stale. */
  lemma HiddenMatchLeavesFlagStale()
    ensures exists sub: Subscription, store: Store, event: Event ::
              StoreOk(sub.query, store) && EventOk(event) && sub.impact == ImpactOf(sub.query) && OrderOk(sub.query) &&
              sub.lastKeys == KeySet(Evaluate(sub.query, store)) && !MatchesEvent(sub.schemaVersion, sub, event) &&
              HasMore(sub.query, store) && !HasMore(sub.query, After(sub.query, store, event))
  {
    var q := OpenTickets(1);
    var shown, hidden, closed := Ticket("t1", "open"), Ticket("t2", "open"), Ticket("t2", "closed");
    var store, event := map["t1" := shown, "t2" := hidden], Upserted("tickets", "t2", closed);
    var sub := Subscription(q, ImpactOf(q), 1, KeySet(Evaluate(q, store)), None);
    OpenTicketsAreOrdered(1);
    assert "t1" in store && "t2" in store && Matches(q, store["t1"]) && Matches(q, store["t2"]);
    assert Matching(q, store) == {shown, hidden};
    FirstTicketIsShown(store, shown, hidden);
    assert !MatchesEvent(1, sub, event);
    HasMoreAfterSkip(1, sub, store, event);
    assert event.key in store && Matches(q, store[event.key]);
  }

  /** A subscription can trust every skip exactly when its page is guarded. */
  lemma SkipsAreSafeIffGuarded(sub: Subscription, store: Store)
    requires StoreOk(sub.query, store) && sub.impact == ImpactOf(sub.query) && OrderOk(sub.query)
    ensures (forall event :: SkipIsSafe(sub, store, event)) <==> Guarded(sub, Evaluate(sub.query, store))
  {
    var page := Evaluate(sub.query, store);
    if Guarded(sub, page) {
      forall event
        ensures SkipIsSafe(sub, store, event)
      {
        GuardedSkipIsSafe(sub, store, event);
      }
    } else {
      var i :| 0 <= i < |page| && page[i].key !in sub.lastKeys && SomeRejected(sub, page[i].key);
      var event := MissedEvent(sub, store, i);
      assert !SkipIsSafe(sub, store, event);
    }
  }

  /** If the event is skipped, the page was and stays the fresh evaluation. */
  ghost predicate SkipIsSafe(sub: Subscription, store: Store, event: Event) {
    EventOk(event) && !MatchesEvent(sub.schemaVersion, sub, event) ==>
      Evaluate(sub.query, After(sub.query, store, event)) == Evaluate(sub.query, store)
  }

  lemma GuardedSkipIsSafe(sub: Subscription, store: Store, event: Event)
    requires StoreOk(sub.query, store) && sub.impact == ImpactOf(sub.query) && OrderOk(sub.query)
    requires Guarded(sub, Evaluate(sub.query, store))
    ensures SkipIsSafe(sub, store, event)
  {
    if EventOk(event) && !MatchesEvent(sub.schemaVersion, sub, event) {
      var page := Evaluate(sub.query, store);
      EvaluationIsPage(sub.query, store);
      SkipKeepsPage(sub.schemaVersion, sub, store, page, event);
      PageIsEvaluation(sub.query, After(sub.query, store, event), page);
    }
  }

  lemma EvaluationMatches(q: Query, store: Store)
    ensures forall r :: r in Evaluate(q, store) ==> r in Matching(q, store)
  {
    var listing := Listing(Matching(q, store));
    ListingLists(Matching(q, store));
    SortPermutes(q.atMost, listing);
    forall r | r in Evaluate(q, store)
      ensures r in Matching(q, store)
    {
      assert r in multiset(Sort(q.atMost, listing));
    }
  }

  lemma MissedEvent(sub: Subscription, store: Store, i: nat) returns (event: Event)
    requires StoreOk(sub.query, store) && sub.impact == ImpactOf(sub.query)
    requires i < |Evaluate(sub.query, store)| && Evaluate(sub.query, store)[i].key !in sub.lastKeys
    requires SomeRejected(sub, Evaluate(sub.query, store)[i].key)
    ensures !SkipIsSafe(sub, store, event)
  {
    var q, shown := sub.query, Evaluate(sub.query, store)[i];
    var record :| Rejected(sub, shown.key, record);
    event := Upserted(q.table, shown.key, record);
    if Matches(q, record) {
      MatchPassesFilter(q, record);
    }
    EvaluationMatches(q, After(q, store, event));
    EvaluationMatches(q, store);
    assert shown in Evaluate(q, store) && shown !in Matching(q, After(q, store, event));
  }

  // ---------------------------------------------------------------- an example: open tickets by key

  function Ticket(key: string, state: string): Record {
    Record("tickets", key, "p", state, 1, 1)
  }

  function OpenTickets(limit: nat): Query {
    Query("tickets", None, Some((r: Record) => r.value == "open"), None, (a: Record, b: Record) => AtMost(a.key, b.key),
          (r: Record) => true, limit)
  }

  lemma OpenTicketsAreOrdered(limit: nat)
    ensures OrderOk(OpenTickets(limit))
  {
    var q := OpenTickets(limit);
    forall a: Record, b: Record
      ensures q.atMost(a, b) || q.atMost(b, a)
      ensures q.atMost(a, b) && q.atMost(b, a) ==> a.key == b.key
    {
      AtMostTotal(a.key, b.key);
    }
    forall a: Record, b: Record, c: Record | q.atMost(a, b) && q.atMost(b, c)
      ensures q.atMost(a, c)
    {
      AtMostTransitive(a.key, b.key, c.key);
    }
  }

  lemma FirstTicketIsShown(store: Store, first: Record, second: Record)
    requires first.key == "t1" && second.key == "t2" && Matching(OpenTickets(1), store) == {first, second}
    requires StoreOk(OpenTickets(1), store)
    ensures Evaluate(OpenTickets(1), store) == [first]
  {
    var q := OpenTickets(1);
    OpenTicketsAreOrdered(1);
    assert Less("t1", "t2");
    forall r | r in Matching(q, store) && r !in [first]
      ensures q.atMost(first, r)
    {
      assert r == second;
    }
    PageIsEvaluation(q, store, [first]);
  }

  /** One open ticket on the page, the subscription resumed without a result, and the ticket is closed. */
  lemma ResumedSubscriptionGoesStale(resultId: ResultId)
    ensures exists q: Query, store: Store, batches: seq<Batch> ::
              OrderOk(q) && StoreOk(q, store) && BatchesOk(batches) &&
              var page := Evaluate(q, store);
              var client := Subscribe(resultId, q, 1, store, page, Some(resultId(page, HasMore(q, store))));
              var after := Run(resultId, client, batches);
              client.page == page && after.page != Evaluate(q, after.store)
  {
    var q, store, event := ClosedTicketIsMissed();
    var page := Evaluate(q, store);
    var client := Subscribe(resultId, q, 1, store, page, Some(resultId(page, HasMore(q, store))));
    assert client.sub == Subscription(q, ImpactOf(q), 1, {}, client.sub.lastResultId);
    MissedEventLeavesStale(resultId, client, event);
  }

  /** A shown ticket is closed, and a subscription that remembers no keys does not notice. */
  lemma ClosedTicketIsMissed() returns (q: Query, store: Store, event: Event)
    ensures OrderOk(q) && StoreOk(q, store)
    ensures forall id :: !SkipIsSafe(Subscription(q, ImpactOf(q), 1, {}, id), store, event)
  {
    q := OpenTickets(50);
    var open := Ticket("t1", "open");
    store, event := map["t1" := open], Upserted("tickets", "t1", Ticket("t1", "closed"));
    OpenTicketsAreOrdered(50);
    assert "t1" in store && Matches(q, store["t1"]);
    assert Matching(q, store) == {open};
    assert !Matches(q, After(q, store, event)["t1"]);
    assert Matching(q, After(q, store, event)) == {};
    OneMatch(q, store, open);
  }

  lemma OneMatch(q: Query, store: Store, record: Record)
    requires Matching(q, store) == {record} && q.limit > 0
    ensures record in Evaluate(q, store)
  {
    ListingLists({record});
    SortPermutes(q.atMost, Listing({record}));
    assert record in multiset(Sort(q.atMost, Listing({record})));
    assert |multiset(Sort(q.atMost, Listing({record})))| == 1;
  }
}
