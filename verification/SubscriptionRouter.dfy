/**
 Routing record events to table subscriptions: the naive filter that asks every
 subscription, the router that answers from prefixes and cached ranges, and the
 connection state that keeps the two in step.
 */
module SubscriptionRouter {
  import opened Lex
  import opened Options
  import opened RangeIndex
  import opened SortedKeys

  datatype TableSubscription = TableSubscription(table: string, lowerKey: Option<string>, upperKey: Option<string>,
                                                 indexName: Option<string>, indexValues: Option<string>)
  {
    predicate IsFullTable() { lowerKey.None? && upperKey.None? && indexName.None? }

    predicate HasIndexPrefix() { indexName.Some? }

    function Range(): KeyRange { KeyRange(lowerKey, upperKey) }

    predicate Matches(table: string, key: string) {
      this.table == table && !HasIndexPrefix() &&
      (lowerKey.Some? ==> AtMost(lowerKey.value, key)) && (upperKey.Some? ==> Less(key, upperKey.value))
    }
  }

  datatype NestedTableSubscription = NestedTableSubscription(table: string, parentKey: string, nested: string) {
    function LogicalTable(): string { table + "." + nested }

    function KeyPrefix(): string { parentKey + ":" }
  }

  /** `record_matches_table_filters`: ask every subscription. */
  predicate MatchesFilters(table: string, key: string, tableFilter: set<string>, ranges: set<TableSubscription>,
                           nested: set<NestedTableSubscription>)
  {
    table in tableFilter ||
    (exists s :: s in ranges && s.Matches(table, key)) ||
    (exists s :: s in nested && s.LogicalTable() == table && s.KeyPrefix() <= key)
  }

  // ---------------------------------------------------------------- what the router stores

  ghost function RangeImages(ranges: set<TableSubscription>, table: string): set<KeyRange> {
    set s | s in ranges && s.table == table && !s.HasIndexPrefix() :: s.Range()
  }

  ghost function PrefixImages(nested: set<NestedTableSubscription>, table: string): set<string> {
    set s | s in nested && s.LogicalTable() == table :: s.KeyPrefix()
  }

  /** Only the last stored prefix not after the key is looked at. */
  ghost predicate NearestPrefixFits(prefixes: set<string>, key: string) {
    exists p :: p in prefixes && AtMost(p, key) && p <= key &&
                forall q :: q in prefixes && AtMost(q, key) ==> AtMost(q, p)
  }

  ghost predicate SomePrefixFits(prefixes: set<string>, key: string) {
    exists p :: p in prefixes && p <= key
  }

  ghost predicate NoPrefixExtendsAnother(prefixes: set<string>) {
    forall p, q :: p in prefixes && q in prefixes && p <= q ==> p == q
  }

  lemma {:induction false} GreatestExists(keys: set<string>, key: string, some: string) returns (greatest: string)
    requires some in keys && AtMost(some, key)
    ensures greatest in keys && AtMost(greatest, key) && forall k :: k in keys && AtMost(k, key) ==> AtMost(k, greatest)
    decreases |keys|
  {
    var rest := keys - {some};
    if other :| other in rest && AtMost(other, key) {
      assert |rest| < |keys|;
      greatest := GreatestExists(rest, key, other);
      AtMostTotal(greatest, some);
      if AtMost(greatest, some) {
        forall k | k in keys && AtMost(k, key)
          ensures AtMost(k, some)
        {
          if k != some {
            AtMostTransitive(k, greatest, some);
          }
        }
        greatest := some;
      }
    } else {
      greatest := some;
    }
  }

  lemma NearestFitsWhenApart(prefixes: set<string>, key: string)
    requires NoPrefixExtendsAnother(prefixes)
    ensures NearestPrefixFits(prefixes, key) <==> SomePrefixFits(prefixes, key)
  {
    if p :| p in prefixes && p <= key {
      PrefixAtMost(p, key);
      var greatest := GreatestExists(prefixes, key, p);
      BetweenSharesPrefix(p, greatest, key);
    }
  }

  // ---------------------------------------------------------------- the names and keys there are

  predicate SafeChar(c: char) {
    'a' <= c <= 'z' || 'A' <= c <= 'Z' || '0' <= c <= '9' || c == '-' || c == '_' || c == ':' || c == '.'
  }

  /** The table names, parent keys and record keys the server accepts. */
  predicate SafeComponent(s: string) {
    s != [] && forall i :: 0 <= i < |s| ==> SafeChar(s[i])
  }

  /** ASCII letters and digits, hyphen, full stop, colon and underscore, and at least one of them. */
  lemma SafeCodePoints(s: string)
    ensures SafeComponent(s) <==>
            |s| > 0 && forall i :: 0 <= i < |s| ==>
              var n := s[i] as int;
              97 <= n <= 122 || 65 <= n <= 90 || 48 <= n <= 58 || n in {45, 46, 95}
  {
  }

  ghost predicate AllSafe(nested: set<NestedTableSubscription>) {
    forall s :: s in nested ==> SafeComponent(s.table) && SafeComponent(s.parentKey) && SafeComponent(s.nested)
  }

  /** A key a nested record can have: that of its parent, a colon and its own. */
  ghost predicate NestedRecordKey(key: string) {
    exists parent, child :: SafeComponent(parent) && SafeComponent(child) && key == parent + ":" + child
  }

  /** If `p` is a proper prefix of a stored `x:`, the key `xA` fits `p`, but the nearest stored prefix hides it. */
  lemma NestedPrefixHides(prefixes: set<string>, p: string, x: string)
    requires p in prefixes && x + ":" in prefixes && p <= x
    requires forall q :: q in prefixes ==> q != [] && q[|q| - 1] == ':'
    ensures SomePrefixFits(prefixes, x + "A") && !NearestPrefixFits(prefixes, x + "A")
  {
    var q, key := x + ":", x + "A";
    assert p <= key;
    LessAfterPrefix(x, ":", "A");
    if g :| g in prefixes && AtMost(g, key) && g <= key &&
            forall r :: r in prefixes && AtMost(r, key) ==> AtMost(r, g) {
      assert AtMost(q, g);
      if |g| <= |x| {
        PrefixAtMost(g, x);
        LessAfterPrefix(x, [], ":");
        assert x + [] == x;
        AtMostTransitive(q, g, x);
        AtMostTotal(x, q);
      }
    }
  }

  /** That key is one a record nested under the shorter parent can have. */
  lemma HiddenKeyIsNested(parent: string, x: string)
    requires SafeComponent(parent) && SafeComponent(x) && parent + ":" <= x
    ensures NestedRecordKey(x + "A")
  {
    var child := x[|parent| + 1..] + "A";
    assert SafeComponent(child) by {
      forall i | 0 <= i < |child|
        ensures SafeChar(child[i])
      {
        assert i < |child| - 1 ==> child[i] == x[|parent| + 1 + i];
      }
    }
    assert x + "A" == parent + ":" + child;
  }

  lemma ExtendedPrefixHidesRecord(nested: set<NestedTableSubscription>, table: string, stored: set<string>, p: string,
                                  q: string) returns (key: string)
    requires AllSafe(nested) && stored <= PrefixImages(nested, table)
    requires p in stored && q in stored && p <= q && p != q
    ensures NestedRecordKey(key) && SomePrefixFits(stored, key) && !NearestPrefixFits(stored, key)
  {
    var s :| s in nested && s.LogicalTable() == table && s.KeyPrefix() == q;
    var t :| t in nested && t.LogicalTable() == table && t.KeyPrefix() == p;
    assert p <= s.parentKey;
    key := s.parentKey + "A";
    NestedPrefixHides(stored, p, s.parentKey);
    HiddenKeyIsNested(t.parentKey, s.parentKey);
  }

  /** It happens: with parents `a` and `a:b`, records of `a` are missed. */
  lemma NestedParentsHideRecord()
    ensures exists nested, table, key ::
              AllSafe(nested) && NestedRecordKey(key) && SomePrefixFits(PrefixImages(nested, table), key) &&
              !NearestPrefixFits(PrefixImages(nested, table), key)
  {
    var a, b := NestedTableSubscription("t", "a", "n"), NestedTableSubscription("t", "a:b", "n");
    var nested, table := {a, b}, a.LogicalTable();
    assert AllSafe(nested);
    assert a in nested && b in nested && b.LogicalTable() == table;
    assert a.KeyPrefix() == ['a', ':'] && b.KeyPrefix() == ['a', ':', 'b', ':'];
    var key := ExtendedPrefixHidesRecord(nested, table, PrefixImages(nested, table), a.KeyPrefix(), b.KeyPrefix());
  }

  /** Every prefix asked for has a stored one it extends or equals. */
  ghost predicate Covers(stored: set<string>, images: set<string>) {
    forall p :: p in images ==> SomePrefixFits(stored, p)
  }

  lemma CoveredFitsAlike(stored: set<string>, images: set<string>, key: string)
    requires stored <= images && Covers(stored, images)
    ensures SomePrefixFits(stored, key) <==> SomePrefixFits(images, key)
  {
    if p :| p in images && p <= key {
      assert SomePrefixFits(stored, p);
      var q :| q in stored && q <= p;
      assert q <= key;
    }
  }

  /** A prefix that nothing stored covers misses its records. */
  lemma UncoveredPrefixIsMissed(nested: set<NestedTableSubscription>, table: string, stored: set<string>, p: string)
    requires AllSafe(nested) && stored <= PrefixImages(nested, table)
    requires p in PrefixImages(nested, table) && !SomePrefixFits(stored, p)
    ensures NestedRecordKey(p + "A") && SomePrefixFits(PrefixImages(nested, table), p + "A")
    ensures !NearestPrefixFits(stored, p + "A")
  {
    var t :| t in nested && t.LogicalTable() == table && t.KeyPrefix() == p;
    assert SafeComponent("A") && p + "A" == t.parentKey + ":" + "A";
    assert p <= p + "A";
    forall q | q in stored && q <= p + "A"
      ensures q <= p
    {
      ColonPrefixIsShorter(nested, table, q, p);
    }
  }

  lemma ColonPrefixIsShorter(nested: set<NestedTableSubscription>, table: string, q: string, p: string)
    requires q in PrefixImages(nested, table) && q <= p + "A"
    ensures q <= p
  {
    var u :| u in nested && u.LogicalTable() == table && u.KeyPrefix() == q;
    assert q[|q| - 1] == ':';
  }

  /**
   For every key of a nested record, looking at the nearest of the stored prefixes answers what the subscriptions ask
   precisely when no stored prefix extends another and every prefix asked for is covered.
   */
  lemma StoredLookupExactIff(nested: set<NestedTableSubscription>, table: string, stored: set<string>)
    requires AllSafe(nested) && stored <= PrefixImages(nested, table)
    ensures var images := PrefixImages(nested, table);
            (forall key {:trigger NestedRecordKey(key)} :: NestedRecordKey(key) ==>
               (NearestPrefixFits(stored, key) <==> SomePrefixFits(images, key)))
              <==> NoPrefixExtendsAnother(stored) && Covers(stored, images)
  {
    var images := PrefixImages(nested, table);
    if !Covers(stored, images) {
      var p :| p in images && !SomePrefixFits(stored, p);
      UncoveredPrefixIsMissed(nested, table, stored, p);
    } else {
      forall key
        ensures SomePrefixFits(stored, key) <==> SomePrefixFits(images, key)
      {
        CoveredFitsAlike(stored, images, key);
      }
      ApartLookupExactIff(nested, table, stored);
    }
  }

  lemma ApartLookupExactIff(nested: set<NestedTableSubscription>, table: string, stored: set<string>)
    requires AllSafe(nested) && stored <= PrefixImages(nested, table)
    ensures (forall key {:trigger NestedRecordKey(key)} :: NestedRecordKey(key) ==>
               (NearestPrefixFits(stored, key) <==> SomePrefixFits(stored, key)))
              <==> NoPrefixExtendsAnother(stored)
  {
    if NoPrefixExtendsAnother(stored) {
      forall key
        ensures NearestPrefixFits(stored, key) <==> SomePrefixFits(stored, key)
      {
        NearestFitsWhenApart(stored, key);
      }
    } else {
      var p, q :| p in stored && q in stored && p <= q && p != q;
      var key := ExtendedPrefixHidesRecord(nested, table, stored, p, q);
    }
  }

  /** With all prefixes stored, precisely when no stored prefix extends another. */
  lemma PrefixLookupExactIffApart(nested: set<NestedTableSubscription>, table: string)
    requires AllSafe(nested)
    ensures var prefixes := PrefixImages(nested, table);
            (forall key {:trigger NestedRecordKey(key)} :: NestedRecordKey(key) ==>
               (NearestPrefixFits(prefixes, key) <==> SomePrefixFits(prefixes, key)))
              <==> NoPrefixExtendsAnother(prefixes)
  {
    ApartLookupExactIff(nested, table, PrefixImages(nested, table));
  }

  /** Parent keys without a colon never get in each other's way. */
  lemma PlainParentsStayApart(nested: set<NestedTableSubscription>, table: string)
    requires forall s :: s in nested && s.LogicalTable() == table ==> ':' !in s.parentKey
    ensures NoPrefixExtendsAnother(PrefixImages(nested, table))
  {
    forall p, q | p in PrefixImages(nested, table) && q in PrefixImages(nested, table) && p <= q
      ensures p == q
    {
      var t :| t in nested && t.LogicalTable() == table && t.KeyPrefix() == q;
      assert p[|p| - 1] == ':';
    }
  }

  /** The naive filter in terms of what the router stores. */
  lemma FiltersAreImages(table: string, key: string, tableFilter: set<string>, ranges: set<TableSubscription>,
                         nested: set<NestedTableSubscription>)
    ensures MatchesFilters(table, key, tableFilter, ranges, nested)
        <==> table in tableFilter || (exists r :: r in RangeImages(ranges, table) && r.Contains(key)) ||
             SomePrefixFits(PrefixImages(nested, table), key)
  {
    if s :| s in ranges && s.Matches(table, key) {
      assert s.Range() in RangeImages(ranges, table) && s.Range().Contains(key);
    }
    if r :| r in RangeImages(ranges, table) && r.Contains(key) {
      var s :| s in ranges && s.table == table && !s.HasIndexPrefix() && s.Range() == r;
      assert s.Matches(table, key);
    }
    if s :| s in nested && s.LogicalTable() == table && s.KeyPrefix() <= key {
      assert s.KeyPrefix() in PrefixImages(nested, table);
    }
    if p :| p in PrefixImages(nested, table) && p <= key {
      var s :| s in nested && s.LogicalTable() == table && s.KeyPrefix() == p;
    }
  }

  // ---------------------------------------------------------------- adding and removing a subscription in the images

  lemma RangeImagesAdd(ranges: set<TableSubscription>, s: TableSubscription, table: string)
    ensures RangeImages(ranges + {s}, table)
         == RangeImages(ranges, table) + if table == s.table && !s.HasIndexPrefix() then {s.Range()} else {}
  {
    assert s in ranges + {s};
  }

  lemma PrefixImagesAdd(nested: set<NestedTableSubscription>, s: NestedTableSubscription, table: string)
    ensures PrefixImages(nested + {s}, table)
         == PrefixImages(nested, table) + if table == s.LogicalTable() then {s.KeyPrefix()} else {}
  {
    assert s in nested + {s};
  }

  lemma RangeImagesElsewhere(ranges: set<TableSubscription>, s: TableSubscription, table: string)
    requires table != s.table || s.HasIndexPrefix() || s !in ranges
    ensures RangeImages(ranges - {s}, table) == RangeImages(ranges, table)
  {
    assert forall o :: o in ranges && o.table == table && !o.HasIndexPrefix() ==> o in ranges - {s};
  }

  lemma PrefixImagesElsewhere(nested: set<NestedTableSubscription>, s: NestedTableSubscription, table: string)
    requires table != s.LogicalTable() || s !in nested
    ensures PrefixImages(nested - {s}, table) == PrefixImages(nested, table)
  {
    assert forall o :: o in nested && o.LogicalTable() == table ==> o in nested - {s};
  }

  ghost predicate SameRangeImage(a: TableSubscription, b: TableSubscription) {
    a.table == b.table && !a.HasIndexPrefix() && !b.HasIndexPrefix() && a.Range() == b.Range()
  }

  ghost predicate SamePrefixImage(a: NestedTableSubscription, b: NestedTableSubscription) {
    a.LogicalTable() == b.LogicalTable() && a.KeyPrefix() == b.KeyPrefix()
  }

  /** Dropping a stored range with its subscription is right exactly when no other subscription asks for that range. */
  lemma RangeRemovalExactIffAlone(ranges: set<TableSubscription>, s: TableSubscription)
    requires s in ranges && !s.HasIndexPrefix()
    ensures RangeImages(ranges - {s}, s.table) == RangeImages(ranges, s.table) - {s.Range()}
        <==> forall o :: o in ranges && o != s ==> !SameRangeImage(o, s)
  {
    if o :| o in ranges && o != s && SameRangeImage(o, s) {
      assert o in ranges - {s} && o.Range() in RangeImages(ranges - {s}, s.table);
    }
  }

  /** The same for nested subscriptions and their key prefixes. */
  lemma PrefixRemovalExactIffAlone(nested: set<NestedTableSubscription>, s: NestedTableSubscription)
    requires s in nested
    ensures PrefixImages(nested - {s}, s.LogicalTable()) == PrefixImages(nested, s.LogicalTable()) - {s.KeyPrefix()}
        <==> forall o :: o in nested && o != s ==> !SamePrefixImage(o, s)
  {
    if o :| o in nested && o != s && SamePrefixImage(o, s) {
      assert o in nested - {s} && o.KeyPrefix() in PrefixImages(nested - {s}, s.LogicalTable());
    }
  }

  /** Subscriptions as the frame handler admits them: no index values without an index name. */
  predicate WellFormed(s: TableSubscription) {
    s.indexName.None? ==> s.indexValues.None?
  }

  /** Parent tables without a dot in their names never share an image. */
  lemma PlainTablesApart(a: NestedTableSubscription, b: NestedTableSubscription)
    requires '.' !in a.table && '.' !in b.table && SamePrefixImage(a, b)
    ensures a == b
  {
    var x, y := a.LogicalTable(), b.LogicalTable();
    assert x[|a.table|] == '.' && y[|b.table|] == '.';
    assert a.table == x[..|a.table|] && b.table == y[..|b.table|];
    assert a.nested == x[|a.table| + 1..] && b.nested == y[|b.table| + 1..];
    assert a.parentKey == a.KeyPrefix()[..|a.parentKey|] && b.parentKey == b.KeyPrefix()[..|b.parentKey|];
  }

  lemma SharedImage(a: NestedTableSubscription, b: NestedTableSubscription)
    requires a == NestedTableSubscription("a.b", "k", "c") && b == NestedTableSubscription("a", "k", "b.c")
    ensures AllSafe({a, b}) && a != b && SamePrefixImage(a, b)
  {
    assert a.LogicalTable() == ['a', '.', 'b', '.', 'c'] == b.LogicalTable();
    assert a.table != b.table by {
      assert |a.table| == 3;
    }
  }

  /** Two accepted subscriptions can share one: `a.b` with `c`, and `a` with `b.c`. */
  lemma DottedTablesShareImage()
    ensures exists a: NestedTableSubscription, b: NestedTableSubscription ::
              AllSafe({a, b}) && a != b && SamePrefixImage(a, b)
  {
    SharedImage(NestedTableSubscription("a.b", "k", "c"), NestedTableSubscription("a", "k", "b.c"));
  }

  lemma OnlyOneWithRange(ranges: set<TableSubscription>, s: TableSubscription)
    requires s in ranges && !s.HasIndexPrefix() && forall o :: o in ranges ==> WellFormed(o)
    ensures RangeImages(ranges - {s}, s.table) == RangeImages(ranges, s.table) - {s.Range()}
  {
    RangeRemovalExactIffAlone(ranges, s);
  }

  // --------------------------------------------------------------- subscriptions and stored prefixes, change by change

  type Prefixes = map<string, set<string>>

  function PrefixesAt(prefixes: Prefixes, table: string): set<string> {
    if table in prefixes then prefixes[table] else {}
  }

  function WithPrefix(prefixes: Prefixes, table: string, prefix: string): (r: Prefixes)
    ensures forall t ::
              PrefixesAt(r, t) == if t == table then PrefixesAt(prefixes, t) + {prefix} else PrefixesAt(prefixes, t)
  {
    prefixes[table := PrefixesAt(prefixes, table) + {prefix}]
  }

  function WithoutPrefix(prefixes: Prefixes, table: string, prefix: string): (r: Prefixes)
    ensures forall t ::
              PrefixesAt(r, t) == if t == table then PrefixesAt(prefixes, t) - {prefix} else PrefixesAt(prefixes, t)
  {
    var left := PrefixesAt(prefixes, table) - {prefix};
    if table !in prefixes then prefixes else if left == {} then prefixes - {table} else prefixes[table := left]
  }

  /** What a connection is subscribed to, and the prefixes its router stores. */
  datatype Subscriptions = Subscriptions(tables: set<string>, ranges: set<TableSubscription>,
                                         nested: set<NestedTableSubscription>, prefixes: Prefixes)

  datatype Change = AddTable(ofTable: TableSubscription) | RemoveTable(ofTable: TableSubscription)
                  | AddNested(ofNested: NestedTableSubscription) | RemoveNested(ofNested: NestedTableSubscription)

  function Changed(state: Subscriptions, change: Change): Subscriptions {
    match change
    case AddTable(s) =>
      if s.IsFullTable() then state.(tables := state.tables + {s.table}) else state.(ranges := state.ranges + {s})
    case RemoveTable(s) =>
      if s.IsFullTable() then state.(tables := state.tables - {s.table}) else state.(ranges := state.ranges - {s})
    case AddNested(s) =>
      if s in state.nested then state
      else state.(nested := state.nested + {s}, prefixes := WithPrefix(state.prefixes, s.LogicalTable(), s.KeyPrefix()))
    case RemoveNested(s) =>
      if s !in state.nested then state
      else state.(nested := state.nested - {s},
                  prefixes := WithoutPrefix(state.prefixes, s.LogicalTable(), s.KeyPrefix()))
  }

  function AfterChanges(changes: seq<Change>): Subscriptions {
    if changes == [] then Subscriptions({}, {}, {}, map[])
    else Changed(AfterChanges(changes[..|changes| - 1]), changes[|changes| - 1])
  }

  // --------------------------------------------------------------- what is asked for, change by change

  ghost predicate FilterMatches(state: Subscriptions, table: string, key: string) {
    MatchesFilters(table, key, state.tables, state.ranges, state.nested)
  }

  /** A subscription kept among the ranges has a bound or an index prefix. */
  ghost predicate ProperRanges(ranges: set<TableSubscription>) {
    forall s :: s in ranges ==> WellFormed(s) && (s.lowerKey.Some? || s.upperKey.Some? || s.indexName.Some?)
  }

  /** The table subscriptions of a connection: those with a bound or an index prefix, and those to whole tables. */
  ghost function AskedFor(state: Subscriptions): set<TableSubscription> {
    state.ranges + set t | t in state.tables :: TableSubscription(t, None, None, None, None)
  }

  ghost predicate NestedMatches(nested: set<NestedTableSubscription>, table: string, key: string) {
    exists s :: s in nested && s.LogicalTable() == table && s.KeyPrefix() <= key
  }

  ghost predicate SomeMatches(asked: set<TableSubscription>, table: string, key: string) {
    exists s :: s in asked && s.Matches(table, key)
  }

  lemma FilterAsksEverySubscription(state: Subscriptions, table: string, key: string)
    ensures FilterMatches(state, table, key) <==>
            SomeMatches(AskedFor(state), table, key) || NestedMatches(state.nested, table, key)
  {
    if table in state.tables {
      var whole := TableSubscription(table, None, None, None, None);
      assert whole in AskedFor(state) && whole.Matches(table, key);
    }
    if s :| s in state.ranges && s.Matches(table, key) {
      assert s in AskedFor(state);
    }
  }

  /** Once a subscription is added, exactly the records it matches pass besides those that did before. */
  lemma AddedSubscriptionMatches(state: Subscriptions, s: TableSubscription, table: string, key: string)
    ensures FilterMatches(Changed(state, AddTable(s)), table, key) <==>
            FilterMatches(state, table, key) || s.Matches(table, key)
  {
    var after := Changed(state, AddTable(s));
    if r :| r in state.ranges && r.Matches(table, key) {
      assert r in after.ranges;
    }
    if s.Matches(table, key) && table !in after.tables {
      assert s in after.ranges;
    }
  }

  /** One by an index prefix can always be stored, and asks for no record by its key. */
  lemma IndexPrefixMatchesNoKey(s: TableSubscription, table: string, key: string)
    requires s.indexName.Some?
    ensures ProperRanges({s}) && !s.Matches(table, key)
  {
  }

  lemma TableChangeAsksFor(state: Subscriptions, s: TableSubscription)
    requires ProperRanges(state.ranges) && WellFormed(s)
    ensures AskedFor(Changed(state, AddTable(s))) == AskedFor(state) + {s}
    ensures AskedFor(Changed(state, RemoveTable(s))) == AskedFor(state) - {s}
    ensures ProperRanges(Changed(state, AddTable(s)).ranges) && ProperRanges(Changed(state, RemoveTable(s)).ranges)
  {
    forall t
      ensures TableSubscription(t, None, None, None, None) == s <==> s.IsFullTable() && t == s.table
    {
    }
    assert s.IsFullTable() ==> s == TableSubscription(s.table, None, None, None, None);
  }

  /** Once one is removed, exactly the records pass that another subscription matches. */
  lemma RemovedSubscriptionMatches(state: Subscriptions, s: TableSubscription, table: string, key: string)
    requires ProperRanges(state.ranges) && WellFormed(s)
    ensures FilterMatches(Changed(state, RemoveTable(s)), table, key) <==>
            SomeMatches(AskedFor(state) - {s}, table, key) || NestedMatches(state.nested, table, key)
  {
    TableChangeAsksFor(state, s);
    FilterAsksEverySubscription(Changed(state, RemoveTable(s)), table, key);
  }

  /** The table subscriptions named are such as the frame handler admits. */
  ghost predicate Admitted(changes: seq<Change>) {
    forall i :: 0 <= i < |changes| && (changes[i].AddTable? || changes[i].RemoveTable?) ==>
      WellFormed(changes[i].ofTable)
  }

  /** `add` occurs in the run, and no `remove` after it. */
  ghost predicate AddedAndKept(changes: seq<Change>, add: Change, remove: Change, i: int) {
    0 <= i < |changes| && changes[i] == add && forall j :: i < j < |changes| ==> changes[j] != remove
  }

  ghost predicate Subscribed(changes: seq<Change>, add: Change, remove: Change) {
    exists i :: AddedAndKept(changes, add, remove, i)
  }

  lemma SubscribedOneMore(changes: seq<Change>, last: Change, add: Change, remove: Change)
    requires add != remove
    ensures Subscribed(changes + [last], add, remove) <==>
            last == add || (Subscribed(changes, add, remove) && last != remove)
  {
    var all := changes + [last];
    if i :| AddedAndKept(changes, add, remove, i) && last != remove {
      assert AddedAndKept(all, add, remove, i);
    }
    if last == add {
      assert AddedAndKept(all, add, remove, |changes|);
    }
    if i :| AddedAndKept(all, add, remove, i) && last != add {
      assert all[|changes|] == last && forall j :: i < j < |changes| ==> all[j] == changes[j];
      assert AddedAndKept(changes, add, remove, i);
    }
  }

  /** After any run a connection asks for the subscriptions added and not removed since, and for no others. */
  lemma {:induction false} RunAsksForSubscribed(changes: seq<Change>, s: TableSubscription, n: NestedTableSubscription)
    requires Admitted(changes)
    ensures s in AskedFor(AfterChanges(changes)) <==> Subscribed(changes, AddTable(s), RemoveTable(s))
    ensures n in AfterChanges(changes).nested <==> Subscribed(changes, AddNested(n), RemoveNested(n))
    ensures ProperRanges(AfterChanges(changes).ranges)
  {
    if changes != [] {
      var before, last := changes[..|changes| - 1], changes[|changes| - 1];
      assert changes == before + [last];
      RunAsksForSubscribed(before, s, n);
      SubscribedOneMore(before, last, AddTable(s), RemoveTable(s));
      SubscribedOneMore(before, last, AddNested(n), RemoveNested(n));
      if last.AddTable? || last.RemoveTable? {
        TableChangeAsksFor(AfterChanges(before), last.ofTable);
      }
    }
  }

  /** So a record passes exactly when a subscription added and not removed since matches it. */
  lemma RunMatchesSubscribed(changes: seq<Change>, table: string, key: string)
    requires Admitted(changes)
    ensures FilterMatches(AfterChanges(changes), table, key) <==>
            (exists s: TableSubscription ::
               Subscribed(changes, AddTable(s), RemoveTable(s)) && s.Matches(table, key)) ||
            (exists n: NestedTableSubscription ::
               Subscribed(changes, AddNested(n), RemoveNested(n)) && n.table + "." + n.nested == table &&
               n.parentKey + ":" <= key)
  {
    var state := AfterChanges(changes);
    FilterAsksEverySubscription(state, table, key);
    var none := NestedTableSubscription("", "", "");
    forall s
      ensures s in AskedFor(state) <==> Subscribed(changes, AddTable(s), RemoveTable(s))
    {
      RunAsksForSubscribed(changes, s, none);
    }
    forall n
      ensures n in state.nested <==> Subscribed(changes, AddNested(n), RemoveNested(n))
    {
      RunAsksForSubscribed(changes, TableSubscription("", None, None, None, None), n);
    }
  }

  /** No prefix is stored that no subscription asks for. */
  ghost predicate NothingExtra(state: Subscriptions) {
    forall t :: PrefixesAt(state.prefixes, t) <= PrefixImages(state.nested, t)
  }

  /** The prefixes stored are those the subscriptions ask for. */
  ghost predicate InStep(state: Subscriptions) {
    forall t :: PrefixesAt(state.prefixes, t) == PrefixImages(state.nested, t)
  }

  /** The change removes a subscription while another one has its image. */
  ghost predicate Severs(state: Subscriptions, change: Change) {
    change.RemoveNested? && change.ofNested in state.nested &&
    exists o :: o in state.nested && o != change.ofNested && SamePrefixImage(o, change.ofNested)
  }

  lemma ChangeKeepsNothingExtra(state: Subscriptions, change: Change)
    requires NothingExtra(state)
    ensures NothingExtra(Changed(state, change))
  {
    forall t
      ensures PrefixesAt(Changed(state, change).prefixes, t) <= PrefixImages(Changed(state, change).nested, t)
    {
      assert PrefixesAt(state.prefixes, t) <= PrefixImages(state.nested, t);
      match change
      case AddNested(s) => PrefixImagesAdd(state.nested, s, t);
      case RemoveNested(s) => PrefixImagesLeft(state.nested, s, t);
      case _ =>
    }
  }

  /** Of the other images none goes. */
  lemma PrefixImagesLeft(nested: set<NestedTableSubscription>, s: NestedTableSubscription, table: string)
    ensures PrefixImages(nested, table) - (if table == s.LogicalTable() then {s.KeyPrefix()} else {})
         <= PrefixImages(nested - {s}, table)
  {
    forall p | p in PrefixImages(nested, table) && !(table == s.LogicalTable() && p == s.KeyPrefix())
      ensures p in PrefixImages(nested - {s}, table)
    {
      var o :| o in nested && o.LogicalTable() == table && o.KeyPrefix() == p;
      assert o in nested - {s};
    }
  }

  /** A change keeps the two in step exactly unless it severs them. */
  lemma ChangeKeepsInStepIff(state: Subscriptions, change: Change)
    requires InStep(state)
    ensures InStep(Changed(state, change)) <==> !Severs(state, change)
  {
    var after := Changed(state, change);
    if change.RemoveNested? && change.ofNested in state.nested {
      var s := change.ofNested;
      PrefixRemovalExactIffAlone(state.nested, s);
      assert PrefixesAt(after.prefixes, s.LogicalTable()) ==
             PrefixImages(state.nested, s.LogicalTable()) - {s.KeyPrefix()};
      forall t | t != s.LogicalTable()
        ensures PrefixesAt(after.prefixes, t) == PrefixImages(after.nested, t)
      {
        PrefixImagesElsewhere(state.nested, s, t);
      }
    } else if change.AddNested? {
      forall t
        ensures PrefixesAt(after.prefixes, t) == PrefixImages(after.nested, t)
      {
        PrefixImagesAdd(state.nested, change.ofNested, t);
        assert change.ofNested in state.nested ==> state.nested + {change.ofNested} == state.nested;
      }
    }
  }

  /** Over every run of changes nothing is stored that is not asked for. */
  lemma {:induction false} RunStoresNothingExtra(changes: seq<Change>)
    ensures NothingExtra(AfterChanges(changes))
  {
    if changes != [] {
      RunStoresNothingExtra(changes[..|changes| - 1]);
      ChangeKeepsNothingExtra(AfterChanges(changes[..|changes| - 1]), changes[|changes| - 1]);
    }
  }

  ghost predicate SeversAt(changes: seq<Change>, i: nat)
    requires i < |changes|
  {
    Severs(AfterChanges(changes[..i]), changes[i])
  }

  lemma OneMoreChange(changes: seq<Change>, i: nat)
    requires i < |changes|
    ensures AfterChanges(changes[..i + 1]) == Changed(AfterChanges(changes[..i]), changes[i])
  {
    assert changes[..i + 1][..i] == changes[..i];
  }

  lemma {:induction false} InStepUpTo(changes: seq<Change>, n: nat)
    requires n <= |changes| && forall i :: 0 <= i < n ==> !SeversAt(changes, i)
    ensures InStep(AfterChanges(changes[..n]))
  {
    if n > 0 {
      InStepUpTo(changes, n - 1);
      OneMoreChange(changes, n - 1);
      assert !SeversAt(changes, n - 1);
      ChangeKeepsInStepIff(AfterChanges(changes[..n - 1]), changes[n - 1]);
    }
  }

  /** A run stays in step throughout exactly when each subscription removed was alone in its image at the time. */
  lemma RunStaysInStepIffNothingSevered(changes: seq<Change>)
    ensures (forall n :: 0 <= n <= |changes| ==> InStep(AfterChanges(changes[..n])))
       <==> forall i :: 0 <= i < |changes| ==> !SeversAt(changes, i)
  {
    if forall i :: 0 <= i < |changes| ==> !SeversAt(changes, i) {
      forall n | 0 <= n <= |changes|
        ensures InStep(AfterChanges(changes[..n]))
      {
        InStepUpTo(changes, n);
      }
    }
    if forall n :: 0 <= n <= |changes| ==> InStep(AfterChanges(changes[..n])) {
      forall i | 0 <= i < |changes|
        ensures !SeversAt(changes, i)
      {
        assert InStep(AfterChanges(changes[..i])) && InStep(AfterChanges(changes[..i + 1]));
        OneMoreChange(changes, i);
        ChangeKeepsInStepIff(AfterChanges(changes[..i]), changes[i]);
      }
    }
  }

  /** A new subscription stores the prefix. */
  ghost predicate StoresAt(changes: seq<Change>, i: int, table: string, prefix: string) {
    0 <= i < |changes| && changes[i].AddNested? && changes[i].ofNested !in AfterChanges(changes[..i]).nested &&
    changes[i].ofNested.LogicalTable() == table && changes[i].ofNested.KeyPrefix() == prefix
  }

  /** A subscription that goes takes the prefix away. */
  ghost predicate DropsAt(changes: seq<Change>, i: int, table: string, prefix: string) {
    0 <= i < |changes| && changes[i].RemoveNested? && changes[i].ofNested in AfterChanges(changes[..i]).nested &&
    changes[i].ofNested.LogicalTable() == table && changes[i].ofNested.KeyPrefix() == prefix
  }

  ghost predicate StoredSince(changes: seq<Change>, i: int, table: string, prefix: string) {
    StoresAt(changes, i, table, prefix) && forall j :: i < j ==> !DropsAt(changes, j, table, prefix)
  }

  lemma EarlierChange(changes: seq<Change>, n: nat, i: int, table: string, prefix: string)
    requires i < n <= |changes|
    ensures StoresAt(changes[..n], i, table, prefix) <==> StoresAt(changes, i, table, prefix)
    ensures DropsAt(changes[..n], i, table, prefix) <==> DropsAt(changes, i, table, prefix)
  {
    if 0 <= i {
      assert changes[..n][..i] == changes[..i];
    }
  }

  lemma EarlierStoredSince(changes: seq<Change>, i: int, table: string, prefix: string)
    requires changes != [] && i < |changes| - 1
    ensures var n := |changes| - 1;
            StoredSince(changes, i, table, prefix) <==>
              StoredSince(changes[..n], i, table, prefix) && !DropsAt(changes, n, table, prefix)
  {
    var n := |changes| - 1;
    EarlierChange(changes, n, i, table, prefix);
    forall j | i < j < n
      ensures DropsAt(changes[..n], j, table, prefix) <==> DropsAt(changes, j, table, prefix)
    {
      EarlierChange(changes, n, j, table, prefix);
    }
  }

  /** After any run the router stores a prefix exactly when a new subscription stored it and none took it away since. */
  lemma {:induction false} StoredIffAddedSince(changes: seq<Change>, table: string, prefix: string)
    ensures prefix in PrefixesAt(AfterChanges(changes).prefixes, table) <==>
              exists i :: StoredSince(changes, i, table, prefix)
  {
    if changes != [] {
      var n := |changes| - 1;
      var before, last := changes[..n], changes[n];
      StoredIffAddedSince(before, table, prefix);
      if i :| StoredSince(before, i, table, prefix) && !DropsAt(changes, n, table, prefix) {
        EarlierStoredSince(changes, i, table, prefix);
      }
      if StoresAt(changes, n, table, prefix) {
        assert StoredSince(changes, n, table, prefix);
      }
      if i :| StoredSince(changes, i, table, prefix) && i < n {
        EarlierStoredSince(changes, i, table, prefix);
      }
    }
  }

  ghost predicate NamesPlainTables(changes: seq<Change>) {
    forall i :: 0 <= i < |changes| && (changes[i].AddNested? || changes[i].RemoveNested?) ==>
      '.' !in changes[i].ofNested.table
  }

  lemma {:induction false} PlainTablesThroughout(changes: seq<Change>)
    requires NamesPlainTables(changes)
    ensures forall s :: s in AfterChanges(changes).nested ==> '.' !in s.table
  {
    if changes != [] {
      PlainTablesThroughout(changes[..|changes| - 1]);
    }
  }

  /** Runs over tables without a dot in their names stay in step. */
  lemma PlainTablesStayInStep(changes: seq<Change>)
    requires NamesPlainTables(changes)
    ensures InStep(AfterChanges(changes))
  {
    forall i | 0 <= i < |changes|
      ensures !SeversAt(changes, i)
    {
      var nested := AfterChanges(changes[..i]).nested;
      PlainTablesThroughout(changes[..i]);
      if changes[i].RemoveNested? && changes[i].ofNested in nested {
        forall o | o in nested && SamePrefixImage(o, changes[i].ofNested)
          ensures o == changes[i].ofNested
        {
          PlainTablesApart(o, changes[i].ofNested);
        }
      }
    }
    InStepUpTo(changes, |changes|);
    assert changes[..|changes|] == changes;
  }

  // ---------------------------------------------------------------- the router

  class RecordSubscriptionRouter {
    var keyPrefixesByTable: Prefixes
    var keyRangesByTable: map<string, TableKeyRangeIndex>

    ghost function Indexes(): set<object>
      reads this`keyRangesByTable
    {
      set t | t in keyRangesByTable :: keyRangesByTable[t]
    }

    ghost predicate Valid()
      reads this`keyRangesByTable, Indexes()
    {
      (forall t :: t in keyRangesByTable ==> keyRangesByTable[t].Valid()) &&
      (forall t, u :: t in keyRangesByTable && u in keyRangesByTable && t != u ==>
         keyRangesByTable[t] != keyRangesByTable[u])
    }

    ghost function RangesOf(table: string): set<KeyRange>
      reads this`keyRangesByTable, Indexes()
    {
      if table in keyRangesByTable then keyRangesByTable[table].Ranges() else {}
    }

    constructor ()
      ensures Valid() && Indexes() == {}
      ensures keyPrefixesByTable == map[] && forall t :: RangesOf(t) == {}
    {
      keyPrefixesByTable, keyRangesByTable := map[], map[];
    }

    method InsertPrefix(table: string, prefix: string)
      requires Valid()
      modifies this`keyPrefixesByTable
      ensures Valid() && keyPrefixesByTable == WithPrefix(old(keyPrefixesByTable), table, prefix)
    {
      var prefixes := if table in keyPrefixesByTable then keyPrefixesByTable[table] else {};
      keyPrefixesByTable := keyPrefixesByTable[table := prefixes + {prefix}];
    }

    method RemovePrefix(table: string, prefix: string)
      requires Valid()
      modifies this`keyPrefixesByTable
      ensures Valid() && keyPrefixesByTable == WithoutPrefix(old(keyPrefixesByTable), table, prefix)
    {
      if table !in keyPrefixesByTable {
        return;
      }
      var prefixes := keyPrefixesByTable[table] - {prefix};
      keyPrefixesByTable := if prefixes == {} then keyPrefixesByTable - {table}
                            else keyPrefixesByTable[table := prefixes];
    }

    method InsertKeyRange(table: string, range: KeyRange)
      requires Valid()
      modifies this`keyRangesByTable, Indexes()
      ensures Valid() && fresh(Indexes() - old(Indexes()))
      ensures forall t :: RangesOf(t) == if t == table then old(RangesOf(t)) + {range} else old(RangesOf(t))
    {
      if table !in keyRangesByTable {
        var index := new TableKeyRangeIndex();
        keyRangesByTable := keyRangesByTable[table := index];
      }
      var index := keyRangesByTable[table];
      assert index in Indexes();
      index.Insert(range);
    }

    method RemoveKeyRange(table: string, range: KeyRange)
      requires Valid()
      modifies this`keyRangesByTable, Indexes()
      ensures Valid() && Indexes() <= old(Indexes())
      ensures forall t :: RangesOf(t) == if t == table then old(RangesOf(t)) - {range} else old(RangesOf(t))
    {
      if table !in keyRangesByTable {
        return;
      }
      var index := keyRangesByTable[table];
      assert index in Indexes();
      index.Remove(range);
      var empty := index.IsEmpty();
      if empty {
        keyRangesByTable := keyRangesByTable - {table};
      }
    }

    method Matches(table: string, key: string) returns (hit: bool)
      requires Valid()
      ensures hit <==>
                NearestPrefixFits(PrefixesAt(keyPrefixesByTable, table), key) || exists r ::
                  r in RangesOf(table) && r.Contains(key)
    {
      hit := false;
      if table in keyPrefixesByTable {
        var nearest := GreatestAtMost(keyPrefixesByTable[table], key);
        hit := nearest.Some? && nearest.value <= key;
        NearestIsUnique(keyPrefixesByTable[table], nearest, key);
      }
      if !hit && table in keyRangesByTable {
        hit := keyRangesByTable[table].Matches(key);
      }
    }
  }

  lemma NearestIsUnique(prefixes: set<string>, nearest: Option<string>, key: string)
    requires nearest.None? ==> forall k :: k in prefixes ==> !AtMost(k, key)
    requires nearest.Some? ==> nearest.value in prefixes && AtMost(nearest.value, key) &&
                               forall k :: k in prefixes && AtMost(k, key) ==> AtMost(k, nearest.value)
    ensures NearestPrefixFits(prefixes, key) <==> nearest.Some? && nearest.value <= key
  {
    if p :| p in prefixes && AtMost(p, key) && p <= key &&
            forall q :: q in prefixes && AtMost(q, key) ==> AtMost(q, p) {
      AtMostTotal(p, nearest.value);
    }
  }

  // ---------------------------------------------------------------- the connection

  class ConnectionState {
    var subscribedTables: set<string>
    var subscribedTableRanges: set<TableSubscription>
    var subscribedNestedTables: set<NestedTableSubscription>
    const router: RecordSubscriptionRouter

    ghost function Repr(): set<object>
      reads this, router
    {
      {this, router} + router.Indexes()
    }

    /** The router stores the ranges of the subscriptions, table by table, and no prefix they do not ask for. */
    ghost predicate Valid()
      reads this, router, router.Indexes()
    {
      router.Valid() &&
      ProperRanges(subscribedTableRanges) &&
      (forall t :: router.RangesOf(t) == RangeImages(subscribedTableRanges, t)) &&
      NothingExtra(Current())
    }

    ghost function Current(): Subscriptions
      reads this, router
    {
      Subscriptions(subscribedTables, subscribedTableRanges, subscribedNestedTables, router.keyPrefixesByTable)
    }

    constructor ()
      ensures Valid() && fresh(Repr()) && Current() == AfterChanges([])
    {
      subscribedTables, subscribedTableRanges, subscribedNestedTables := {}, {}, {};
      router := new RecordSubscriptionRouter();
    }

    method AddTableSubscription(s: TableSubscription) returns (inserted: bool)
      requires Valid() && (s.indexName.None? ==> s.indexValues.None?)
      modifies Repr()
      ensures Valid() && fresh(Repr() - old(Repr())) && Current() == Changed(old(Current()), AddTable(s))
      ensures inserted <==> Current() != old(Current())
      ensures forall t, k :: FilterMatches(Current(), t, k) <==> FilterMatches(old(Current()), t, k) || s.Matches(t, k)
    {
      forall t, k
        ensures FilterMatches(Changed(Current(), AddTable(s)), t, k) <==>
                FilterMatches(Current(), t, k) || s.Matches(t, k)
      {
        AddedSubscriptionMatches(Current(), s, t, k);
      }
      if s.IsFullTable() {
        inserted := s.table !in subscribedTables;
        subscribedTables := subscribedTables + {s.table};
      } else {
        inserted := s !in subscribedTableRanges;
        if inserted {
          AddRange(s);
        }
      }
    }

    method AddRange(s: TableSubscription)
      requires Valid() && ProperRanges({s})
      modifies this`subscribedTableRanges, router`keyRangesByTable, router.Indexes()
      ensures Valid() && fresh(Repr() - old(Repr()))
      ensures subscribedTableRanges == old(subscribedTableRanges) + {s}
    {
      subscribedTableRanges := subscribedTableRanges + {s};
      if !s.HasIndexPrefix() {
        router.InsertKeyRange(s.table, s.Range());
      }
      forall t
        ensures router.RangesOf(t) == RangeImages(subscribedTableRanges, t)
      {
        RangeImagesAdd(old(subscribedTableRanges), s, t);
      }
    }

    method RemoveTableSubscription(s: TableSubscription) returns (removed: bool)
      requires Valid()
      modifies Repr()
      ensures Valid() && fresh(Repr() - old(Repr())) && Current() == Changed(old(Current()), RemoveTable(s))
      ensures removed <==> Current() != old(Current())
      ensures (s.indexName.None? ==> s.indexValues.None?) ==> forall t, k :: FilterMatches(Current(), t, k) <==>
                SomeMatches(AskedFor(old(Current())) - {s}, t, k) || NestedMatches(old(Current()).nested, t, k)
    {
      if WellFormed(s) {
        forall t, k
          ensures FilterMatches(Changed(Current(), RemoveTable(s)), t, k) <==>
                  SomeMatches(AskedFor(Current()) - {s}, t, k) || NestedMatches(Current().nested, t, k)
        {
          RemovedSubscriptionMatches(Current(), s, t, k);
        }
      }
      if s.IsFullTable() {
        removed := s.table in subscribedTables;
        subscribedTables := subscribedTables - {s.table};
      } else {
        removed := s in subscribedTableRanges;
        if removed {
          RemoveRange(s);
        }
      }
    }

    method RemoveRange(s: TableSubscription)
      requires Valid() && s in subscribedTableRanges
      modifies this`subscribedTableRanges, router`keyRangesByTable, router.Indexes()
      ensures Valid() && fresh(Repr() - old(Repr()))
      ensures subscribedTableRanges == old(subscribedTableRanges) - {s}
    {
      subscribedTableRanges := subscribedTableRanges - {s};
      if !s.HasIndexPrefix() {
        router.RemoveKeyRange(s.table, s.Range());
        OnlyOneWithRange(old(subscribedTableRanges), s);
      }
      forall t
        ensures router.RangesOf(t) == RangeImages(subscribedTableRanges, t)
      {
        if t != s.table || s.HasIndexPrefix() {
          RangeImagesElsewhere(old(subscribedTableRanges), s, t);
        }
      }
    }

    method AddNestedTableSubscription(s: NestedTableSubscription) returns (inserted: bool)
      requires Valid()
      modifies Repr()
      ensures Valid() && fresh(Repr() - old(Repr())) && Current() == Changed(old(Current()), AddNested(s))
      ensures inserted <==> Current() != old(Current())
    {
      ChangeKeepsNothingExtra(Current(), AddNested(s));
      inserted := s !in subscribedNestedTables;
      if inserted {
        subscribedNestedTables := subscribedNestedTables + {s};
        router.InsertPrefix(s.LogicalTable(), s.KeyPrefix());
      }
    }

    /** The router forgets the prefix, whoever else asks for it. */
    method RemoveNestedTableSubscription(s: NestedTableSubscription) returns (removed: bool)
      requires Valid()
      modifies Repr()
      ensures Valid() && fresh(Repr() - old(Repr())) && Current() == Changed(old(Current()), RemoveNested(s))
      ensures removed <==> Current() != old(Current())
      ensures old(InStep(Current())) ==> (InStep(Current()) <==> !Severs(old(Current()), RemoveNested(s)))
    {
      ChangeKeepsNothingExtra(Current(), RemoveNested(s));
      if InStep(Current()) {
        ChangeKeepsInStepIff(Current(), RemoveNested(s));
      }
      removed := s in subscribedNestedTables;
      if removed {
        subscribedNestedTables := subscribedNestedTables - {s};
        router.RemovePrefix(s.LogicalTable(), s.KeyPrefix());
      }
    }

    /**
     The router's answer is never more than the filter's, and the same when the prefixes stored are apart and cover the
     rest.
     */
    method MatchesRouter(table: string, key: string) returns (hit: bool)
      requires Valid()
      ensures hit <==>
                table in subscribedTables ||
                (exists r :: r in RangeImages(subscribedTableRanges, table) && r.Contains(key)) ||
                       NearestPrefixFits(PrefixesAt(Current().prefixes, table), key)
      ensures hit ==> MatchesFilters(table, key, subscribedTables, subscribedTableRanges, subscribedNestedTables)
      ensures var stored := PrefixesAt(Current().prefixes, table);
              NoPrefixExtendsAnother(stored) && Covers(stored, PrefixImages(subscribedNestedTables, table)) ==>
                hit == MatchesFilters(table, key, subscribedTables, subscribedTableRanges, subscribedNestedTables)
    {
      hit := table in subscribedTables;
      if !hit {
        hit := router.Matches(table, key);
      }
      FiltersAreImages(table, key, subscribedTables, subscribedTableRanges, subscribedNestedTables);
      ghost var stored := PrefixesAt(Current().prefixes, table);
      if NoPrefixExtendsAnother(stored) && Covers(stored, PrefixImages(subscribedNestedTables, table)) {
        NearestFitsWhenApart(stored, key);
        CoveredFitsAlike(stored, PrefixImages(subscribedNestedTables, table), key);
      }
    }
  }

  lemma SharedPrefixGoes(stays: NestedTableSubscription, goes: NestedTableSubscription, state: Subscriptions)
    requires stays != goes && SamePrefixImage(stays, goes) && state == AfterChanges([])
    ensures var after := Changed(Changed(Changed(state, AddNested(stays)), AddNested(goes)), RemoveNested(goes));
            after.nested == {stays} && after.tables == {} && after.ranges == {} &&
            PrefixesAt(after.prefixes, stays.LogicalTable()) == {}
  {
  }

  method SubscribeAndDrop(stays: NestedTableSubscription, goes: NestedTableSubscription)
    returns (connection: ConnectionState)
    ensures connection.Valid()
    ensures connection.Current() ==
            Changed(Changed(Changed(AfterChanges([]), AddNested(stays)), AddNested(goes)), RemoveNested(goes))
  {
    connection := new ConnectionState();
    var one := connection.AddNestedTableSubscription(stays);
    var two := connection.AddNestedTableSubscription(goes);
    var gone := connection.RemoveNestedTableSubscription(goes);
  }

  /** Of two subscriptions with one image one goes, and the records of the other are missed. */
  method SharedPrefixIsLost(stays: NestedTableSubscription, goes: NestedTableSubscription, child: string)
    returns (connection: ConnectionState, hit: bool)
    requires stays != goes && SamePrefixImage(stays, goes)
    ensures connection.Valid() && connection.subscribedNestedTables == {stays} && !hit
    ensures MatchesFilters(stays.LogicalTable(), stays.KeyPrefix() + child, connection.subscribedTables,
                           connection.subscribedTableRanges, connection.subscribedNestedTables)
  {
    connection := SubscribeAndDrop(stays, goes);
    SharedPrefixGoes(stays, goes, AfterChanges([]));
    hit := connection.MatchesRouter(stays.LogicalTable(), stays.KeyPrefix() + child);
    assert stays in connection.subscribedNestedTables && stays.KeyPrefix() <= stays.KeyPrefix() + child;
  }
}
