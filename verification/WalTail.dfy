/**
 Startup recovery of scope and table actors: the WAL records after the snapshot
 are collapsed to one change per path and applied in path order, and only tables
 that are already resident are touched.
 */
module WalTail {
  import opened Options
  import opened Records
  import opened ScopeDirectory

  datatype Mutation = UpsertDraft(record: Record) | DeleteDraft(table: string, key: string, path: string)

  datatype Payload = RecordUpserted(upserted: Record) | RecordDeleted(table: string, key: string, path: string)
                   | TransactionCommitted(operations: seq<Mutation>) | OtherFact

  datatype WalRecord = WalRecord(lsn: nat, payload: Payload)

  /** One change to a row, with the path it is filed under. */
  datatype Change = Upsert(row: Record) | Delete(deletedTable: string, deletedKey: string, deletedPath: string) {
    function Table(): string { if Upsert? then row.table else deletedTable }

    function Key(): string { if Upsert? then row.key else deletedKey }

    function Path(): string { if Upsert? then row.path else deletedPath }

    function Effect(): Option<Record> { if Upsert? then Some(row) else None }
  }

  function FromMutation(mutation: Mutation, lsn: nat): Change {
    match mutation
    case UpsertDraft(record) => Upsert(record.(lsn := lsn))
    case DeleteDraft(table, key, path) => Delete(table, key, path)
  }

  function FromMutations(operations: seq<Mutation>, lsn: nat): seq<Change> {
    seq(|operations|, i requires 0 <= i < |operations| => FromMutation(operations[i], lsn))
  }

  function FromRecord(record: WalRecord): seq<Change> {
    match record.payload
    case RecordUpserted(row) => [Upsert(row.(lsn := record.lsn))]
    case RecordDeleted(table, key, path) => [Delete(table, key, path)]
    case TransactionCommitted(operations) => FromMutations(operations, record.lsn)
    case OtherFact => []
  }

  /** Every row change of the log, in log order. */
  function LogChanges(log: seq<WalRecord>): seq<Change> {
    if log == [] then [] else LogChanges(log[..|log| - 1]) + FromRecord(log[|log| - 1])
  }

  /** The last change per path. */
  function Collapse(changes: seq<Change>): map<string, Change> {
    if changes == [] then map[]
    else var last := changes[|changes| - 1]; Collapse(changes[..|changes| - 1])[last.Path() := last]
  }

  lemma {:induction false} CollapseAppend(a: seq<Change>, b: seq<Change>)
    ensures Collapse(a + b) == Collapse(a) + Collapse(b)
  {
    if b == [] {
      assert a + b == a;
    } else {
      var last := b[|b| - 1];
      assert (a + b)[..|a + b| - 1] == a + b[..|b| - 1];
      CollapseAppend(a, b[..|b| - 1]);
    }
  }

  // ---------------------------------------------------------------- actors

  datatype Actors = Actors(tables: map<string, Directory>, scopes: Scopes)

  function TableOf(scope: ScopeKey): string {
    if scope.Base? then scope.table else TableOf(scope.parent)
  }

  function DirectoryOf(actors: Actors, table: string): Directory {
    if table in actors.tables then actors.tables[table] else map[]
  }

  /** Where a key lives: routed down the table's tree, or in its base scope when the table has no actor. */
  function Home(pl: Placement, actors: Actors, table: string, key: string): ScopeKey {
    if table in actors.tables then Route(pl, actors.tables[table], BaseOf(pl, table, key), key)
    else BaseOf(pl, table, key)
  }

  predicate Cold(pl: Placement, actors: Actors, table: string, key: string) {
    table !in actors.tables && Home(pl, actors, table, key) !in actors.scopes &&
    BaseOf(pl, table, key) !in actors.scopes
  }

  ghost function WriteScope(actors: Actors, table: string, scope: ScopeKey, rows: Rows, policy: SplitPolicy, now: nat)
    : Actors
  {
    Actors(actors.tables[table := DirectoryOf(actors, table)[scope := LeafEntry(|rows|, SumBytes(rows), policy, now)]],
           actors.scopes[scope := rows])
  }

  ghost function Apply(pl: Placement, actors: Actors, change: Change, policy: SplitPolicy, now: nat): Actors {
    var table, key := change.Table(), change.Key();
    var home := Home(pl, actors, table, key);
    if Cold(pl, actors, table, key) then actors
    else match change
         case Upsert(row) => WriteScope(actors, table, home, RowsAt(actors.scopes, home)[key := row], policy, now)
         case Delete(_, _, _) =>
           if key !in RowsAt(actors.scopes, home) then actors
           else WriteScope(actors, table, home, RowsAt(actors.scopes, home) - {key}, policy, now)
  }

  /** A change and the clock reading when it is applied. */
  datatype Step = Step(change: Change, at: nat)

  ghost function Replay(pl: Placement, actors: Actors, steps: seq<Step>, policy: SplitPolicy): Actors {
    if steps == [] then actors
    else
      var last := steps[|steps| - 1];
      Apply(pl, Replay(pl, actors, steps[..|steps| - 1], policy), last.change, policy, last.at)
  }

  function Changes(steps: seq<Step>): seq<Change> {
    seq(|steps|, i requires 0 <= i < |steps| => steps[i].change)
  }

  function Lookup(pl: Placement, actors: Actors, table: string, key: string): Option<Record> {
    var home := Home(pl, actors, table, key);
    if table in actors.tables && key in RowsAt(actors.scopes, home) then Some(RowsAt(actors.scopes, home)[key])
    else None
  }

  // ---------------------------------------------------------------- what a snapshot provides

  ghost predicate TableReady(actors: Actors, table: string)
    requires table in actors.tables
  {
    TreeOk(actors.tables[table], table) && Shallow(actors.tables[table])
  }

  ghost predicate RowReady(pl: Placement, actors: Actors, scope: ScopeKey, key: string) {
    key in RowsAt(actors.scopes, scope) ==> scope == Home(pl, actors, TableOf(scope), key)
  }

  /** Each scope has its table's actor, trees are within routing depth, and rows sit where they route. */
  ghost predicate Restorable(pl: Placement, actors: Actors) {
    (forall t {:trigger TableReady(actors, t)} :: t in actors.tables ==> TableReady(actors, t)) &&
    (forall s {:trigger TableOf(s)} :: s in actors.scopes ==> TableOf(s) in actors.tables) &&
    (forall s, k {:trigger RowReady(pl, actors, s, k)} :: RowReady(pl, actors, s, k))
  }

  lemma {:induction false} PathStaysInTable(pl: Placement, table: string, key: string, depth: nat)
    ensures TableOf(PathOf(pl, table, key, depth)) == table
  {
    if depth > 0 {
      PathStaysInTable(pl, table, key, depth - 1);
    }
  }

  lemma HomeIsTarget(pl: Placement, actors: Actors, table: string, key: string)
    requires Restorable(pl, actors)
    ensures var home := Home(pl, actors, table, key);
            TableOf(home) == table &&
            (table in actors.tables ==>
              Leaf(actors.tables[table], home) || (home !in actors.tables[table] && home == BaseOf(pl, table, key)))
  {
    if table in actors.tables {
      assert TableReady(actors, table);
      RouteLands(pl, actors.tables[table], table, key);
      PathStaysInTable(pl, table, key, Home(pl, actors, table, key).Depth());
    }
  }

  function ChildrenOf(dir: Directory, scope: ScopeKey): seq<ScopeKey> {
    if scope in dir then dir[scope].children else []
  }

  lemma {:induction false} RouteReadsOnlyChildren(pl: Placement, dir: Directory, dir': Directory, current: ScopeKey,
                                                  key: string, steps: nat)
    requires forall s :: ChildrenOf(dir, s) == ChildrenOf(dir', s)
    ensures RouteFrom(pl, dir, current, key, steps) == RouteFrom(pl, dir', current, key, steps)
    decreases steps
  {
    var children := ChildrenOf(dir, current);
    assert children == ChildrenOf(dir', current);
    if steps > 0 && children != [] {
      RouteReadsOnlyChildren(pl, dir, dir', children[ChildIndex(pl, current, key, |children|)], key, steps - 1);
    }
  }

  /** Rewriting the leaf a key lives in moves no key of any table. */
  lemma WriteKeepsHomes(pl: Placement, actors: Actors, table: string, key: string, rows: Rows, policy: SplitPolicy,
                        now: nat, t: string, k: string)
    requires Restorable(pl, actors) && table in actors.tables
    ensures Home(pl, WriteScope(actors, table, Home(pl, actors, table, key), rows, policy, now), t, k) ==
            Home(pl, actors, t, k)
  {
    var home := Home(pl, actors, table, key);
    HomeIsTarget(pl, actors, table, key);
    if t == table {
      var dir := actors.tables[table];
      var dir' := dir[home := LeafEntry(|rows|, SumBytes(rows), policy, now)];
      assert forall s :: ChildrenOf(dir, s) == ChildrenOf(dir', s);
      RouteReadsOnlyChildren(pl, dir, dir', BaseOf(pl, t, k), k, MAX_SCOPE_SPLIT_DEPTH + 1);
    }
  }

  lemma WriteKeepsRestorable(pl: Placement, actors: Actors, table: string, key: string, rows: Rows, policy: SplitPolicy,
                             now: nat)
    requires Restorable(pl, actors) && table in actors.tables
    requires forall k :: k in rows && k != key ==> k in RowsAt(actors.scopes, Home(pl, actors, table, key))
    ensures Restorable(pl, WriteScope(actors, table, Home(pl, actors, table, key), rows, policy, now))
  {
    var home := Home(pl, actors, table, key);
    var actors' := WriteScope(actors, table, home, rows, policy, now);
    HomeIsTarget(pl, actors, table, key);
    forall t | t in actors'.tables
      ensures TableReady(actors', t)
    {
      assert TableReady(actors, t);
      if t == table {
        UpsertLeafKeepsTree(actors.tables[t], t, home, LeafEntry(|rows|, SumBytes(rows), policy, now));
      }
    }
    forall s, k
      ensures RowReady(pl, actors', s, k)
    {
      assert RowReady(pl, actors, s, k);
      WriteKeepsHomes(pl, actors, table, key, rows, policy, now, TableOf(s), k);
    }
  }

  // ---------------------------------------------------------------- one change

  /** Rewriting the rows of a key's leaf, but for that key, changes the lookup of that key alone. */
  lemma WriteEffect(pl: Placement, actors: Actors, table: string, key: string, rows: Rows, policy: SplitPolicy,
                    now: nat, t: string, k: string)
    requires Restorable(pl, actors) && table in actors.tables
    requires forall x :: x != key ==> SameRow(rows, RowsAt(actors.scopes, Home(pl, actors, table, key)), x)
    ensures var after := WriteScope(actors, table, Home(pl, actors, table, key), rows, policy, now);
            Restorable(pl, after) && after.tables.Keys == actors.tables.Keys &&
            Lookup(pl, after, t, k) ==
              if t == table && k == key then (if key in rows then Some(rows[key]) else None)
              else Lookup(pl, actors, t, k)
  {
    var home := Home(pl, actors, table, key);
    forall x | x in rows && x != key
      ensures x in RowsAt(actors.scopes, home)
    {
      assert SameRow(rows, RowsAt(actors.scopes, home), x);
    }
    assert k != key ==> SameRow(rows, RowsAt(actors.scopes, home), k);
    WriteKeepsRestorable(pl, actors, table, key, rows, policy, now);
    WriteKeepsHomes(pl, actors, table, key, rows, policy, now, t, k);
    HomeIsTarget(pl, actors, table, key);
    HomeIsTarget(pl, actors, t, k);
  }

  ghost predicate SameRow(a: Rows, b: Rows, key: string) {
    (key in a <==> key in b) && (key in a ==> a[key] == b[key])
  }

  lemma UpsertEffect(pl: Placement, actors: Actors, change: Change, policy: SplitPolicy, now: nat, t: string, k: string)
    requires Restorable(pl, actors) && change.Upsert? && change.Table() in actors.tables
    ensures var after := Apply(pl, actors, change, policy, now);
            Restorable(pl, after) && after.tables.Keys == actors.tables.Keys &&
            Lookup(pl, after, t, k) ==
              if change.Table() == t && change.Key() == k then Some(change.row) else Lookup(pl, actors, t, k)
  {
    var table, key := change.Table(), change.Key();
    var held := RowsAt(actors.scopes, Home(pl, actors, table, key));
    WriteEffect(pl, actors, table, key, held[key := change.row], policy, now, t, k);
  }

  lemma DeleteEffect(pl: Placement, actors: Actors, change: Change, policy: SplitPolicy, now: nat, t: string, k: string)
    requires Restorable(pl, actors) && change.Delete? && change.Table() in actors.tables
    ensures var after := Apply(pl, actors, change, policy, now);
            Restorable(pl, after) && after.tables.Keys == actors.tables.Keys &&
            Lookup(pl, after, t, k) ==
              if change.Table() == t && change.Key() == k then None else Lookup(pl, actors, t, k)
  {
    var table, key := change.Table(), change.Key();
    var held := RowsAt(actors.scopes, Home(pl, actors, table, key));
    if key in held {
      WriteEffect(pl, actors, table, key, held - {key}, policy, now, t, k);
    }
  }

  lemma ColdStaysCold(pl: Placement, actors: Actors, table: string, key: string)
    requires Restorable(pl, actors) && table !in actors.tables
    ensures Cold(pl, actors, table, key)
  {
    HomeIsTarget(pl, actors, table, key);
    assert TableOf(BaseOf(pl, table, key)) == table;
  }

  /** A change on a resident table sets its row and no other; on a cold table it does nothing. */
  lemma ApplyEffect(pl: Placement, actors: Actors, change: Change, policy: SplitPolicy, now: nat, t: string, k: string)
    requires Restorable(pl, actors)
    ensures var after := Apply(pl, actors, change, policy, now);
            Restorable(pl, after) && after.tables.Keys == actors.tables.Keys &&
            Lookup(pl, after, t, k) ==
              if t in actors.tables && change.Table() == t && change.Key() == k then change.Effect()
              else Lookup(pl, actors, t, k)
  {
    if change.Table() !in actors.tables {
      ColdStaysCold(pl, actors, change.Table(), change.Key());
    } else if change.Upsert? {
      UpsertEffect(pl, actors, change, policy, now, t, k);
    } else {
      DeleteEffect(pl, actors, change, policy, now, t, k);
    }
  }

  /** Directory counts, byte estimates and flags say what the scopes hold, in every table. */
  ghost predicate CountsRight(actors: Actors) {
    forall t {:trigger t in actors.tables} :: t in actors.tables ==> Accurate(actors.tables[t], actors.scopes)
  }

  lemma WriteKeepsCounts(pl: Placement, actors: Actors, table: string, key: string, rows: Rows, policy: SplitPolicy,
                         now: nat)
    requires Restorable(pl, actors) && CountsRight(actors) && table in actors.tables
    ensures CountsRight(WriteScope(actors, table, Home(pl, actors, table, key), rows, policy, now))
  {
    var home := Home(pl, actors, table, key);
    var actors' := WriteScope(actors, table, home, rows, policy, now);
    HomeIsTarget(pl, actors, table, key);
    forall t | t in actors'.tables
      ensures Accurate(actors'.tables[t], actors'.scopes)
    {
      assert TableReady(actors, t) && Accurate(actors.tables[t], actors.scopes);
      forall s | s in actors'.tables[t]
        ensures EntryAccurate(actors'.tables[t][s], RowsAt(actors'.scopes, s))
      {
        if s == home {
          assert s in actors.tables[t] ==> TableOf(s) == t by {
            if s in actors.tables[t] {
              EntriesStayInTable(actors.tables[t], t, s);
            }
          }
        } else {
          assert EntryAccurate(actors.tables[t][s], RowsAt(actors.scopes, s));
        }
      }
    }
  }

  /** Replaying changes keeps the directories' counts right. */
  lemma {:induction false} ReplayKeepsCounts(pl: Placement, actors: Actors, steps: seq<Step>, policy: SplitPolicy)
    requires Restorable(pl, actors) && CountsRight(actors)
    ensures CountsRight(Replay(pl, actors, steps, policy))
  {
    if steps != [] {
      var init, last := steps[..|steps| - 1], steps[|steps| - 1];
      var before := Replay(pl, actors, init, policy);
      ReplayKeepsCounts(pl, actors, init, policy);
      ReplayEffect(pl, actors, init, policy, "", "");
      var table, key := last.change.Table(), last.change.Key();
      if table !in before.tables {
        ColdStaysCold(pl, before, table, key);
      } else {
        var held := RowsAt(before.scopes, Home(pl, before, table, key));
        WriteKeepsCounts(pl, before, table, key,
                         if last.change.Upsert? then held[key := last.change.row] else held - {key}, policy, last.at);
      }
    }
  }

  /** The last change made to a row, if any. */
  function LastChange(changes: seq<Change>, table: string, key: string): Option<Change> {
    if changes == [] then None
    else
      var last := changes[|changes| - 1];
      if last.Table() == table && last.Key() == key then Some(last)
      else LastChange(changes[..|changes| - 1], table, key)
  }

  function Expected(initial: Option<Record>, changes: seq<Change>, table: string, key: string): Option<Record> {
    match LastChange(changes, table, key)
    case None => initial
    case Some(change) => change.Effect()
  }

  /** Replaying changes in any given order leaves, per resident row, what the last change to it says. */
  lemma {:induction false} ReplayEffect(pl: Placement, actors: Actors, steps: seq<Step>, policy: SplitPolicy, t: string,
                                        k: string)
    requires Restorable(pl, actors)
    ensures var after := Replay(pl, actors, steps, policy);
            Restorable(pl, after) && after.tables.Keys == actors.tables.Keys &&
            Lookup(pl, after, t, k) ==
              if t in actors.tables then Expected(Lookup(pl, actors, t, k), Changes(steps), t, k) else None
  {
    if steps != [] {
      var before := steps[..|steps| - 1];
      ReplayEffect(pl, actors, before, policy, t, k);
      ApplyEffect(pl, Replay(pl, actors, before, policy), steps[|steps| - 1].change, policy, steps[|steps| - 1].at,
                  t, k);
      assert Changes(steps)[..|steps| - 1] == Changes(before);
    }
  }

  // ---------------------------------------------------------------- collapsing the log

  ghost predicate SamePathSameRow(a: Change, b: Change) {
    a.Path() == b.Path() <==> a.Table() == b.Table() && a.Key() == b.Key()
  }

  /** In this log a path names one row and a row has one path. */
  ghost predicate PathsIdentifyRows(changes: seq<Change>) {
    forall a, b :: a in changes && b in changes ==> SamePathSameRow(a, b)
  }

  /** `order` lists the collapsed changes, each path once, in whatever order. */
  ghost predicate Enumerates(order: seq<Change>, collapsed: map<string, Change>) {
    (forall i :: 0 <= i < |order| ==> order[i].Path() in collapsed && collapsed[order[i].Path()] == order[i]) &&
    (forall i, j :: 0 <= i < j < |order| ==> order[i].Path() != order[j].Path()) &&
    (forall p :: p in collapsed ==> exists i :: 0 <= i < |order| && order[i].Path() == p)
  }

  lemma {:induction false} CollapseHoldsLogChanges(changes: seq<Change>)
    ensures forall p :: p in Collapse(changes) ==> Collapse(changes)[p] in changes && Collapse(changes)[p].Path() == p
  {
    if changes != [] {
      CollapseHoldsLogChanges(changes[..|changes| - 1]);
    }
  }

  lemma {:induction false} LastChangeIsCollapsed(changes: seq<Change>, table: string, key: string)
    requires PathsIdentifyRows(changes)
    ensures match LastChange(changes, table, key)
            case Some(c) => c in changes && c.Table() == table && c.Key() == key &&
                            c.Path() in Collapse(changes) && Collapse(changes)[c.Path()] == c
            case None => forall c :: c in changes ==> c.Table() != table || c.Key() != key
  {
    if changes != [] {
      var before, last := changes[..|changes| - 1], changes[|changes| - 1];
      assert changes == before + [last];
      LastChangeIsCollapsed(before, table, key);
      if LastChange(before, table, key).Some? {
        assert SamePathSameRow(LastChange(before, table, key).value, last);
      }
    }
  }

  lemma {:induction false} LastChangeOccurs(changes: seq<Change>, table: string, key: string)
    ensures match LastChange(changes, table, key)
            case Some(c) => c in changes && c.Table() == table && c.Key() == key
            case None => forall c :: c in changes ==> c.Table() != table || c.Key() != key
  {
    if changes != [] {
      assert changes == changes[..|changes| - 1] + [changes[|changes| - 1]];
      LastChangeOccurs(changes[..|changes| - 1], table, key);
    }
  }

  lemma CollapsedOrderKeepsLastChange(changes: seq<Change>, order: seq<Change>, table: string, key: string)
    requires PathsIdentifyRows(changes) && Enumerates(order, Collapse(changes))
    ensures LastChange(order, table, key) == LastChange(changes, table, key)
  {
    LastChangeIsCollapsed(changes, table, key);
    CollapseHoldsLogChanges(changes);
    LastChangeOccurs(order, table, key);
    var inLog, inOrder := LastChange(changes, table, key), LastChange(order, table, key);
    if inOrder.Some? {
      assert inOrder.value in changes;
      assert SamePathSameRow(inOrder.value, inLog.value);
    }
  }

  /**
   Recovery by last-change-per-path, in any path order, leaves the rows that log order leaves, and no cold table wakes
   up.
   */
  lemma RecoveryMatchesLogOrder(pl: Placement, snapshot: Actors, log: seq<WalRecord>, inLogOrder: seq<Step>,
                                collapsed: seq<Step>, policy: SplitPolicy, t: string, k: string)
    requires Restorable(pl, snapshot) && PathsIdentifyRows(LogChanges(log))
    requires Changes(inLogOrder) == LogChanges(log)
    requires Enumerates(Changes(collapsed), Collapse(LogChanges(log)))
    ensures var recovered := Replay(pl, snapshot, collapsed, policy);
            Lookup(pl, recovered, t, k) == Lookup(pl, Replay(pl, snapshot, inLogOrder, policy), t, k) &&
            recovered.tables.Keys == snapshot.tables.Keys && Restorable(pl, recovered)
  {
    ReplayEffect(pl, snapshot, inLogOrder, policy, t, k);
    ReplayEffect(pl, snapshot, collapsed, policy, t, k);
    CollapsedOrderKeepsLastChange(LogChanges(log), Changes(collapsed), t, k);
  }

  // ---------------------------------------------------------------- what the log says

  /** The `j`-th operation of a WAL record is about this row, has this path, and leaves this document or none. */
  predicate Says(record: WalRecord, j: nat, table: string, key: string, path: string, left: Option<Record>) {
    match record.payload
    case RecordUpserted(row) =>
      j == 0 && row.table == table && row.key == key && row.path == path && left == Some(row.(lsn := record.lsn))
    case RecordDeleted(t, k, p) => j == 0 && t == table && k == key && p == path && left == None
    case TransactionCommitted(operations) =>
      j < |operations| && (
        match operations[j]
        case UpsertDraft(row) =>
          row.table == table && row.key == key && row.path == path && left == Some(row.(lsn := record.lsn))
        case DeleteDraft(t, k, p) => t == table && k == key && p == path && left == None)
    case OtherFact => false
  }

  predicate Said(log: seq<WalRecord>, i: nat, j: nat, table: string, key: string, path: string, left: Option<Record>) {
    i < |log| && Says(log[i], j, table, key, path, left)
  }

  ghost predicate Mentioned(log: seq<WalRecord>, table: string, key: string) {
    exists i: nat, j: nat, path, left :: Said(log, i, j, table, key, path, left)
  }

  /** Operation `j` of record `i` is the last word on the row. */
  ghost predicate LastWord(log: seq<WalRecord>, i: nat, j: nat, table: string, key: string) {
    forall i': nat, j': nat, path, left :: Said(log, i', j', table, key, path, left) ==> i' < i || (i' == i && j' <= j)
  }

  /** The last record or transaction operation of the log that is about the row leaves it like this. */
  ghost predicate LastSaid(log: seq<WalRecord>, table: string, key: string, left: Option<Record>) {
    exists i: nat, j: nat, path :: Said(log, i, j, table, key, path, left) && LastWord(log, i, j, table, key)
  }

  /** Of two operations in the log, both have one path exactly when both are about one row. */
  ghost predicate PathsNameRows(log: seq<WalRecord>) {
    forall i: nat, j: nat, t, k, p, e, i': nat, j': nat, t', k', p', e' ::
      Said(log, i, j, t, k, p, e) && Said(log, i', j', t', k', p', e') ==> (p == p' <==> t == t' && k == k')
  }

  lemma RecordSaysItsChanges(record: WalRecord, j: nat, table: string, key: string, path: string, left: Option<Record>)
    ensures Says(record, j, table, key, path, left) <==>
            j < |FromRecord(record)| && FromRecord(record)[j].Table() == table && FromRecord(record)[j].Key() == key &&
            FromRecord(record)[j].Path() == path && FromRecord(record)[j].Effect() == left
  {
  }

  lemma {:induction false} ChangeIsSaid(log: seq<WalRecord>, change: Change) returns (i: nat, j: nat)
    requires change in LogChanges(log)
    ensures Said(log, i, j, change.Table(), change.Key(), change.Path(), change.Effect())
  {
    var before, last := log[..|log| - 1], log[|log| - 1];
    if change in FromRecord(last) {
      i := |log| - 1;
      j :| 0 <= j < |FromRecord(last)| && FromRecord(last)[j] == change;
      RecordSaysItsChanges(last, j, change.Table(), change.Key(), change.Path(), change.Effect());
    } else {
      i, j := ChangeIsSaid(before, change);
      assert before[i] == log[i];
    }
  }

  lemma PathsOfLogIdentifyRows(log: seq<WalRecord>)
    requires PathsNameRows(log)
    ensures PathsIdentifyRows(LogChanges(log))
  {
    forall a, b | a in LogChanges(log) && b in LogChanges(log)
      ensures SamePathSameRow(a, b)
    {
      var i, j := ChangeIsSaid(log, a);
      var i', j' := ChangeIsSaid(log, b);
    }
  }

  lemma {:induction false} LastChangeOfBoth(a: seq<Change>, b: seq<Change>, table: string, key: string)
    ensures LastChange(a + b, table, key)
         == if LastChange(b, table, key).Some? then LastChange(b, table, key) else LastChange(a, table, key)
  {
    if b == [] {
      assert a + b == a;
    } else {
      assert (a + b)[..|a + b| - 1] == a + b[..|b| - 1];
      LastChangeOfBoth(a, b[..|b| - 1], table, key);
    }
  }

  lemma {:induction false} LastChangeStands(changes: seq<Change>, table: string, key: string) returns (n: nat)
    requires LastChange(changes, table, key).Some?
    ensures n < |changes| && LastChange(changes, table, key) == Some(changes[n])
    ensures changes[n].Table() == table && changes[n].Key() == key
    ensures forall m :: n < m < |changes| ==> changes[m].Table() != table || changes[m].Key() != key
  {
    var before, last := changes[..|changes| - 1], changes[|changes| - 1];
    if last.Table() == table && last.Key() == key {
      n := |changes| - 1;
    } else {
      n := LastChangeStands(before, table, key);
      assert forall m :: 0 <= m < |before| ==> before[m] == changes[m];
    }
  }

  /** The last change read from the log is what the log says last. */
  lemma {:induction false} LastChangeIsLastSaid(log: seq<WalRecord>, table: string, key: string)
    ensures match LastChange(LogChanges(log), table, key)
            case Some(change) => LastSaid(log, table, key, change.Effect())
            case None => !Mentioned(log, table, key)
  {
    if log != [] {
      var before, last := log[..|log| - 1], log[|log| - 1];
      LastChangeIsLastSaid(before, table, key);
      LastChangeOfBoth(LogChanges(before), FromRecord(last), table, key);
      if LastChange(FromRecord(last), table, key).Some? {
        LastRecordDecides(log, table, key);
      } else {
        LastRecordIsSilent(log, table, key);
      }
    }
  }

  lemma LastRecordDecides(log: seq<WalRecord>, table: string, key: string)
    requires log != [] && LastChange(FromRecord(log[|log| - 1]), table, key).Some?
    ensures LastSaid(log, table, key, LastChange(FromRecord(log[|log| - 1]), table, key).value.Effect())
  {
    var i, last := |log| - 1, log[|log| - 1];
    var n := LastChangeStands(FromRecord(last), table, key);
    var change := FromRecord(last)[n];
    RecordSaysItsChanges(last, n, table, key, change.Path(), change.Effect());
    assert Said(log, i, n, table, key, change.Path(), change.Effect());
    forall i': nat, j': nat, path, left | Said(log, i', j', table, key, path, left)
      ensures i' < i || (i' == i && j' <= n)
    {
      RecordSaysItsChanges(log[i'], j', table, key, path, left);
    }
    assert LastWord(log, i, n, table, key);
  }

  lemma LastRecordIsSilent(log: seq<WalRecord>, table: string, key: string)
    requires log != [] && LastChange(FromRecord(log[|log| - 1]), table, key).None?
    ensures Mentioned(log, table, key) ==> Mentioned(log[..|log| - 1], table, key)
    ensures forall left :: LastSaid(log[..|log| - 1], table, key, left) ==> LastSaid(log, table, key, left)
  {
    var before, last := log[..|log| - 1], log[|log| - 1];
    LastChangeOccurs(FromRecord(last), table, key);
    forall i: nat, j: nat, path, left
      ensures Said(log, i, j, table, key, path, left) <==> Said(before, i, j, table, key, path, left)
    {
      RecordSaysItsChanges(last, j, table, key, path, left);
    }
    forall left | LastSaid(before, table, key, left)
      ensures LastSaid(log, table, key, left)
    {
      var i: nat, j: nat, path :| Said(before, i, j, table, key, path, left) && LastWord(before, i, j, table, key);
      assert Said(log, i, j, table, key, path, left) && LastWord(log, i, j, table, key);
    }
  }

  lemma LastSaidIsOne(log: seq<WalRecord>, table: string, key: string, a: Option<Record>, b: Option<Record>)
    requires LastSaid(log, table, key, a) && LastSaid(log, table, key, b)
    ensures a == b && Mentioned(log, table, key)
  {
    var i: nat, j: nat, p :| Said(log, i, j, table, key, p, a) && LastWord(log, i, j, table, key);
    var i': nat, j': nat, p' :| Said(log, i', j', table, key, p', b) && LastWord(log, i', j', table, key);
    assert i == i' && j == j';
  }

  /** A row of a resident table is what the log says last about it, or the snapshot's; other tables stay cold. */
  ghost predicate RowRecovered(pl: Placement, snapshot: Actors, recovered: Actors, log: seq<WalRecord>, table: string,
                               key: string)
  {
    (table in snapshot.tables ==>
       (forall left :: LastSaid(log, table, key, left) ==> Lookup(pl, recovered, table, key) == left) &&
       (!Mentioned(log, table, key) ==> Lookup(pl, recovered, table, key) == Lookup(pl, snapshot, table, key))) &&
    (table !in snapshot.tables ==> table !in recovered.tables && Lookup(pl, recovered, table, key) == None)
  }

  /** Recovery by last-change-per-path, read off the payloads. */
  lemma RecoveredRowIsLastSaid(pl: Placement, snapshot: Actors, log: seq<WalRecord>, collapsed: seq<Step>,
                               policy: SplitPolicy, t: string, k: string)
    requires Restorable(pl, snapshot) && PathsNameRows(log)
    requires Enumerates(Changes(collapsed), Collapse(LogChanges(log)))
    ensures RowRecovered(pl, snapshot, Replay(pl, snapshot, collapsed, policy), log, t, k)
  {
    PathsOfLogIdentifyRows(log);
    ReplayEffect(pl, snapshot, collapsed, policy, t, k);
    CollapsedOrderKeepsLastChange(LogChanges(log), Changes(collapsed), t, k);
    LastChangeIsLastSaid(log, t, k);
    forall left | LastSaid(log, t, k, left)
      ensures t in snapshot.tables ==> Lookup(pl, Replay(pl, snapshot, collapsed, policy), t, k) == left
    {
      LastSaidIsOne(log, t, k, left, left);
      LastSaidIsOne(log, t, k, left, LastChange(LogChanges(log), t, k).value.Effect());
    }
  }

  /** Nothing is resident outside the looked-up homes, so equal lookups are equal tables. */
  lemma RowsAreLookedUp(pl: Placement, actors: Actors, scope: ScopeKey, key: string)
    requires Restorable(pl, actors) && key in RowsAt(actors.scopes, scope)
    ensures Lookup(pl, actors, TableOf(scope), key) == Some(RowsAt(actors.scopes, scope)[key])
  {
    assert RowReady(pl, actors, scope, key);
  }

  /** The running actors of one table, and the rows they hold together. */
  datatype TableState = TableState(dir: Directory, scopes: Scopes, model: Rows)

  ghost predicate Running(pl: Placement, table: string, state: TableState) {
    Consistent(pl, table, state.dir, state.scopes, state.model) && state.scopes.Keys <= state.dir.Keys &&
    Shallow(state.dir)
  }

  function AllScopes(tables: map<string, TableState>): set<ScopeKey> {
    set t, s | t in tables && s in tables[t].scopes :: s
  }

  /** The snapshot of all tables. */
  function SnapshotOf(tables: map<string, TableState>): Actors {
    Actors(map t | t in tables :: tables[t].dir,
           map s | s in AllScopes(tables) && TableOf(s) in tables && s in tables[TableOf(s)].scopes ::
             tables[TableOf(s)].scopes[s])
  }

  lemma {:induction false} EntriesStayInTable(dir: Directory, table: string, scope: ScopeKey)
    requires TreeOk(dir, table) && scope in dir
    ensures TableOf(scope) == table
    decreases scope
  {
    assert NodeOk(dir, table, scope);
    if scope.Child? {
      EntriesStayInTable(dir, table, scope.parent);
    }
  }

  lemma SnapshotHoldsRows(pl: Placement, tables: map<string, TableState>, scope: ScopeKey)
    requires forall t :: t in tables ==> Running(pl, t, tables[t])
    ensures RowsAt(SnapshotOf(tables).scopes, scope) ==
            if TableOf(scope) in tables then RowsAt(tables[TableOf(scope)].scopes, scope) else map[]
    ensures scope in AllScopes(tables) ==> TableOf(scope) in tables
  {
    if t :| t in tables && scope in tables[t].scopes {
      assert Running(pl, t, tables[t]);
      EntriesStayInTable(tables[t].dir, t, scope);
    }
  }

  lemma HomeIsInTable(pl: Placement, table: string, dir: Directory, key: string)
    requires TreeOk(dir, table) && Shallow(dir)
    ensures TableOf(Route(pl, dir, BaseOf(pl, table, key), key)) == table
  {
    RouteLands(pl, dir, table, key);
    PathStaysInTable(pl, table, key, Route(pl, dir, BaseOf(pl, table, key), key).Depth());
  }

  /** What the running actors of any number of tables hold is a snapshot recovery can start from, with the same rows. */
  lemma RuntimeStateIsRestorable(pl: Placement, tables: map<string, TableState>)
    requires forall t :: t in tables ==> Running(pl, t, tables[t])
    ensures Restorable(pl, SnapshotOf(tables)) && CountsRight(SnapshotOf(tables))
    ensures forall t, k :: t in tables ==>
              Lookup(pl, SnapshotOf(tables), t, k) == if k in tables[t].model then Some(tables[t].model[k]) else None
  {
    var actors := SnapshotOf(tables);
    SnapshotCountsRight(pl, tables);
    forall t | t in tables
      ensures TableReady(actors, t)
    {
      assert Running(pl, t, tables[t]);
    }
    forall s | s in actors.scopes
      ensures TableOf(s) in actors.tables
    {
      SnapshotHoldsRows(pl, tables, s);
    }
    forall s, k
      ensures RowReady(pl, actors, s, k)
    {
      SnapshotHoldsRows(pl, tables, s);
      if TableOf(s) in tables {
        var state := tables[TableOf(s)];
        assert Running(pl, TableOf(s), state);
        ResidentRowIsWhereItRoutes(pl, TableOf(s), state.dir, state.scopes, state.model, k);
      }
    }
    forall t, k | t in tables
      ensures Lookup(pl, actors, t, k) == if k in tables[t].model then Some(tables[t].model[k]) else None
    {
      LookupFindsRow(pl, tables, t, k);
    }
  }

  lemma SnapshotCountsRight(pl: Placement, tables: map<string, TableState>)
    requires forall t :: t in tables ==> Running(pl, t, tables[t])
    ensures CountsRight(SnapshotOf(tables))
  {
    var actors := SnapshotOf(tables);
    forall t | t in actors.tables
      ensures Accurate(actors.tables[t], actors.scopes)
    {
      var state := tables[t];
      assert Running(pl, t, state);
      forall s | s in state.dir
        ensures EntryAccurate(state.dir[s], RowsAt(actors.scopes, s))
      {
        EntriesStayInTable(state.dir, t, s);
        SnapshotHoldsRows(pl, tables, s);
        assert EntryAccurate(state.dir[s], RowsAt(state.scopes, s));
      }
    }
  }

  lemma LookupFindsRow(pl: Placement, tables: map<string, TableState>, t: string, k: string)
    requires t in tables && forall u :: u in tables ==> Running(pl, u, tables[u])
    ensures Lookup(pl, SnapshotOf(tables), t, k) == if k in tables[t].model then Some(tables[t].model[k]) else None
  {
    var state := tables[t];
    assert Running(pl, t, state);
    HomeIsInTable(pl, t, state.dir, k);
    SnapshotHoldsRows(pl, tables, Route(pl, state.dir, BaseOf(pl, t, k), k));
    ResidentRowIsWhereItRoutes(pl, t, state.dir, state.scopes, state.model, k);
  }

  // ---------------------------------------------------------------- the recovering actor map

  class RecoveringActors {
    const placement: Placement
    var tables: map<string, Directory>
    var scopes: Scopes

    constructor (placement: Placement, snapshot: Actors)
      ensures this.placement == placement && Value() == snapshot
    {
      this.placement, tables, scopes := placement, snapshot.tables, snapshot.scopes;
    }

    function Value(): Actors
      reads this
    {
      Actors(tables, scopes)
    }

    /** The scope actor's new rows, and the table actor's entry for them. */
    method WriteRows(table: string, scope: ScopeKey, rows: Rows, policy: SplitPolicy, now: nat)
      modifies this
      ensures Value() == WriteScope(old(Value()), table, scope, rows, policy, now)
    {
      var bytes := EstimatedBytes(rows);
      scopes := scopes[scope := rows];
      var dir := if table in tables then tables[table] else map[];
      tables := tables[table := dir[scope := LeafEntry(|rows|, bytes, policy, now)]];
    }

    method ApplyUpsert(row: Record, policy: SplitPolicy, now: nat)
      modifies this
      ensures Value() == Apply(placement, old(Value()), Upsert(row), policy, now)
    {
      var home := Home(placement, Value(), row.table, row.key);
      if row.table !in tables && home !in scopes && BaseOf(placement, row.table, row.key) !in scopes {
        return;
      }
      WriteRows(row.table, home, RowsAt(scopes, home)[row.key := row], policy, now);
    }

    method ApplyDelete(table: string, key: string, ghost path: string, policy: SplitPolicy, now: nat)
      modifies this
      ensures Value() == Apply(placement, old(Value()), Delete(table, key, path), policy, now)
    {
      var home := Home(placement, Value(), table, key);
      if table !in tables && home !in scopes && BaseOf(placement, table, key) !in scopes {
        return;
      }
      if home !in scopes || key !in scopes[home] {
        return;
      }
      WriteRows(table, home, scopes[home] - {key}, policy, now);
    }

    /** Collapse the tail per path, then apply what is left; `collapsed` records the order taken. */
    method ApplyWalTail(log: seq<WalRecord>, policy: SplitPolicy) returns (ghost collapsed: seq<Step>)
      modifies this
      ensures Enumerates(Changes(collapsed), Collapse(LogChanges(log)))
      ensures Value() == Replay(placement, old(Value()), collapsed, policy)
      ensures Restorable(placement, old(Value())) && PathsNameRows(log) ==>
                forall t, k :: RowRecovered(placement, old(Value()), Value(), log, t, k)
      ensures Restorable(placement, old(Value())) && CountsRight(old(Value())) ==> CountsRight(Value())
    {
      var byPath := CollapseLog(log);
      CollapseHoldsLogChanges(LogChanges(log));
      collapsed := [];
      ghost var start := Value();
      var todo := byPath.Keys;
      while todo != {}
        invariant todo <= byPath.Keys
        invariant Value() == Replay(placement, start, collapsed, policy)
        invariant Enumerates(Changes(collapsed), byPath - todo)
      {
        var path :| path in todo;
        var now: nat := *;
        var change := byPath[path];
        match change {
          case Upsert(row) => ApplyUpsert(row, policy, now);
          case Delete(table, key, deletedPath) => ApplyDelete(table, key, deletedPath, policy, now);
        }
        ReplayOneMore(placement, start, collapsed, Step(change, now), policy);
        EnumerateOneMore(collapsed, Step(change, now), byPath, todo, path);
        collapsed := collapsed + [Step(change, now)];
        todo := todo - {path};
      }
      assert byPath - {} == byPath;
      if Restorable(placement, start) && CountsRight(start) {
        ReplayKeepsCounts(placement, start, collapsed, policy);
      }
      if Restorable(placement, start) && PathsNameRows(log) {
        forall t, k
          ensures RowRecovered(placement, start, Value(), log, t, k)
        {
          RecoveredRowIsLastSaid(placement, start, log, collapsed, policy, t, k);
        }
      }
    }

    method CollapseLog(log: seq<WalRecord>) returns (byPath: map<string, Change>)
      ensures byPath == Collapse(LogChanges(log))
    {
      byPath := map[];
      for i := 0 to |log|
        invariant byPath == Collapse(LogChanges(log[..i]))
      {
        assert log[..i + 1][..i] == log[..i];
        CollapseAppend(LogChanges(log[..i]), FromRecord(log[i]));
        byPath := CollapseRecord(byPath, log[i]);
      }
      assert log[..|log|] == log;
    }

    method CollapseRecord(byPath: map<string, Change>, record: WalRecord) returns (byPath': map<string, Change>)
      ensures byPath' == byPath + Collapse(FromRecord(record))
    {
      match record.payload {
        case RecordUpserted(row) =>
          var change := Upsert(row.(lsn := record.lsn));
          CollapseOne(byPath, change);
          byPath' := byPath[row.path := change];
        case RecordDeleted(table, key, path) =>
          CollapseOne(byPath, Delete(table, key, path));
          byPath' := byPath[path := Delete(table, key, path)];
        case TransactionCommitted(operations) =>
          var rest := CollapseOperations(operations, record.lsn);
          byPath' := byPath + rest;
        case OtherFact =>
          byPath' := byPath;
      }
    }

    method CollapseOperations(operations: seq<Mutation>, lsn: nat) returns (byPath: map<string, Change>)
      ensures byPath == Collapse(FromMutations(operations, lsn))
    {
      byPath := map[];
      for i := 0 to |operations|
        invariant byPath == Collapse(FromMutations(operations, lsn)[..i])
      {
        ghost var all := FromMutations(operations, lsn);
        assert all[..i + 1][..i] == all[..i];
        var change := FromMutation(operations[i], lsn);
        byPath := byPath[change.Path() := change];
      }

      ghost var all := FromMutations(operations, lsn);
      assert all[..|operations|] == all;
    }
  }

  lemma CollapseOne(byPath: map<string, Change>, change: Change)
    ensures byPath + Collapse([change]) == byPath[change.Path() := change]
  {
    assert [change][..0] == [];
    assert Collapse([change]) == map[change.Path() := change];
  }

  lemma ReplayOneMore(pl: Placement, start: Actors, steps: seq<Step>, step: Step, policy: SplitPolicy)
    ensures Replay(pl, start, steps + [step], policy)
         == Apply(pl, Replay(pl, start, steps, policy), step.change, policy, step.at)
  {
    assert (steps + [step])[..|steps|] == steps;
  }

  lemma EnumerateOneMore(steps: seq<Step>, step: Step, byPath: map<string, Change>, todo: set<string>, path: string)
    requires Enumerates(Changes(steps), byPath - todo)
    requires path in todo && path in byPath && byPath[path] == step.change && step.change.Path() == path
    ensures Enumerates(Changes(steps + [step]), byPath - (todo - {path}))
  {
    var before, after := Changes(steps), Changes(steps + [step]);
    assert after == before + [step.change];
    var done := byPath - (todo - {path});
    forall p | p in done
      ensures exists i :: 0 <= i < |after| && after[i].Path() == p
    {
      if p == path {
        assert after[|before|].Path() == p;
      } else {
        assert p in byPath - todo;
        var i :| 0 <= i < |before| && before[i].Path() == p;
        assert after[i].Path() == p;
      }
    }
  }
}
