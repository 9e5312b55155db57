/**
 The directory a table actor keeps of its scopes: how overfull scopes are split
 in two by hash, how a record key is routed down the resulting tree, and what a
 directory must satisfy for every resident row to be found again.
 */
module ScopeDirectory {
  import opened Records

  const MAX_SCOPE_SPLIT_DEPTH: nat := 32

  /** A scope key `table:<table>/<partition>` with one `/child:<index>` per split, taken apart. */
  datatype ScopeKey = Base(table: string, partition: string) | Child(parent: ScopeKey, index: nat) {
    function Depth(): nat {
      if Base? then 0 else parent.Depth() + 1
    }

    /** `other` is this scope or lies below it. */
    predicate Covers(other: ScopeKey) {
      this == other || (other.Child? && Covers(other.parent))
    }
  }

  type Rows = map<string, Record>

  datatype SplitPolicy = SplitPolicy(rows: nat, bytes: nat)

  datatype Entry = Entry(rows: nat, bytes: nat, splitPending: bool, policy: SplitPolicy,
                         reminderAtMs: nat, children: seq<ScopeKey>)

  type Directory = map<ScopeKey, Entry>

  type Scopes = map<ScopeKey, Rows>

  /** SHA-256 (first eight bytes) of `scope:key`, and the partition a key falls in; both stay abstract. */
  datatype Placement = Placement(hash: (ScopeKey, string) -> nat, partition: (string, string) -> string)

  function ChildIndex(pl: Placement, scope: ScopeKey, key: string, count: nat): (index: nat)
    ensures count > 0 ==> index < count
  {
    if count <= 1 then 0 else pl.hash(scope, key) % count
  }

  function BaseOf(pl: Placement, table: string, key: string): ScopeKey {
    Base(table, pl.partition(table, key))
  }

  predicate Exceeds(rows: nat, bytes: nat, policy: SplitPolicy) {
    rows > 1 && ((policy.rows > 0 && rows > policy.rows) || (policy.bytes > 0 && bytes > policy.bytes))
  }

  /** At most one row, or within the limits that are set: a limit of zero is none. */
  predicate WithinLimits(rows: nat, bytes: nat, policy: SplitPolicy) {
    rows <= 1 || ((policy.rows == 0 || rows <= policy.rows) && (policy.bytes == 0 || bytes <= policy.bytes))
  }

  function RecordBytes(record: Record): nat {
    |record.table| + |record.key| + |record.path| + |record.value| + 8 + 8
  }

  ghost function SumBytes(rows: Rows): nat
  {
    if rows == map[] then 0 else
      var key :| key in rows;
      RecordBytes(rows[key]) + SumBytes(rows - {key})
  }

  lemma {:induction false} SumBytesRemove(rows: Rows, key: string)
    requires key in rows
    ensures SumBytes(rows) == RecordBytes(rows[key]) + SumBytes(rows - {key})
    decreases |rows|
  {
    var picked :| picked in rows && SumBytes(rows) == RecordBytes(rows[picked]) + SumBytes(rows - {picked});
    if picked != key {
      assert |rows - {picked}| < |rows|;
      assert |rows - {key}| < |rows|;
      SumBytesRemove(rows - {picked}, key);
      SumBytesRemove(rows - {key}, picked);
      assert rows - {picked} - {key} == rows - {key} - {picked};
    }
  }

  /** Storing a row under a key costs its four texts and sixteen bytes, less what the key held before. */
  lemma StoredRowCosts(rows: Rows, key: string, row: Record)
    ensures SumBytes(rows[key := row])
         == SumBytes(rows - {key}) + |row.table + row.key + row.path + row.value| + 16
  {
    SumBytesRemove(rows[key := row], key);
    assert rows[key := row] - {key} == rows - {key};
  }

  /** The byte estimate of a scope's rows, summed in whatever order they come. */
  method EstimatedBytes(rows: Rows) returns (bytes: nat)
    ensures bytes == SumBytes(rows)
  {
    bytes := 0;
    var rest := rows;
    while rest != map[]
      invariant bytes + SumBytes(rest) == SumBytes(rows)
      decreases |rest|
    {
      var key :| key in rest;
      SumBytesRemove(rest, key);
      bytes := bytes + RecordBytes(rest[key]);
      assert |rest - {key}| < |rest|;
      rest := rest - {key};
    }
  }

  lemma ChildDiffers(scope: ScopeKey, index: nat)
    ensures Child(scope, index) != scope
  {
    assert Child(scope, index).Depth() == scope.Depth() + 1;
  }

  // ---------------------------------------------------------------- routing

  /** At most `steps` hops down the tree from `current`. */
  function RouteFrom(pl: Placement, dir: Directory, current: ScopeKey, key: string, steps: nat): ScopeKey
    decreases steps
  {
    if steps == 0 || current !in dir || dir[current].children == [] then current
    else
      var children := dir[current].children;
      var child := children[ChildIndex(pl, current, key, |children|)];
      if child == current then current else RouteFrom(pl, dir, child, key, steps - 1)
  }

  function Route(pl: Placement, dir: Directory, scope: ScopeKey, key: string): ScopeKey {
    RouteFrom(pl, dir, scope, key, MAX_SCOPE_SPLIT_DEPTH + 1)
  }

  /** The scope `depth` levels down that `key` hashes to. */
  function PathOf(pl: Placement, table: string, key: string, depth: nat): (scope: ScopeKey)
    ensures scope.Depth() == depth
  {
    if depth == 0 then BaseOf(pl, table, key)
    else
      var parent := PathOf(pl, table, key, depth - 1);
      Child(parent, ChildIndex(pl, parent, key, 2))
  }

  /** `key` hashes through `scope`. */
  predicate OnPath(pl: Placement, table: string, scope: ScopeKey, key: string) {
    scope == PathOf(pl, table, key, scope.Depth())
  }

  /** `key` falls in the scope's partition, and hashed with each scope above it gave the child that was taken. */
  predicate HashesInto(pl: Placement, table: string, scope: ScopeKey, key: string) {
    match scope
    case Base(t, partition) => t == table && partition == pl.partition(table, key)
    case Child(parent, index) => HashesInto(pl, table, parent, key) && index == pl.hash(parent, key) % 2
  }

  lemma {:induction false} OnPathIffHashesInto(pl: Placement, table: string, scope: ScopeKey, key: string)
    ensures OnPath(pl, table, scope, key) <==> HashesInto(pl, table, scope, key)
  {
    if scope.Child? {
      OnPathIffHashesInto(pl, table, scope.parent, key);
    }
  }

  predicate Leaf(dir: Directory, scope: ScopeKey) {
    scope in dir && dir[scope].children == []
  }

  /** An entry is a leaf or has exactly its two children, and its parent is an inner entry. */
  ghost predicate NodeOk(dir: Directory, table: string, s: ScopeKey)
    requires s in dir
  {
    (s.Base? ==> s.table == table) &&
    (s.Child? ==> s.parent in dir && dir[s.parent].children != []) &&
    (dir[s].children != [] ==>
       dir[s].children == [Child(s, 0), Child(s, 1)] && Child(s, 0) in dir && Child(s, 1) in dir)
  }

  ghost predicate TreeOk(dir: Directory, table: string) {
    forall s {:trigger NodeOk(dir, table, s)} :: s in dir ==> NodeOk(dir, table, s)
  }

  ghost predicate Shallow(dir: Directory) {
    forall s :: s in dir ==> s.Depth() <= MAX_SCOPE_SPLIT_DEPTH + 1
  }

  lemma {:induction false} AncestorsAreInner(pl: Placement, dir: Directory, table: string, key: string, depth: nat,
                                             above: nat)
    requires TreeOk(dir, table) && PathOf(pl, table, key, depth) in dir && above < depth
    ensures var s := PathOf(pl, table, key, above); s in dir && dir[s].children == [Child(s, 0), Child(s, 1)]
    decreases depth
  {
    assert PathOf(pl, table, key, depth).parent == PathOf(pl, table, key, depth - 1);
    assert NodeOk(dir, table, PathOf(pl, table, key, depth));
    assert NodeOk(dir, table, PathOf(pl, table, key, depth - 1));
    if above < depth - 1 {
      AncestorsAreInner(pl, dir, table, key, depth - 1, above);
    }
  }

  /** Walking `steps` hops from an ancestor of a scope on the key's path stays on the way to that scope. */
  lemma {:induction false} RouteFollowsPath(pl: Placement, dir: Directory, table: string, key: string,
                                            depth: nat, above: nat, steps: nat)
    requires TreeOk(dir, table) && PathOf(pl, table, key, depth) in dir && above <= depth
    ensures depth - above <= steps ==>
              RouteFrom(pl, dir, PathOf(pl, table, key, above), key, steps)
                == RouteFrom(pl, dir, PathOf(pl, table, key, depth), key, steps - (depth - above))
    ensures steps < depth - above ==>
              RouteFrom(pl, dir, PathOf(pl, table, key, above), key, steps) == PathOf(pl, table, key, above + steps)
    decreases depth - above
  {
    if above < depth && steps > 0 {
      AncestorsAreInner(pl, dir, table, key, depth, above);
      var here := PathOf(pl, table, key, above);
      assert PathOf(pl, table, key, above + 1) == Child(here, ChildIndex(pl, here, key, 2));
      RouteFollowsPath(pl, dir, table, key, depth, above + 1, steps - 1);
    }
  }

  /** Routing takes at most 33 hops, so a key finds the leaf it hashes to exactly when that leaf is no deeper. */
  lemma RouteReachesLeafIffShallow(pl: Placement, dir: Directory, table: string, leaf: ScopeKey, key: string)
    requires TreeOk(dir, table) && Leaf(dir, leaf) && OnPath(pl, table, leaf, key)
    ensures Route(pl, dir, BaseOf(pl, table, key), key) == leaf <==> leaf.Depth() <= 33
  {
    RouteFollowsPath(pl, dir, table, key, leaf.Depth(), 0, MAX_SCOPE_SPLIT_DEPTH + 1);
  }

  lemma {:induction false} RouteFromLands(pl: Placement, dir: Directory, table: string, depth: nat,
                                          key: string, steps: nat)
    requires TreeOk(dir, table) && Shallow(dir)
    requires PathOf(pl, table, key, depth) in dir || depth == 0
    requires depth + steps >= MAX_SCOPE_SPLIT_DEPTH + 1
    ensures var r := RouteFrom(pl, dir, PathOf(pl, table, key, depth), key, steps);
            OnPath(pl, table, r, key) && (Leaf(dir, r) || (r !in dir && r == BaseOf(pl, table, key)))
    decreases steps
  {
    var current := PathOf(pl, table, key, depth);
    if current in dir && dir[current].children != [] {
      assert NodeOk(dir, table, current);
      assert dir[current].children[0] == Child(current, 0) && Child(current, 0).Depth() == depth + 1;
      assert PathOf(pl, table, key, depth + 1) == Child(current, ChildIndex(pl, current, key, 2));
      RouteFromLands(pl, dir, table, depth + 1, key, steps - 1);
    }
  }

  /** In a shallow tree every key is routed to a leaf, or to its base scope while that has no entry yet. */
  lemma RouteLands(pl: Placement, dir: Directory, table: string, key: string)
    requires TreeOk(dir, table) && Shallow(dir)
    ensures var r := Route(pl, dir, BaseOf(pl, table, key), key);
            OnPath(pl, table, r, key) && (Leaf(dir, r) || (r !in dir && r == BaseOf(pl, table, key)))
  {
    RouteFromLands(pl, dir, table, 0, key, MAX_SCOPE_SPLIT_DEPTH + 1);
  }

  /** One key hashes to at most one leaf. */
  lemma LeafOnPathUnique(pl: Placement, dir: Directory, table: string, a: ScopeKey, b: ScopeKey, key: string)
    requires TreeOk(dir, table) && Leaf(dir, a) && Leaf(dir, b) && OnPath(pl, table, a, key) &&
             OnPath(pl, table, b, key)
    ensures a == b
  {
    if a.Depth() < b.Depth() {
      AncestorsAreInner(pl, dir, table, key, b.Depth(), a.Depth());
    } else if b.Depth() < a.Depth() {
      AncestorsAreInner(pl, dir, table, key, a.Depth(), b.Depth());
    }
  }

  // ---------------------------------------------------------------- rows in scopes

  function RowsAt(scopes: Scopes, scope: ScopeKey): Rows {
    if scope in scopes then scopes[scope] else map[]
  }

  /** A row kept in `scope` is the table's row for its key, and `scope` is a leaf the key hashes to. */
  ghost predicate RowOk(pl: Placement, table: string, dir: Directory, scopes: Scopes, model: Rows, scope: ScopeKey,
                        key: string)
  {
    key in RowsAt(scopes, scope) ==>
      Leaf(dir, scope) && OnPath(pl, table, scope, key) &&
      key in model && model[key] == RowsAt(scopes, scope)[key] && model[key].key == key
  }

  ghost predicate Stored(scopes: Scopes, key: string) {
    exists s :: key in RowsAt(scopes, s)
  }

  /**
   `model` is the table's resident rows: each sits in the one leaf its key hashes to, and nothing else is resident.
   */
  ghost predicate Represents(pl: Placement, table: string, dir: Directory, scopes: Scopes, model: Rows) {
    (forall s, k {:trigger RowOk(pl, table, dir, scopes, model, s, k)} :: RowOk(pl, table, dir, scopes, model, s, k)) &&
    (forall k {:trigger Stored(scopes, k)} :: k in model ==> Stored(scopes, k))
  }

  /** Directory counts, byte estimates and pending flags say what the scopes really hold. */
  ghost predicate EntryAccurate(entry: Entry, rows: Rows) {
    if entry.children == [] then
      entry.rows == |rows| && entry.bytes == SumBytes(rows) &&
      entry.splitPending == Exceeds(entry.rows, entry.bytes, entry.policy)
    else
      entry.rows == 0 && entry.bytes == 0 && !entry.splitPending
  }

  ghost predicate Accurate(dir: Directory, scopes: Scopes) {
    forall s {:trigger EntryAccurate(dir[s], RowsAt(scopes, s))} :: s in dir ==>
      EntryAccurate(dir[s], RowsAt(scopes, s))
  }

  ghost predicate Consistent(pl: Placement, table: string, dir: Directory, scopes: Scopes, model: Rows) {
    TreeOk(dir, table) && Represents(pl, table, dir, scopes, model) && Accurate(dir, scopes)
  }

  /** The part of the table that hashes through `scope`. */
  ghost function RowsThrough(pl: Placement, table: string, model: Rows, scope: ScopeKey): Rows {
    map k | k in model && OnPath(pl, table, scope, k) :: model[k]
  }

  lemma LeafHoldsRowsThrough(pl: Placement, table: string, dir: Directory, scopes: Scopes, model: Rows, leaf: ScopeKey)
    requires TreeOk(dir, table) && Represents(pl, table, dir, scopes, model) && Leaf(dir, leaf)
    ensures RowsAt(scopes, leaf) == RowsThrough(pl, table, model, leaf)
  {
    forall k | k in model && OnPath(pl, table, leaf, k)
      ensures k in RowsAt(scopes, leaf)
    {
      assert Stored(scopes, k);
      var s :| k in RowsAt(scopes, s);
      assert RowOk(pl, table, dir, scopes, model, s, k);
      LeafOnPathUnique(pl, dir, table, s, leaf, k);
    }
    assert forall k :: k in RowsAt(scopes, leaf) ==> RowOk(pl, table, dir, scopes, model, leaf, k);
  }

  /** Every row sits where its hashes lead. */
  ghost predicate RowsHashIn(pl: Placement, table: string, scopes: Scopes) {
    forall s, k {:trigger k in RowsAt(scopes, s)} :: k in RowsAt(scopes, s) ==> HashesInto(pl, table, s, k)
  }

  lemma ResidentRowsHashIn(pl: Placement, table: string, dir: Directory, scopes: Scopes, model: Rows)
    requires Consistent(pl, table, dir, scopes, model)
    ensures RowsHashIn(pl, table, scopes)
  {
    forall s, k | k in RowsAt(scopes, s)
      ensures HashesInto(pl, table, s, k)
    {
      assert RowOk(pl, table, dir, scopes, model, s, k);
      OnPathIffHashesInto(pl, table, s, k);
    }
  }

  /** A leaf holds precisely the table's rows whose hashes lead to it. */
  lemma LeafHoldsWhatHashesIn(pl: Placement, table: string, dir: Directory, scopes: Scopes, model: Rows,
                              leaf: ScopeKey, key: string)
    requires Consistent(pl, table, dir, scopes, model) && Leaf(dir, leaf)
    ensures key in RowsAt(scopes, leaf) <==> key in model && HashesInto(pl, table, leaf, key)
    ensures key in RowsAt(scopes, leaf) ==> RowsAt(scopes, leaf)[key] == model[key]
  {
    LeafHoldsRowsThrough(pl, table, dir, scopes, model, leaf);
    OnPathIffHashesInto(pl, table, leaf, key);
  }

  /** Every resident row is found at the scope its key routes to, and in no other scope. */
  lemma ResidentRowIsWhereItRoutes(pl: Placement, table: string, dir: Directory, scopes: Scopes, model: Rows,
                                   key: string)
    requires Consistent(pl, table, dir, scopes, model) && Shallow(dir)
    ensures var home := Route(pl, dir, BaseOf(pl, table, key), key);
            (key in model <==> key in RowsAt(scopes, home)) &&
            (key in model ==> Leaf(dir, home) && RowsAt(scopes, home)[key] == model[key]) &&
            forall s :: key in RowsAt(scopes, s) ==> s == home
  {
    var home := Route(pl, dir, BaseOf(pl, table, key), key);
    forall s | key in RowsAt(scopes, s)
      ensures s == home
    {
      assert RowOk(pl, table, dir, scopes, model, s, key);
      RouteReachesLeafIffShallow(pl, dir, table, s, key);
    }
    if key in model {
      assert Stored(scopes, key);
      assert RowOk(pl, table, dir, scopes, model, home, key);
    } else {
      assert RowOk(pl, table, dir, scopes, model, home, key);
    }
  }

  /** What one routed upsert does to the rows, whatever the tree looks like. */
  function UpsertRouted(pl: Placement, table: string, dir: Directory, scopes: Scopes, row: Record): Scopes {
    var home := Route(pl, dir, BaseOf(pl, table, row.key), row.key);
    scopes[home := RowsAt(scopes, home)[row.key := row]]
  }

  /**
   Re-upserting a resident row leaves it in its routed scope alone exactly when its leaf is at most 33 levels down.
   */
  lemma UpsertKeepsOneCopyIffShallow(pl: Placement, table: string, dir: Directory, scopes: Scopes, model: Rows,
                                     leaf: ScopeKey, row: Record)
    requires Consistent(pl, table, dir, scopes, model)
    requires row.key in RowsAt(scopes, leaf)
    ensures var home := Route(pl, dir, BaseOf(pl, table, row.key), row.key);
            (forall s :: row.key in RowsAt(UpsertRouted(pl, table, dir, scopes, row), s) ==> s == home)
              <==> leaf.Depth() <= MAX_SCOPE_SPLIT_DEPTH + 1
  {
    var home := Route(pl, dir, BaseOf(pl, table, row.key), row.key);
    var after := UpsertRouted(pl, table, dir, scopes, row);
    assert RowOk(pl, table, dir, scopes, model, leaf, row.key);
    RouteReachesLeafIffShallow(pl, dir, table, leaf, row.key);
    assert row.key in RowsAt(after, leaf);
    if home == leaf {
      forall s | row.key in RowsAt(after, s)
        ensures s == home
      {
        if s != home {
          assert RowOk(pl, table, dir, scopes, model, s, row.key);
          LeafOnPathUnique(pl, dir, table, s, leaf, row.key);
        }
      }
    }
  }

  lemma AbsentScopeIsEmpty(pl: Placement, table: string, dir: Directory, scopes: Scopes, model: Rows, scope: ScopeKey)
    requires Represents(pl, table, dir, scopes, model) && scope !in dir
    ensures RowsAt(scopes, scope) == map[]
  {
    forall k
      ensures k !in RowsAt(scopes, scope)
    {
      assert RowOk(pl, table, dir, scopes, model, scope, k);
    }
  }

  // ---------------------------------------------------------------- steps

  /** The entry `upsert_scope` writes. */
  function LeafEntry(rows: nat, bytes: nat, policy: SplitPolicy, now: nat): Entry {
    var pending := Exceeds(rows, bytes, policy);
    Entry(rows, bytes, pending, policy, if pending then now else 0, [])
  }

  function InnerEntry(scope: ScopeKey, policy: SplitPolicy): Entry {
    Entry(0, 0, false, policy, 0, [Child(scope, 0), Child(scope, 1)])
  }

  /** `scope` gained `rows` (the newer row wins); every other scope holds what it held. */
  ghost predicate Merged(scopes: Scopes, scopes': Scopes, scope: ScopeKey, rows: Rows) {
    RowsAt(scopes', scope) == RowsAt(scopes, scope) + rows &&
    forall s :: s != scope ==> RowsAt(scopes', s) == RowsAt(scopes, s)
  }

  /** Writing new rows and their count at a leaf (or at a base scope seen for the first time). */
  lemma UpsertLeafKeepsConsistent(pl: Placement, table: string, dir: Directory, scopes: Scopes, model: Rows,
                                  scope: ScopeKey, rows: Rows, entry: Entry, scopes': Scopes)
    requires Consistent(pl, table, dir, scopes, model)
    requires (Leaf(dir, scope) || (scope !in dir && scope.Base? && scope.table == table))
    requires forall k :: k in rows ==> rows[k].key == k && OnPath(pl, table, scope, k)
    requires Merged(scopes, scopes', scope, rows)
    requires entry.children == [] && EntryAccurate(entry, RowsAt(scopes', scope))
    ensures Consistent(pl, table, dir[scope := entry], scopes', model + rows)
  {
    var dir' := dir[scope := entry];
    UpsertLeafKeepsTree(dir, table, scope, entry);
    UpsertLeafKeepsRepresents(pl, table, dir, scopes, model, scope, rows, entry, scopes');
    forall s | s in dir'
      ensures EntryAccurate(dir'[s], RowsAt(scopes', s))
    {
      if s != scope {
        assert EntryAccurate(dir[s], RowsAt(scopes, s));
      }
    }
  }

  lemma UpsertLeafKeepsTree(dir: Directory, table: string, scope: ScopeKey, entry: Entry)
    requires TreeOk(dir, table)
    requires (Leaf(dir, scope) || (scope !in dir && scope.Base? && scope.table == table))
    requires entry.children == []
    ensures TreeOk(dir[scope := entry], table)
    ensures forall s :: s != scope ==> (Leaf(dir[scope := entry], s) <==> Leaf(dir, s))
  {
    var dir' := dir[scope := entry];
    forall s | s in dir'
      ensures NodeOk(dir', table, s)
    {
      assert s in dir ==> NodeOk(dir, table, s);
    }
  }

  lemma UpsertLeafKeepsRepresents(pl: Placement, table: string, dir: Directory, scopes: Scopes, model: Rows,
                                  scope: ScopeKey, rows: Rows, entry: Entry, scopes': Scopes)
    requires TreeOk(dir, table) && Represents(pl, table, dir, scopes, model)
    requires (Leaf(dir, scope) || (scope !in dir && scope.Base? && scope.table == table))
    requires forall k :: k in rows ==> rows[k].key == k && OnPath(pl, table, scope, k)
    requires entry.children == [] && Merged(scopes, scopes', scope, rows)
    ensures Represents(pl, table, dir[scope := entry], scopes', model + rows)
  {
    var dir', model' := dir[scope := entry], model + rows;
    UpsertLeafKeepsTree(dir, table, scope, entry);
    forall s, k
      ensures RowOk(pl, table, dir', scopes', model', s, k)
    {
      assert RowOk(pl, table, dir, scopes, model, s, k);
      if s != scope && k in RowsAt(scopes, s) && k in rows {
        OtherLeafHasOtherKeys(pl, dir, table, scope, s, k);
      }
    }
    UpsertKeepsStored(scopes, model, scope, rows, scopes');
  }

  lemma UpsertKeepsStored(scopes: Scopes, model: Rows, scope: ScopeKey, rows: Rows, scopes': Scopes)
    requires forall k :: k in model ==> Stored(scopes, k)
    requires Merged(scopes, scopes', scope, rows)
    ensures forall k :: k in model + rows ==> Stored(scopes', k)
  {
    forall k | k in model + rows
      ensures Stored(scopes', k)
    {
      if k in rows {
        assert k in RowsAt(scopes', scope);
      } else {
        var s :| k in RowsAt(scopes, s);
        assert k in RowsAt(scopes', s);
      }
    }
  }

  /** A key that hashes to `scope`, a leaf or an unseen base, is not resident in another leaf. */
  lemma OtherLeafHasOtherKeys(pl: Placement, dir: Directory, table: string, scope: ScopeKey, other: ScopeKey,
                              key: string)
    requires TreeOk(dir, table) && Leaf(dir, other) && OnPath(pl, table, other, key) && OnPath(pl, table, scope, key)
    requires (Leaf(dir, scope) || (scope !in dir && scope.Base? && scope.table == table))
    ensures other == scope
  {
    if scope in dir {
      LeafOnPathUnique(pl, dir, table, other, scope, key);
    } else if other.Child? {
      AncestorsAreInner(pl, dir, table, key, other.Depth(), 0);
    }
  }

  ghost predicate HashedApart(pl: Placement, scope: ScopeKey, rows: Rows, low: Rows, high: Rows) {
    low == (map k | k in rows && pl.hash(scope, k) % 2 == 0 :: rows[k]) &&
    high == (map k | k in rows && pl.hash(scope, k) % 2 == 1 :: rows[k])
  }

  function SplitDirectory(dir: Directory, scope: ScopeKey, policy: SplitPolicy, low: Entry, high: Entry): Directory {
    dir[scope := InnerEntry(scope, policy)][Child(scope, 0) := low][Child(scope, 1) := high]
  }

  ghost predicate SplitScopes(scopes: Scopes, scope: ScopeKey, low: Rows, high: Rows, scopes': Scopes) {
    RowsAt(scopes', scope) == map[] &&
    RowsAt(scopes', Child(scope, 0)) == low && RowsAt(scopes', Child(scope, 1)) == high &&
    forall s :: s != scope && s != Child(scope, 0) && s != Child(scope, 1) ==> RowsAt(scopes', s) == RowsAt(scopes, s)
  }

  lemma LeafHasNoChildEntries(dir: Directory, table: string, scope: ScopeKey)
    requires TreeOk(dir, table) && Leaf(dir, scope)
    ensures Child(scope, 0) !in dir && Child(scope, 1) !in dir
  {
    assert Child(scope, 0) in dir ==> NodeOk(dir, table, Child(scope, 0));
    assert Child(scope, 1) in dir ==> NodeOk(dir, table, Child(scope, 1));
  }

  lemma SplitKeepsTree(dir: Directory, table: string, scope: ScopeKey, policy: SplitPolicy, low: Entry, high: Entry)
    requires TreeOk(dir, table) && Leaf(dir, scope) && low.children == [] && high.children == []
    ensures TreeOk(SplitDirectory(dir, scope, policy, low, high), table)
  {
    var dir' := SplitDirectory(dir, scope, policy, low, high);
    LeafHasNoChildEntries(dir, table, scope);
    forall s | s in dir'
      ensures NodeOk(dir', table, s)
    {
      assert s in dir ==> NodeOk(dir, table, s);
    }
  }

  /** Turning a leaf into an inner scope and handing its rows to the two children by hash. */
  lemma SplitLeafKeepsConsistent(pl: Placement, table: string, dir: Directory, scopes: Scopes, model: Rows,
                                 scope: ScopeKey, low: Rows, high: Rows, policy: SplitPolicy,
                                 lowEntry: Entry, highEntry: Entry, scopes': Scopes)
    requires Consistent(pl, table, dir, scopes, model) && Leaf(dir, scope)
    requires HashedApart(pl, scope, RowsAt(scopes, scope), low, high)
    requires lowEntry.children == [] && EntryAccurate(lowEntry, low)
    requires highEntry.children == [] && EntryAccurate(highEntry, high)
    requires SplitScopes(scopes, scope, low, high, scopes')
    ensures Consistent(pl, table, SplitDirectory(dir, scope, policy, lowEntry, highEntry), scopes', model)
  {
    var dir' := SplitDirectory(dir, scope, policy, lowEntry, highEntry);
    SplitKeepsTree(dir, table, scope, policy, lowEntry, highEntry);
    SplitKeepsRepresents(pl, table, dir, scopes, model, scope, low, high, policy, lowEntry, highEntry, scopes');
    forall s | s in dir'
      ensures EntryAccurate(dir'[s], RowsAt(scopes', s))
    {
      if s != scope && s != Child(scope, 0) && s != Child(scope, 1) {
        assert dir'[s] == dir[s];
      }
    }
  }

  lemma SplitKeepsRepresents(pl: Placement, table: string, dir: Directory, scopes: Scopes, model: Rows,
                             scope: ScopeKey, low: Rows, high: Rows, policy: SplitPolicy,
                             lowEntry: Entry, highEntry: Entry, scopes': Scopes)
    requires TreeOk(dir, table) && Represents(pl, table, dir, scopes, model) && Leaf(dir, scope)
    requires HashedApart(pl, scope, RowsAt(scopes, scope), low, high)
    requires lowEntry.children == [] && highEntry.children == []
    requires SplitScopes(scopes, scope, low, high, scopes')
    ensures Represents(pl, table, SplitDirectory(dir, scope, policy, lowEntry, highEntry), scopes', model)
  {
    var c0, c1 := Child(scope, 0), Child(scope, 1);
    var dir' := SplitDirectory(dir, scope, policy, lowEntry, highEntry);
    forall s, k
      ensures RowOk(pl, table, dir', scopes', model, s, k)
    {
      assert RowOk(pl, table, dir, scopes, model, s, k);
      assert RowOk(pl, table, dir, scopes, model, scope, k);
    }
    LeafHasNoChildEntries(dir, table, scope);
    forall k
      ensures k !in RowsAt(scopes, c0) && k !in RowsAt(scopes, c1)
    {
      assert RowOk(pl, table, dir, scopes, model, c0, k) && RowOk(pl, table, dir, scopes, model, c1, k);
    }
    SplitKeepsStored(pl, scopes, model, scope, low, high, scopes');
  }

  lemma SplitKeepsStored(pl: Placement, scopes: Scopes, model: Rows, scope: ScopeKey, low: Rows, high: Rows,
                         scopes': Scopes)
    requires forall k :: k in model ==> Stored(scopes, k)
    requires forall k :: k !in RowsAt(scopes, Child(scope, 0)) && k !in RowsAt(scopes, Child(scope, 1))
    requires HashedApart(pl, scope, RowsAt(scopes, scope), low, high)
    requires SplitScopes(scopes, scope, low, high, scopes')
    ensures forall k :: k in model ==> Stored(scopes', k)
  {
    forall k | k in model
      ensures Stored(scopes', k)
    {
      var s :| k in RowsAt(scopes, s);
      if s == scope {
        assert k in RowsAt(scopes', Child(scope, if ChildIndex(pl, scope, k, 2) == 0 then 0 else 1));
      } else {
        assert k in RowsAt(scopes', s);
      }
    }
  }
}
