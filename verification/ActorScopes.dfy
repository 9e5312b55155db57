/**
 The actors of one table: the table actor's scope directory and the rows its
 scope actors hold, with row upserts, the work-queue split of an overfull scope
 and the sweep over scopes still flagged for a split.
 */
module ActorScopes {
  import opened Records
  import opened ScopeDirectory

  // ---------------------------------------------------------------- batches of rows

  /** The last row given for each key of a batch. */
  function LastRows(rows: seq<Record>): (last: Rows)
    ensures forall k :: k in last ==> last[k].key == k && last[k] in rows
  {
    if rows == [] then map[] else LastRows(rows[..|rows| - 1])[rows[|rows| - 1].key := rows[|rows| - 1]]
  }

  ghost function RouteOf(pl: Placement, dir: Directory, scope: ScopeKey): string -> ScopeKey {
    key => Route(pl, dir, scope, key)
  }

  /** The rows of a batch that are routed to `home`, in batch order. */
  ghost function RoutedTo(route: string -> ScopeKey, rows: seq<Record>, home: ScopeKey): seq<Record> {
    if rows == [] then [] else
      var before := RoutedTo(route, rows[..|rows| - 1], home);
      var row := rows[|rows| - 1];
      if route(row.key) == home then before + [row] else before
  }

  /** Grouping a batch by routed scope keeps, per scope, the last row of each key routed there. */
  lemma {:induction false} RoutedToKeepsLast(route: string -> ScopeKey, rows: seq<Record>, home: ScopeKey, key: string)
    ensures var part := LastRows(RoutedTo(route, rows, home));
            (key in part <==> key in LastRows(rows) && route(key) == home) &&
            (key in part ==> part[key] == LastRows(rows)[key])
  {
    if rows != [] {
      var before := rows[..|rows| - 1];
      RoutedToKeepsLast(route, before, home, key);
      LastRowsAppend(RoutedTo(route, before, home), rows[|rows| - 1]);
    }
  }

  lemma AddOneMore(rows: Rows, added: Rows, row: Record)
    ensures (rows + added)[row.key := row] == rows + added[row.key := row]
  {
  }

  /** What routing a batch into groups leaves for one scope. */
  ghost predicate GroupOk(route: string -> ScopeKey, rows: seq<Record>, routed: map<ScopeKey, seq<Record>>,
                          home: ScopeKey)
  {
    (home in routed <==> RoutedTo(route, rows, home) != []) &&
    (home in routed ==> routed[home] == RoutedTo(route, rows, home))
  }

  lemma RoutedToAppend(route: string -> ScopeKey, rows: seq<Record>, row: Record, home: ScopeKey)
    ensures RoutedTo(route, rows + [row], home)
         == if route(row.key) == home then RoutedTo(route, rows, home) + [row] else RoutedTo(route, rows, home)
  {
    assert (rows + [row])[..|rows|] == rows;
  }

  lemma LastRowsAppend(rows: seq<Record>, row: Record)
    ensures LastRows(rows + [row]) == LastRows(rows)[row.key := row]
  {
    assert (rows + [row])[..|rows|] == rows;
  }

  // ---------------------------------------------------------------- split policy over a subtree

  lemma {:induction false} LeafCoversOnlyItself(dir: Directory, table: string, leaf: ScopeKey, other: ScopeKey)
    requires TreeOk(dir, table) && other in dir && leaf.Covers(other)
    requires leaf in dir ==> dir[leaf].children == []
    ensures other == leaf
    decreases other
  {
    if other != leaf {
      assert NodeOk(dir, table, other);
      LeafCoversOnlyItself(dir, table, leaf, other.parent);
    }
  }

  lemma {:induction false} CoversTransitive(a: ScopeKey, b: ScopeKey, c: ScopeKey)
    requires a.Covers(b) && b.Covers(c)
    ensures a.Covers(c)
    decreases c
  {
    if b != c {
      CoversTransitive(a, b, c.parent);
    }
  }

  /** Queue entries still to be looked at, with their depth below the scope the split started from. */
  type Pending = seq<(ScopeKey, nat)>

  ghost predicate InQueue(pending: Pending, scope: ScopeKey) {
    exists i :: 0 <= i < |pending| && pending[i].0 == scope
  }

  ghost predicate Queued(dir: Directory, start: ScopeKey, item: (ScopeKey, nat)) {
    Leaf(dir, item.0) && start.Covers(item.0) &&
    item.0.Depth() == start.Depth() + item.1 && item.1 < MAX_SCOPE_SPLIT_DEPTH
  }

  ghost predicate QueueOk(dir: Directory, start: ScopeKey, pending: Pending) {
    (forall i :: 0 <= i < |pending| ==> Queued(dir, start, pending[i])) &&
    (forall i, j :: 0 <= i < j < |pending| ==> pending[i].0 != pending[j].0)
  }

  /** Within the policy, or as deep below `start` as a split goes and still flagged. */
  predicate WithinPolicy(dir: Directory, start: ScopeKey, leaf: ScopeKey, policy: SplitPolicy)
    requires leaf in dir
  {
    dir[leaf].policy == policy &&
    (!dir[leaf].splitPending || leaf.Depth() == start.Depth() + MAX_SCOPE_SPLIT_DEPTH)
  }

  ghost predicate Settled(dir: Directory, start: ScopeKey, scope: ScopeKey, policy: SplitPolicy) {
    start.Covers(scope) && Leaf(dir, scope) ==> WithinPolicy(dir, start, scope, policy)
  }

  ghost predicate SubtreeSettled(dir: Directory, start: ScopeKey, policy: SplitPolicy) {
    forall s {:trigger Settled(dir, start, s, policy)} {:trigger DepthBound(dir, start, s)} ::
      Settled(dir, start, s, policy) && DepthBound(dir, start, s)
  }

  /** A split reaches 32 levels below the scope it starts from, and no further. */
  ghost predicate DepthBound(dir: Directory, start: ScopeKey, scope: ScopeKey) {
    start.Covers(scope) && scope in dir ==> scope.Depth() <= start.Depth() + MAX_SCOPE_SPLIT_DEPTH
  }

  /** A leaf below `start`, short of the deepest level of a split, holds at most one row or stays within the limits. */
  ghost predicate LeafFits(dir: Directory, scopes: Scopes, start: ScopeKey, leaf: ScopeKey, policy: SplitPolicy) {
    start.Covers(leaf) && leaf in dir && dir[leaf].children == [] && leaf.Depth() < start.Depth() + 32 ==>
      WithinLimits(|RowsAt(scopes, leaf)|, SumBytes(RowsAt(scopes, leaf)), policy)
  }

  ghost predicate LeavesFit(dir: Directory, scopes: Scopes, start: ScopeKey, policy: SplitPolicy) {
    forall leaf {:trigger LeafFits(dir, scopes, start, leaf, policy)} :: LeafFits(dir, scopes, start, leaf, policy)
  }

  lemma SettledLeavesFit(dir: Directory, scopes: Scopes, start: ScopeKey, policy: SplitPolicy)
    requires Accurate(dir, scopes) && SubtreeSettled(dir, start, policy)
    ensures LeavesFit(dir, scopes, start, policy)
  {
    forall leaf
      ensures LeafFits(dir, scopes, start, leaf, policy)
    {
      assert Settled(dir, start, leaf, policy);
      assert leaf in dir ==> EntryAccurate(dir[leaf], RowsAt(scopes, leaf));
    }
  }

  /** The rows of `scope` are with its children, each with the child its hash names. */
  ghost predicate DealtByHash(pl: Placement, before: Scopes, after: Scopes, scope: ScopeKey) {
    forall key, i: nat {:trigger key in RowsAt(after, Child(scope, i))} :: i < 2 ==>
      (key in RowsAt(after, Child(scope, i)) <==> key in RowsAt(before, scope) && pl.hash(scope, key) % 2 == i) &&
      (key in RowsAt(after, Child(scope, i)) ==>
         RowsAt(after, Child(scope, i))[key] == RowsAt(before, scope)[key])
  }

  lemma SplitDealsByHash(pl: Placement, before: Scopes, scope: ScopeKey, low: Rows, high: Rows, after: Scopes)
    requires HashedApart(pl, scope, RowsAt(before, scope), low, high) && SplitScopes(before, scope, low, high, after)
    ensures DealtByHash(pl, before, after, scope)
  {
  }

  ghost predicate SettledOrQueued(dir: Directory, start: ScopeKey, scope: ScopeKey, policy: SplitPolicy,
                                  pending: Pending)
  {
    Settled(dir, start, scope, policy) || InQueue(pending, scope)
  }

  /** A scope below `start` became an inner scope only because the rows that hash through it exceed the policy. */
  ghost predicate SplitForCause(pl: Placement, table: string, dir: Directory, model: Rows, start: ScopeKey,
                                scope: ScopeKey, policy: SplitPolicy)
  {
    start.Covers(scope) && scope in dir && dir[scope].children != [] ==>
      var rows := RowsThrough(pl, table, model, scope);
      !WithinLimits(|rows|, SumBytes(rows), policy)
  }

  ghost predicate Unchanged(dir: Directory, scopes: Scopes, dir': Directory, scopes': Scopes, scope: ScopeKey) {
    (scope in dir' <==> scope in dir) && (scope in dir ==> dir'[scope] == dir[scope]) &&
    RowsAt(scopes', scope) == RowsAt(scopes, scope)
  }

  /** Work left for a queue entry: a full binary tree down to the deepest level. */
  function Work(depth: nat): nat
    decreases MAX_SCOPE_SPLIT_DEPTH - depth
  {
    if depth >= MAX_SCOPE_SPLIT_DEPTH then 1 else 2 * Work(depth + 1) + 1
  }

  function TotalWork(pending: Pending): nat {
    if pending == [] then 0 else Work(pending[0].1) + TotalWork(pending[1..])
  }

  lemma {:induction false} TotalWorkAppend(a: Pending, b: Pending)
    ensures TotalWork(a + b) == TotalWork(a) + TotalWork(b)
  {
    if a == [] {
      assert a + b == b;
    } else {
      assert (a + b)[1..] == a[1..] + b;
      TotalWorkAppend(a[1..], b);
    }
  }

  function StillPending(dir: Directory, scope: ScopeKey, index: nat, depth: nat): seq<ScopeKey>
    requires Child(scope, index) in dir
  {
    if depth + 1 < MAX_SCOPE_SPLIT_DEPTH && dir[Child(scope, index)].splitPending then [Child(scope, index)] else []
  }

  /** What goes back into the queue: new children above the depth limit that hold too much. */
  ghost predicate QueuesOverfull(dir: Directory, scopes: Scopes, scope: ScopeKey, depth: nat, policy: SplitPolicy,
                                 queued: seq<ScopeKey>)
  {
    forall i: nat {:trigger Child(scope, i)} :: i < 2 ==>
      (Child(scope, i) in queued <==>
         scope in dir && dir[scope].children != [] && depth < 31 &&
         !WithinLimits(|RowsAt(scopes, Child(scope, i))|, SumBytes(RowsAt(scopes, Child(scope, i))), policy))
  }

  function WithDepth(queued: seq<ScopeKey>, depth: nat): Pending {
    seq(|queued|, i requires 0 <= i < |queued| => (queued[i], depth))
  }

  /** What one round of the work queue does to the directory. */
  ghost predicate Stepped(dir: Directory, dir': Directory, scope: ScopeKey, depth: nat, policy: SplitPolicy,
                          queued: seq<ScopeKey>)
  {
    var c0, c1 := Child(scope, 0), Child(scope, 1);
    (forall s :: s != scope && s != c0 && s != c1 ==> SameEntry(dir, dir', s)) &&
    scope in dir' && dir'[scope].policy == policy &&
    if dir'[scope].children == [] then
      queued == [] && SameEntry(dir, dir', c0) && SameEntry(dir, dir', c1) &&
      (!dir'[scope].splitPending || depth >= MAX_SCOPE_SPLIT_DEPTH)
    else
      depth < MAX_SCOPE_SPLIT_DEPTH && c0 !in dir && c1 !in dir &&
      Leaf(dir', c0) && dir'[c0].policy == policy && Leaf(dir', c1) && dir'[c1].policy == policy &&
      queued == StillPending(dir', scope, 0, depth) + StillPending(dir', scope, 1, depth)
  }

  ghost predicate SameEntry(dir: Directory, dir': Directory, scope: ScopeKey) {
    (scope in dir' <==> scope in dir) && (scope in dir ==> dir'[scope] == dir[scope])
  }

  lemma StepQueuesOverfull(dir: Directory, dir': Directory, scopes': Scopes, scope: ScopeKey, depth: nat,
                           policy: SplitPolicy, queued: seq<ScopeKey>)
    requires Stepped(dir, dir', scope, depth, policy, queued) && Accurate(dir', scopes')
    ensures QueuesOverfull(dir', scopes', scope, depth, policy, queued)
  {
    var c0, c1 := Child(scope, 0), Child(scope, 1);
    if dir'[scope].children != [] {
      assert EntryAccurate(dir'[c0], RowsAt(scopes', c0)) && EntryAccurate(dir'[c1], RowsAt(scopes', c1));
    }
  }

  lemma StepKeepsQueue(dir: Directory, dir': Directory, start: ScopeKey, policy: SplitPolicy, pending: Pending,
                       queued: seq<ScopeKey>)
    requires QueueOk(dir, start, pending) && pending != []
    requires Stepped(dir, dir', pending[0].0, pending[0].1, policy, queued)
    ensures QueueOk(dir', start, pending[1..] + WithDepth(queued, pending[0].1 + 1))
  {
    var (scope, depth) := pending[0];
    var pending' := pending[1..] + WithDepth(queued, depth + 1);
    forall i | 0 <= i < |pending|
      ensures pending[i].0 in dir
    {
      assert Queued(dir, start, pending[i]);
    }
    QueuedScopes(dir, dir', scope, depth, policy, queued);
    ItemsStayDistinct(dir, pending, queued, depth + 1);
    forall i | 0 <= i < |pending'|
      ensures Queued(dir', start, pending'[i])
    {
      if i < |pending| - 1 {
        OtherItemStays(dir, dir', start, policy, pending, queued, i + 1);
      } else {
        assert Queued(dir, start, pending[0]);
        AddedItem(dir, dir', start, policy, pending[0], queued, i - (|pending| - 1));
      }
    }
  }

  lemma QueuedScopes(dir: Directory, dir': Directory, scope: ScopeKey, depth: nat, policy: SplitPolicy,
                     queued: seq<ScopeKey>)
    requires Stepped(dir, dir', scope, depth, policy, queued)
    ensures forall i :: 0 <= i < |queued| ==> queued[i] !in dir
    ensures |queued| <= 1 || (|queued| == 2 && queued[0] != queued[1])
  {
  }

  /** The scope taken off the queue is worth more work than the children put back. */
  lemma StepTakesWork(dir: Directory, dir': Directory, start: ScopeKey, policy: SplitPolicy, pending: Pending,
                      queued: seq<ScopeKey>)
    requires pending != [] && Queued(dir, start, pending[0])
    requires Stepped(dir, dir', pending[0].0, pending[0].1, policy, queued)
    ensures TotalWork(pending[1..] + WithDepth(queued, pending[0].1 + 1)) < TotalWork(pending)
  {
    var depth := pending[0].1;
    QueuedScopes(dir, dir', pending[0].0, depth, policy, queued);
    TotalWorkAppend(pending[1..], WithDepth(queued, depth + 1));
    AddedWork(queued, depth + 1);
  }

  lemma ItemsStayDistinct(dir: Directory, pending: Pending, queued: seq<ScopeKey>, depth: nat)
    requires pending != [] && forall i, j :: 0 <= i < j < |pending| ==> pending[i].0 != pending[j].0
    requires forall i :: 0 <= i < |pending| ==> pending[i].0 in dir
    requires forall i :: 0 <= i < |queued| ==> queued[i] !in dir
    requires |queued| <= 1 || (|queued| == 2 && queued[0] != queued[1])
    ensures var pending' := pending[1..] + WithDepth(queued, depth);
            forall i, j :: 0 <= i < j < |pending'| ==> pending'[i].0 != pending'[j].0
  {
    var pending' := pending[1..] + WithDepth(queued, depth);
    forall i, j | 0 <= i < j < |pending'|
      ensures pending'[i].0 != pending'[j].0
    {
      var n := |pending| - 1;
      assert if i < n then pending'[i] == pending[i + 1] else pending'[i].0 == queued[i - n];
      assert if j < n then pending'[j] == pending[j + 1] else pending'[j].0 == queued[j - n];
    }
  }

  lemma StepKeepsEntries(dir: Directory, dir': Directory, scope: ScopeKey, depth: nat, policy: SplitPolicy,
                         queued: seq<ScopeKey>, entry: ScopeKey)
    requires Stepped(dir, dir', scope, depth, policy, queued) && entry in dir
    ensures entry in dir'
  {
    if entry != scope && entry != Child(scope, 0) && entry != Child(scope, 1) {
      assert SameEntry(dir, dir', entry);
    }
  }

  lemma OtherItemStays(dir: Directory, dir': Directory, start: ScopeKey, policy: SplitPolicy, pending: Pending,
                       queued: seq<ScopeKey>, i: nat)
    requires QueueOk(dir, start, pending) && 0 < i < |pending|
    requires Stepped(dir, dir', pending[0].0, pending[0].1, policy, queued)
    ensures Queued(dir', start, pending[i]) && pending[i].0 in dir
  {
    assert Queued(dir, start, pending[i]) && pending[0].0 != pending[i].0;
    assert SameEntry(dir, dir', pending[i].0);
  }

  lemma AddedItem(dir: Directory, dir': Directory, start: ScopeKey, policy: SplitPolicy, front: (ScopeKey, nat),
                  queued: seq<ScopeKey>, i: nat)
    requires Queued(dir, start, front) && Stepped(dir, dir', front.0, front.1, policy, queued) && i < |queued|
    ensures Queued(dir', start, WithDepth(queued, front.1 + 1)[i]) && queued[i] !in dir
  {
    assert queued[i] == Child(front.0, 0) || queued[i] == Child(front.0, 1);
  }

  lemma StepKeepsCause(pl: Placement, table: string, dir: Directory, scopes: Scopes, dir': Directory, model: Rows,
                       start: ScopeKey, scope: ScopeKey, depth: nat, policy: SplitPolicy, queued: seq<ScopeKey>,
                       s: ScopeKey)
    requires Consistent(pl, table, dir, scopes, model) && Leaf(dir, scope)
    requires Stepped(dir, dir', scope, depth, policy, queued)
    requires dir'[scope].children != [] ==>
               var rows := RowsAt(scopes, scope); !WithinLimits(|rows|, SumBytes(rows), policy)
    requires SplitForCause(pl, table, dir, model, start, s, policy)
    ensures SplitForCause(pl, table, dir', model, start, s, policy)
  {
    if s == scope {
      LeafHoldsRowsThrough(pl, table, dir, scopes, model, scope);
    } else if s != Child(scope, 0) && s != Child(scope, 1) {
      assert SameEntry(dir, dir', s);
    }
  }

  lemma StepKeepsCauses(pl: Placement, table: string, dir: Directory, scopes: Scopes, dir': Directory, model: Rows,
                        start: ScopeKey, scope: ScopeKey, depth: nat, policy: SplitPolicy, queued: seq<ScopeKey>)
    requires Consistent(pl, table, dir, scopes, model) && Leaf(dir, scope)
    requires Stepped(dir, dir', scope, depth, policy, queued)
    requires dir'[scope].children != [] ==>
               var rows := RowsAt(scopes, scope); !WithinLimits(|rows|, SumBytes(rows), policy)
    requires forall s :: SplitForCause(pl, table, dir, model, start, s, policy)
    ensures forall s :: SplitForCause(pl, table, dir', model, start, s, policy)
  {
    forall s
      ensures SplitForCause(pl, table, dir', model, start, s, policy)
    {
      assert SplitForCause(pl, table, dir, model, start, s, policy);
      StepKeepsCause(pl, table, dir, scopes, dir', model, start, scope, depth, policy, queued, s);
    }
  }

  ghost predicate SplitInvariant(pl: Placement, table: string, dir: Directory, model: Rows, start: ScopeKey,
                                 policy: SplitPolicy, pending: Pending)
  {
    start in dir && QueueOk(dir, start, pending) && (forall s :: DepthBound(dir, start, s)) &&
    (forall s :: SettledOrQueued(dir, start, s, policy, pending)) &&
    (forall s :: SplitForCause(pl, table, dir, model, start, s, policy))
  }

  lemma StepKeepsDepth(dir: Directory, dir': Directory, start: ScopeKey, policy: SplitPolicy, pending: Pending,
                       queued: seq<ScopeKey>)
    requires QueueOk(dir, start, pending) && pending != [] && forall s :: DepthBound(dir, start, s)
    requires Stepped(dir, dir', pending[0].0, pending[0].1, policy, queued)
    ensures forall s :: DepthBound(dir', start, s)
  {
    assert Queued(dir, start, pending[0]);
    forall s
      ensures DepthBound(dir', start, s)
    {
      assert DepthBound(dir, start, s);
      if s != pending[0].0 && s != Child(pending[0].0, 0) && s != Child(pending[0].0, 1) {
        assert SameEntry(dir, dir', s);
      }
    }
  }

  lemma StepKeepsInvariant(pl: Placement, table: string, dir: Directory, scopes: Scopes, dir': Directory, model: Rows,
                           start: ScopeKey, policy: SplitPolicy, pending: Pending, queued: seq<ScopeKey>)
    requires Consistent(pl, table, dir, scopes, model)
    requires SplitInvariant(pl, table, dir, model, start, policy, pending) && pending != []
    requires Stepped(dir, dir', pending[0].0, pending[0].1, policy, queued)
    requires dir'[pending[0].0].children != [] ==>
               var rows := RowsAt(scopes, pending[0].0); !WithinLimits(|rows|, SumBytes(rows), policy)
    ensures var pending' := pending[1..] + WithDepth(queued, pending[0].1 + 1);
            SplitInvariant(pl, table, dir', model, start, policy, pending') && TotalWork(pending') < TotalWork(pending)
  {
    var (scope, depth) := pending[0];
    assert Queued(dir, start, pending[0]);
    StepKeepsQueue(dir, dir', start, policy, pending, queued);
    StepKeepsDepth(dir, dir', start, policy, pending, queued);
    StepTakesWork(dir, dir', start, policy, pending, queued);
    StepKeepsEntries(dir, dir', scope, depth, policy, queued, start);
    StepKeepsAllSettled(dir, dir', start, policy, pending, queued);
    StepKeepsCauses(pl, table, dir, scopes, dir', model, start, scope, depth, policy, queued);
  }

  /** Nothing outside the subtree of `start` is touched. */
  ghost predicate OnlyBelow(dir: Directory, scopes: Scopes, dir': Directory, scopes': Scopes, start: ScopeKey) {
    forall s :: !start.Covers(s) ==> Unchanged(dir, scopes, dir', scopes', s)
  }

  lemma OnlyBelowKeepsEntries(dir: Directory, scopes: Scopes, dir': Directory, scopes': Scopes, start: ScopeKey,
                              table: string)
    requires TreeOk(dir, table) && Leaf(dir, start) && start in dir' && OnlyBelow(dir, scopes, dir', scopes', start)
    ensures dir.Keys <= dir'.Keys && forall s :: s in dir' && s !in dir ==> start.Covers(s)
  {
    forall s | s in dir
      ensures s in dir'
    {
      if start.Covers(s) {
        LeafCoversOnlyItself(dir, table, start, s);
      } else {
        assert Unchanged(dir, scopes, dir', scopes', s);
      }
    }
    forall s | s in dir' && s !in dir
      ensures start.Covers(s)
    {
      assert !start.Covers(s) ==> Unchanged(dir, scopes, dir', scopes', s);
    }
  }

  lemma OnlyBelowStep(dir: Directory, scopes: Scopes, dir1: Directory, scopes1: Scopes, dir2: Directory,
                      scopes2: Scopes, start: ScopeKey, scope: ScopeKey, depth: nat, policy: SplitPolicy,
                      queued: seq<ScopeKey>)
    requires OnlyBelow(dir, scopes, dir1, scopes1, start) && start.Covers(scope)
    requires Stepped(dir1, dir2, scope, depth, policy, queued)
    requires forall s :: s != scope && s != Child(scope, 0) && s != Child(scope, 1) ==>
               RowsAt(scopes2, s) == RowsAt(scopes1, s)
    ensures OnlyBelow(dir, scopes, dir2, scopes2, start)
  {
    forall s | !start.Covers(s)
      ensures Unchanged(dir, scopes, dir2, scopes2, s)
    {
      assert Unchanged(dir, scopes, dir1, scopes1, s);
      assert s != scope && s != Child(scope, 0) && s != Child(scope, 1);
      assert SameEntry(dir1, dir2, s);
    }
  }

  lemma AddedWork(queued: seq<ScopeKey>, depth: nat)
    requires |queued| <= 2
    ensures TotalWork(WithDepth(queued, depth)) <= 2 * Work(depth)
  {
    var added := WithDepth(queued, depth);
    if |queued| > 0 {
      var rest: Pending := added[1..];
      assert TotalWork(added) == Work(depth) + TotalWork(rest);
      if |queued| == 2 {
        assert rest[0].1 == depth && |rest[1..]| == 0;
      }
    }
  }

  lemma StepKeepsSettled(dir: Directory, dir': Directory, start: ScopeKey, policy: SplitPolicy, pending: Pending,
                         queued: seq<ScopeKey>, scope: ScopeKey)
    requires QueueOk(dir, start, pending) && pending != []
    requires Stepped(dir, dir', pending[0].0, pending[0].1, policy, queued)
    requires SettledOrQueued(dir, start, scope, policy, pending)
    ensures SettledOrQueued(dir', start, scope, policy, pending[1..] + WithDepth(queued, pending[0].1 + 1))
  {
    var (front, depth) := pending[0];
    var added := WithDepth(queued, depth + 1);
    var pending' := pending[1..] + added;
    assert Queued(dir, start, pending[0]);
    if scope == front {
    } else if (scope == Child(front, 0) || scope == Child(front, 1)) && dir'[front].children != [] {
      if scope in queued {
        var i :| 0 <= i < |queued| && queued[i] == scope;
        assert pending'[|pending| - 1 + i].0 == scope;
      }
    } else {
      assert SameEntry(dir, dir', scope);
      if InQueue(pending, scope) {
        var i :| 0 <= i < |pending| && pending[i].0 == scope;
        assert pending'[i - 1].0 == scope;
      }
    }
  }

  lemma StepKeepsAllSettled(dir: Directory, dir': Directory, start: ScopeKey, policy: SplitPolicy, pending: Pending,
                            queued: seq<ScopeKey>)
    requires QueueOk(dir, start, pending) && pending != []
    requires Stepped(dir, dir', pending[0].0, pending[0].1, policy, queued)
    requires forall s :: SettledOrQueued(dir, start, s, policy, pending)
    ensures var pending' := pending[1..] + WithDepth(queued, pending[0].1 + 1);
            forall s :: SettledOrQueued(dir', start, s, policy, pending')
  {
    var pending' := pending[1..] + WithDepth(queued, pending[0].1 + 1);
    forall s
      ensures SettledOrQueued(dir', start, s, policy, pending')
    {
      assert SettledOrQueued(dir, start, s, policy, pending);
      StepKeepsSettled(dir, dir', start, policy, pending, queued, s);
    }
  }

  lemma EmptyQueueIsSettled(pl: Placement, table: string, dir: Directory, model: Rows, start: ScopeKey,
                            policy: SplitPolicy)
    requires SplitInvariant(pl, table, dir, model, start, policy, [])
    ensures SubtreeSettled(dir, start, policy)
  {
    forall s
      ensures Settled(dir, start, s, policy) && DepthBound(dir, start, s)
    {
      assert SettledOrQueued(dir, start, s, policy, []);
    }
  }

  class TableScopes {
    const table: string
    const placement: Placement
    var directory: Directory
    var scopes: Scopes
    ghost var model: Rows

    ghost predicate Valid()
      reads this
    {
      Consistent(placement, table, directory, scopes, model) && scopes.Keys <= directory.Keys
    }

    constructor (table: string, placement: Placement)
      ensures Valid() && this.table == table && this.placement == placement
      ensures directory == map[] && scopes == map[] && model == map[]
    {
      this.table, this.placement := table, placement;
      directory, scopes, model := map[], map[], map[];
    }

    method RouteRecordScopeKey(scope: ScopeKey, key: string) returns (routed: ScopeKey)
      ensures routed == Route(placement, directory, scope, key)
    {
      routed := scope;
      for hop := 0 to MAX_SCOPE_SPLIT_DEPTH + 1
        invariant RouteFrom(placement, directory, routed, key, MAX_SCOPE_SPLIT_DEPTH + 1 - hop)
               == Route(placement, directory, scope, key)
      {
        if routed !in directory || directory[routed].children == [] {
          return;
        }
        var children := directory[routed].children;
        var child := children[ChildIndex(placement, routed, key, |children|)];
        if child == routed {
          return;
        }
        routed := child;
      }
    }

    method RouteRows(scope: ScopeKey, rows: seq<Record>) returns (routed: map<ScopeKey, seq<Record>>)
      ensures forall s :: GroupOk(RouteOf(placement, directory, scope), rows, routed, s)
    {
      routed := map[];
      ghost var route := RouteOf(placement, directory, scope);
      for i := 0 to |rows|
        invariant forall s :: GroupOk(route, rows[..i], routed, s)
      {
        var home := RouteRecordScopeKey(scope, rows[i].key);
        ghost var before := routed;
        routed := routed[home := (if home in routed then routed[home] else []) + [rows[i]]];
        ghost var upTo := rows[..i + 1];
        assert upTo == rows[..i] + [rows[i]];
        forall s
          ensures GroupOk(route, upTo, routed, s)
        {
          assert GroupOk(route, rows[..i], before, s);
          RoutedToAppend(route, rows[..i], rows[i], s);
        }
      }
      assert rows[..|rows|] == rows;
    }

    /** The scope actor's rows after a batch, stored row by row. */
    method WithEach(rows: Rows, batch: seq<Record>) returns (stored: Rows)
      ensures stored == rows + LastRows(batch)
    {
      stored := rows;
      for i := 0 to |batch|
        invariant stored == rows + LastRows(batch[..i])
      {
        assert batch[..i + 1] == batch[..i] + [batch[i]];
        LastRowsAppend(batch[..i], batch[i]);
        AddOneMore(rows, LastRows(batch[..i]), batch[i]);
        stored := stored[batch[i].key := batch[i]];
      }
      assert batch[..|batch|] == batch;
    }

    method UpsertRows(scope: ScopeKey, batch: seq<Record>)
      modifies this`scopes
      ensures Merged(old(scopes), scopes, scope, LastRows(batch)) && scopes.Keys == old(scopes).Keys + {scope}
    {
      var stored := WithEach(RowsAt(scopes, scope), batch);
      scopes := scopes[scope := stored];
    }

    method StoreRows(scope: ScopeKey, rows: Rows)
      modifies this`scopes
      ensures Merged(old(scopes), scopes, scope, rows) && scopes.Keys == old(scopes).Keys + {scope}
    {
      scopes := scopes[scope := RowsAt(scopes, scope) + rows];
    }

    method DrainRows(scope: ScopeKey) returns (rows: Rows)
      modifies this`scopes
      ensures rows == RowsAt(old(scopes), scope)
      ensures RowsAt(scopes, scope) == map[] && scopes.Keys == old(scopes).Keys
      ensures forall s :: s != scope ==> RowsAt(scopes, s) == RowsAt(old(scopes), s)
    {
      rows := RowsAt(scopes, scope);
      if scope in scopes {
        scopes := scopes[scope := map[]];
      }
    }

    /** The table actor records a leaf scope and says whether it has to split. */
    method UpsertScope(scope: ScopeKey, rows: nat, bytes: nat, policy: SplitPolicy, now: nat) returns (pending: bool)
      modifies this`directory
      ensures directory == old(directory)[scope := LeafEntry(rows, bytes, policy, now)]
      ensures pending == !WithinLimits(rows, bytes, policy)
      ensures pending <==> rows > 1 && (0 < policy.rows < rows || 0 < policy.bytes < bytes)
      ensures Leaf(directory, scope) && forall s :: s != scope ==> SameEntry(old(directory), directory, s)
      ensures forall t :: Due(directory, scope, t) <==> pending && now <= t && scope.Depth() < MAX_SCOPE_SPLIT_DEPTH
    {
      pending := Exceeds(rows, bytes, policy);
      directory := directory[scope := Entry(rows, bytes, pending, policy, if pending then now else 0, [])];
    }

    method HashApart(scope: ScopeKey, rows: Rows) returns (low: Rows, high: Rows)
      ensures HashedApart(placement, scope, rows, low, high)
    {
      low, high := map[], map[];
      var rest := rows.Keys;
      while rest != {}
        invariant rest <= rows.Keys
        invariant low == map k | k in rows && k !in rest && ChildIndex(placement, scope, k, 2) == 0 :: rows[k]
        invariant high == map k | k in rows && k !in rest && ChildIndex(placement, scope, k, 2) != 0 :: rows[k]
      {
        var key :| key in rest;
        if ChildIndex(placement, scope, key, 2) == 0 {
          low := low[key := rows[key]];
        } else {
          high := high[key := rows[key]];
        }
        rest := rest - {key};
      }
    }

    /** The table actor replaces a leaf by an inner scope with two leaves. */
    method SplitScope(scope: ScopeKey, policy: SplitPolicy, lowRows: nat, lowBytes: nat, highRows: nat, highBytes: nat,
                      now: nat)
      modifies this`directory
      ensures directory == SplitDirectory(old(directory), scope, policy,
                LeafEntry(lowRows, lowBytes, policy, now), LeafEntry(highRows, highBytes, policy, now))
      ensures directory[scope] == Entry(0, 0, false, policy, 0, [Child(scope, 0), Child(scope, 1)])
      ensures Leaf(directory, Child(scope, 0)) && Leaf(directory, Child(scope, 1))
      ensures forall t :: Due(directory, Child(scope, 0), t) <==>
                !WithinLimits(lowRows, lowBytes, policy) && now <= t && scope.Depth() + 1 < MAX_SCOPE_SPLIT_DEPTH
      ensures forall t :: Due(directory, Child(scope, 1), t) <==>
                !WithinLimits(highRows, highBytes, policy) && now <= t && scope.Depth() + 1 < MAX_SCOPE_SPLIT_DEPTH
    {
      ChildDiffers(scope, 0);
      ChildDiffers(scope, 1);
      directory := directory[scope := InnerEntry(scope, policy)];
      directory := directory[Child(scope, 0) := LeafEntry(lowRows, lowBytes, policy, now)];
      directory := directory[Child(scope, 1) := LeafEntry(highRows, highBytes, policy, now)];
    }

    /** Nothing to split: the drained rows go back and the leaf is recorded again. */
    method RestoreScope(scope: ScopeKey, rows: Rows, bytes: nat, policy: SplitPolicy, now: nat, ghost before: Scopes)
      requires Consistent(placement, table, directory, before, model) && Leaf(directory, scope)
      requires rows == RowsAt(before, scope) && bytes == SumBytes(rows)
      requires RowsAt(scopes, scope) == map[] && forall s :: s != scope ==> RowsAt(scopes, s) == RowsAt(before, s)
      requires scopes.Keys <= directory.Keys
      modifies this`directory, this`scopes
      ensures Valid()
      ensures directory == old(directory)[scope := LeafEntry(|rows|, bytes, policy, now)]
      ensures forall s :: RowsAt(scopes, s) == RowsAt(before, s)
    {
      StoreRows(scope, rows);
      assert map[] + rows == rows && rows + map[] == rows && model + map[] == model;
      var pending := UpsertScope(scope, |rows|, bytes, policy, now);
      UpsertLeafKeepsConsistent(placement, table, old(directory), before, model, scope, map[], directory[scope],
                                scopes);
    }

    /** Too many rows: the children get them by hash, and the directory is told. */
    method MoveToChildren(scope: ScopeKey, rows: Rows, policy: SplitPolicy, now: nat, ghost before: Scopes)
      returns (low: Entry, high: Entry)
      requires Consistent(placement, table, directory, before, model) && Leaf(directory, scope)
      requires rows == RowsAt(before, scope)
      requires RowsAt(scopes, scope) == map[] && forall s :: s != scope ==> RowsAt(scopes, s) == RowsAt(before, s)
      requires scopes.Keys <= directory.Keys
      modifies this`directory, this`scopes
      ensures Valid() && Child(scope, 0) !in old(directory) && Child(scope, 1) !in old(directory)
      ensures low.children == [] && high.children == [] && low.policy == policy && high.policy == policy
      ensures directory == SplitDirectory(old(directory), scope, policy, low, high)
      ensures DealtByHash(placement, before, scopes, scope)
      ensures forall s :: s != scope && s != Child(scope, 0) && s != Child(scope, 1) ==>
                RowsAt(scopes, s) == RowsAt(before, s)
    {
      var lowRows, highRows := HashApart(scope, rows);
      LeafHasNoChildEntries(directory, table, scope);
      AbsentScopeIsEmpty(placement, table, directory, before, model, Child(scope, 0));
      AbsentScopeIsEmpty(placement, table, directory, before, model, Child(scope, 1));
      HandOut(scope, lowRows, highRows, before);
      var lowBytes := EstimatedBytes(lowRows);
      var highBytes := EstimatedBytes(highRows);
      low, high := LeafEntry(|lowRows|, lowBytes, policy, now), LeafEntry(|highRows|, highBytes, policy, now);
      SplitScope(scope, policy, |lowRows|, lowBytes, |highRows|, highBytes, now);
      SplitLeafKeepsConsistent(placement, table, old(directory), before, model, scope, lowRows, highRows, policy,
                               low, high, scopes);
      SplitDealsByHash(placement, before, scope, lowRows, highRows, scopes);
    }

    method HandOut(scope: ScopeKey, low: Rows, high: Rows, ghost before: Scopes)
      requires RowsAt(scopes, scope) == map[] && forall s :: s != scope ==> RowsAt(scopes, s) == RowsAt(before, s)
      requires RowsAt(before, Child(scope, 0)) == map[] && RowsAt(before, Child(scope, 1)) == map[]
      modifies this`scopes
      ensures SplitScopes(before, scope, low, high, scopes)
      ensures scopes.Keys <= old(scopes).Keys + {Child(scope, 0), Child(scope, 1)}
    {
      assert map[] + low == low && map[] + high == high;
      ChildDiffers(scope, 0);
      ChildDiffers(scope, 1);
      if low != map[] {
        StoreRows(Child(scope, 0), low);
      }
      if high != map[] {
        StoreRows(Child(scope, 1), high);
      }
    }

    /** One round of the work queue for the scope at its front; the children still to be split come back. */
    method SplitStep(scope: ScopeKey, depth: nat, policy: SplitPolicy, now: nat) returns (queued: seq<ScopeKey>)
      requires Valid() && Leaf(directory, scope)
      modifies this`directory, this`scopes
      ensures Valid()
      ensures Stepped(old(directory), directory, scope, depth, policy, queued)
      ensures forall s :: s != scope && s != Child(scope, 0) && s != Child(scope, 1)
                ==> RowsAt(scopes, s) == RowsAt(old(scopes), s)
      ensures directory[scope].children != [] ==>
                var rows := RowsAt(old(scopes), scope); !WithinLimits(|rows|, SumBytes(rows), policy)
      ensures directory[scope].children != [] ==> DealtByHash(placement, old(scopes), scopes, scope)
      ensures QueuesOverfull(directory, scopes, scope, depth, policy, queued)
    {
      var rows := DrainRows(scope);
      var bytes := EstimatedBytes(rows);
      ChildDiffers(scope, 0);
      ChildDiffers(scope, 1);
      if rows == map[] || depth >= MAX_SCOPE_SPLIT_DEPTH || !Exceeds(|rows|, bytes, policy) {
        RestoreScope(scope, rows, bytes, policy, now, old(scopes));
        queued := [];
        StepQueuesOverfull(old(directory), directory, scopes, scope, depth, policy, queued);
        return;
      }
      var low, high := MoveToChildren(scope, rows, policy, now, old(scopes));
      queued := StillPending(directory, scope, 0, depth) + StillPending(directory, scope, 1, depth);
      StepQueuesOverfull(old(directory), directory, scopes, scope, depth, policy, queued);
    }

    /** The work queue: split `start`, then its overfull children, and so on, at most 32 levels down. */
    method SplitScopeRows(start: ScopeKey, policy: SplitPolicy)
      requires Valid() && Leaf(directory, start)
      modifies this`directory, this`scopes
      ensures Valid() && start in directory
      ensures OnlyBelow(old(directory), old(scopes), directory, scopes, start)
      ensures SplitDone(placement, table, old(directory), directory, model, start, policy)
      ensures LeavesFit(directory, scopes, start, policy) && RowsHashIn(placement, table, scopes)
      ensures Shallow(old(directory)) ==> (Shallow(directory) <==> Harmless(placement, table, model, start, policy))
    {
      var pending: Pending := [(start, 0)];
      StartOfSplit(placement, table, directory, model, start, policy, pending);
      while pending != []
        invariant Valid() && SplitInvariant(placement, table, directory, model, start, policy, pending)
        invariant OnlyBelow(old(directory), old(scopes), directory, scopes, start)
        decreases TotalWork(pending)
      {
        var (scope, depth) := pending[0];
        ghost var dir0, scopes0 := directory, scopes;
        assert Queued(directory, start, pending[0]);
        var now: nat := *;
        var queued := SplitStep(scope, depth, policy, now);
        StepKeepsInvariant(placement, table, dir0, scopes0, directory, model, start, policy, pending, queued);
        OnlyBelowStep(old(directory), old(scopes), dir0, scopes0, directory, scopes, start, scope, depth, policy,
                      queued);
        pending := pending[1..] + WithDepth(queued, depth + 1);
      }
      EndOfSplit(placement, table, old(directory), old(scopes), directory, scopes, model, start, policy);
    }

    /** The table actor records a scope whose actor has just taken in `rows`. */
    method RecordScope(scope: ScopeKey, policy: SplitPolicy, now: nat, ghost rows: Rows, ghost before: Scopes)
      returns (pending: bool)
      requires Consistent(placement, table, directory, before, model) && Target(directory, table, scope)
      requires Merged(before, scopes, scope, rows) && scopes.Keys <= directory.Keys + {scope}
      requires forall k :: k in rows ==> rows[k].key == k && OnPath(placement, table, scope, k)
      modifies this`directory, this`model
      ensures Valid() && model == old(model) + rows
      ensures Leaf(directory, scope) && forall s :: s != scope ==> SameEntry(old(directory), directory, s)
      ensures pending == directory[scope].splitPending && directory[scope].policy == policy
    {
      var stored := RowsAt(scopes, scope);
      var bytes := EstimatedBytes(stored);
      pending := UpsertScope(scope, |stored|, bytes, policy, now);
      UpsertLeafKeepsConsistent(placement, table, old(directory), before, model, scope, rows, directory[scope], scopes);
      model := model + rows;
    }

    /** One routed group of a batch: the scope actor stores it, the table actor records the scope. */
    method StoreGroup(scope: ScopeKey, batch: seq<Record>, policy: SplitPolicy, now: nat) returns (pending: bool)
      requires Valid() && Target(directory, table, scope)
      requires KeysHashTo(placement, table, scope, LastRows(batch))
      modifies this
      ensures Valid() && model == old(model) + LastRows(batch)
      ensures Leaf(directory, scope) && forall s :: s != scope ==> SameEntry(old(directory), directory, s)
      ensures pending == directory[scope].splitPending && directory[scope].policy == policy
    {
      UpsertRows(scope, batch);
      pending := RecordScope(scope, policy, now, LastRows(batch), old(scopes));
    }

    method UpsertGroup(scope: ScopeKey, batch: seq<Record>, policy: SplitPolicy)
      requires Valid() && Target(directory, table, scope)
      requires KeysHashTo(placement, table, scope, LastRows(batch))
      modifies this
      ensures Valid() && model == old(model) + LastRows(batch)
      ensures forall s :: s != scope && Target(old(directory), table, s) ==> Target(directory, table, s)
      ensures old(directory).Keys <= directory.Keys
      ensures SubtreeSettled(directory, scope, policy) && StaysOutside(old(directory), directory, scope)
      ensures Shallow(old(directory)) ==> (Shallow(directory) <==> Harmless(placement, table, model, scope, policy))
    {
      var now: nat := *;
      var pending := StoreGroup(scope, batch, policy, now);
      ghost var stored := directory;
      StoringKeepsShallow(old(directory), stored, table, scope);
      if pending {
        ghost var held := scopes;
        SplitScopeRows(scope, policy);
        BelowStaysOutside(stored, held, directory, scopes, scope);
      } else {
        UnflaggedIsHarmless(placement, table, directory, scopes, model, scope, policy);
        UnflaggedIsSettled(directory, table, scope, policy);
      }
      StoredThenBelow(old(directory), stored, directory, scope);
      forall s | s != scope && Target(old(directory), table, s)
        ensures Target(directory, table, s)
      {
        assert SameEntry(old(directory), stored, s);
        OtherTargetsStay(stored, table, scope, s);
      }
    }

    /** Route a batch of rows of one partition, store each group, and split the scopes that became too big. */
    method UpsertScopeRows(partition: string, batch: seq<Record>, policy: SplitPolicy)
      requires Valid() && Shallow(directory)
      requires forall i :: 0 <= i < |batch| ==> placement.partition(table, batch[i].key) == partition
      modifies this
      ensures Valid() && model == old(model) + LastRows(batch)
      ensures old(directory).Keys <= directory.Keys
      ensures BatchSettled(placement, table, old(directory), directory, batch, policy)
      ensures BatchFits(placement, table, old(directory), directory, scopes, batch, policy)
      ensures RowsHashIn(placement, table, scopes)
      ensures Shallow(directory) <==> BatchIsHarmless(placement, table, old(directory), model, batch, policy)
    {
      var base := Base(table, partition);
      var routed := RouteRows(base, batch);
      GroupsAreReady(placement, table, directory, base, batch, routed);
      EveryRowRouted(RouteOf(placement, directory, base), batch, routed);
      assert model + map[] == model;
      var todo := routed.Keys;
      while todo != {}
        invariant Valid()
        invariant TakenSoFar(placement, table, old(directory), directory, base, batch, routed.Keys, todo, old(model),
                             model, policy)
      {
        var scope :| scope in todo;
        ghost var before, rows := directory, model;
        assert GroupReady(placement, table, routed, scope);
        UpsertGroup(scope, routed[scope], policy);
        TakeOneMore(placement, table, old(directory), before, directory, base, batch, routed, todo, scope, old(model),
                    rows, model, policy);
        todo := todo - {scope};
      }
      AllTaken(placement, table, old(directory), directory, base, batch, routed, old(model), model, policy);
      SettledBatchFits(placement, table, old(directory), directory, scopes, batch, policy);
      ResidentRowsHashIn(placement, table, directory, scopes, model);
    }

    /** The scopes the sweep picks: flagged leaves above the depth limit whose reminder has come. */
    method PendingScopes(limit: nat, now: nat) returns (due: seq<ScopeKey>)
      ensures |due| <= limit
      ensures forall s :: s in due ==> Due(directory, s, now)
      ensures forall i, j :: 0 <= i < j < |due| ==> due[i] != due[j]
      ensures |due| < limit ==> forall s :: Due(directory, s, now) ==> s in due
    {
      due := [];
      var rest := directory.Keys;
      while rest != {} && |due| < limit
        invariant rest <= directory.Keys && |due| <= limit
        invariant forall s :: s in due ==> Due(directory, s, now) && s !in rest
        invariant forall i, j :: 0 <= i < j < |due| ==> due[i] != due[j]
        invariant forall s :: Due(directory, s, now) ==> s in due || s in rest
        decreases rest
      {
        var scope :| scope in rest;
        rest := rest - {scope};
        if Due(directory, scope, now) {
          due := due + [scope];
        }
      }
    }

    /** The maintenance sweep: split up to `limit` flagged scopes. No row moves out of the table or is duplicated. */
    method SplitPendingScopes(limit: nat, policy: SplitPolicy, now: nat) returns (processed: nat)
      requires Valid()
      modifies this`directory, this`scopes
      ensures Valid() && processed <= limit
      ensures processed < limit ==>
                forall s, t :: Due(old(directory), s, now) ==> Settled(directory, s, t, policy)
      ensures processed < limit ==> DueFit(old(directory), directory, scopes, policy, now)
      ensures Shallow(old(directory)) && SweepIsHarmless(placement, table, old(directory), model, policy, now) ==>
                Shallow(directory)
      ensures Shallow(old(directory)) && processed < limit ==>
                (Shallow(directory) <==> SweepIsHarmless(placement, table, old(directory), model, policy, now))
    {
      if limit == 0 {
        return 0;
      }
      var due := PendingScopes(limit, now);
      AllDue(directory, due, now);
      processed := 0;
      while processed < |due|
        invariant processed <= |due| && Valid()
        invariant SweptSoFar(placement, table, old(directory), directory, model, due, processed, policy)
      {
        ghost var dir0, scopes0 := directory, scopes;
        SplitScopeRows(due[processed], policy);
        BelowStaysOutside(dir0, scopes0, directory, scopes, due[processed]);
        SweptOneMore(placement, table, old(directory), dir0, directory, model, due, processed, policy);
        processed := processed + 1;
      }
      AllSwept(placement, table, old(directory), directory, scopes, model, due, policy, now);
    }

    method Perform(operation: Operation)
      requires Valid() && Shallow(directory) && OperationFits(placement, table, ModelAfter(model, operation), operation)
      modifies this
      ensures Valid() && Shallow(directory) && model == ModelAfter(old(model), operation)
    {
      FittingIsHarmless(placement, table, ModelAfter(model, operation), operation.policy);
      match operation {
        case Upsert(partition, batch, policy) =>
          UpsertScopeRows(partition, batch, policy);
        case Sweep(limit, policy, now) =>
          var _ := SplitPendingScopes(limit, policy, now);
      }
    }

    /** Any run of upserts and sweeps, as long as no scope at the routing limit ever has too many rows. */
    method RunOperations(operations: seq<Operation>)
      requires Valid() && Shallow(directory) && RunFits(placement, table, model, operations)
      modifies this
      ensures Valid() && Shallow(directory) && model == old(model) + LastRows(Upserts(operations))
      ensures forall key :: AtHome(placement, table, directory, scopes, model, key)
    {
      for i := 0 to |operations|
        invariant Valid() && Shallow(directory) && model == ModelAfterAll(old(model), operations[..i])
      {
        assert operations[..i + 1][..i] == operations[..i];
        assert OperationFits(placement, table, ModelAfterAll(old(model), operations[..i + 1]), operations[i]);
        Perform(operations[i]);
      }
      assert operations[..|operations|] == operations;
      RunKeepsLastUpserts(old(model), operations);
      forall key
        ensures AtHome(placement, table, directory, scopes, model, key)
      {
        ResidentRowIsWhereItRoutes(placement, table, directory, scopes, model, key);
      }
    }
  }

  // ---------------------------------------------------------------- when the tree stays within reach

  /** Some scope at the routing limit below `start` has too many rows for the policy. */
  ghost predicate DeepExcess(pl: Placement, table: string, model: Rows, start: ScopeKey, policy: SplitPolicy) {
    exists s: ScopeKey :: start.Covers(s) && ExceedsAtLimit(pl, table, model, s, policy)
  }

  ghost predicate ExceedsAtLimit(pl: Placement, table: string, model: Rows, scope: ScopeKey, policy: SplitPolicy) {
    scope.Depth() == MAX_SCOPE_SPLIT_DEPTH + 1 &&
    !WithinLimits(|RowsThrough(pl, table, model, scope)|, SumBytes(RowsThrough(pl, table, model, scope)), policy)
  }

  /** Splitting `start` leaves every leaf within the router's reach. */
  ghost predicate Harmless(pl: Placement, table: string, model: Rows, start: ScopeKey, policy: SplitPolicy) {
    start.Depth() <= 1 || !DeepExcess(pl, table, model, start, policy)
  }

  lemma {:induction false} CoversIsDeeper(a: ScopeKey, b: ScopeKey)
    requires a.Covers(b)
    ensures a.Depth() <= b.Depth() && (a.Depth() == b.Depth() ==> a == b)
    decreases b
  {
    if a != b {
      CoversIsDeeper(a, b.parent);
    }
  }

  /** A scope below the limit has an inner ancestor at the limit. */
  lemma {:induction false} AncestorAtLimit(dir: Directory, table: string, scope: ScopeKey, limit: nat)
    returns (above: ScopeKey)
    requires TreeOk(dir, table) && scope in dir && scope.Depth() > limit
    ensures above in dir && above.Depth() == limit && above.Covers(scope) && dir[above].children != []
    decreases scope
  {
    assert NodeOk(dir, table, scope);
    if scope.Depth() == limit + 1 {
      above := scope.parent;
    } else {
      above := AncestorAtLimit(dir, table, scope.parent, limit);
    }
  }

  lemma {:induction false} OnPathAbove(pl: Placement, table: string, above: ScopeKey, scope: ScopeKey, key: string)
    requires above.Covers(scope) && OnPath(pl, table, scope, key)
    ensures OnPath(pl, table, above, key)
    decreases scope
  {
    if above != scope {
      assert scope.Depth() == scope.parent.Depth() + 1;
      OnPathAbove(pl, table, above, scope.parent, key);
    }
  }

  lemma {:induction false} PathCovers(pl: Placement, table: string, a: ScopeKey, b: ScopeKey, key: string)
    requires OnPath(pl, table, a, key) && OnPath(pl, table, b, key) && a.Depth() <= b.Depth()
    ensures a.Covers(b)
    decreases b
  {
    if a.Depth() < b.Depth() {
      assert b.parent == PathOf(pl, table, key, b.Depth() - 1);
      PathCovers(pl, table, a, b.parent, key);
    }
  }

  lemma {:induction false} SumBytesGrows(part: Rows, whole: Rows)
    requires part.Keys <= whole.Keys && forall k :: k in part ==> part[k] == whole[k]
    ensures SumBytes(part) <= SumBytes(whole) && |part| <= |whole|
    decreases |part|
  {
    if part != map[] {
      var key :| key in part.Keys;
      SumBytesRemove(part, key);
      SumBytesRemove(whole, key);
      assert (part - {key}).Keys == part.Keys - {key} && (whole - {key}).Keys == whole.Keys - {key};
      SumBytesGrows(part - {key}, whole - {key});
    }
  }

  /** What is too much for a scope is too much for every scope above it. */
  lemma ExcessRises(pl: Placement, table: string, model: Rows, above: ScopeKey, scope: ScopeKey, policy: SplitPolicy)
    requires above.Covers(scope)
    requires var rows := RowsThrough(pl, table, model, scope); !WithinLimits(|rows|, SumBytes(rows), policy)
    ensures var rows := RowsThrough(pl, table, model, above); !WithinLimits(|rows|, SumBytes(rows), policy)
  {
    var part, whole := RowsThrough(pl, table, model, scope), RowsThrough(pl, table, model, above);
    forall k | k in part
      ensures k in whole
    {
      OnPathAbove(pl, table, above, scope, k);
    }
    SumBytesGrows(part, whole);
  }

  /** What a split from `start` has done when its queue is empty. */
  ghost predicate SplitDone(pl: Placement, table: string, dir: Directory, dir': Directory, model: Rows, start: ScopeKey,
                            policy: SplitPolicy)
  {
    start in dir' && dir.Keys <= dir'.Keys && (forall s :: s in dir' && s !in dir ==> start.Covers(s)) &&
    SubtreeSettled(dir', start, policy) && (forall s :: SplitForCause(pl, table, dir', model, start, s, policy))
  }

  /** A leaf that only the depth limit stops stands below the router's reach. */
  lemma SplitTooDeep(pl: Placement, table: string, dir: Directory, scopes: Scopes, model: Rows, start: ScopeKey,
                     policy: SplitPolicy)
    requires Consistent(pl, table, dir, scopes, model) && start in dir && start.Depth() > 1
    requires forall s :: Settled(dir, start, s, policy)
    requires DeepExcess(pl, table, model, start, policy)
    ensures !Shallow(dir)
  {
    var s: ScopeKey :| start.Covers(s) && ExceedsAtLimit(pl, table, model, s, policy);
    var key :| key in RowsThrough(pl, table, model, s).Keys;
    assert Stored(scopes, key);
    var leaf :| key in RowsAt(scopes, leaf);
    assert RowOk(pl, table, dir, scopes, model, leaf, key);
    OnPathAbove(pl, table, start, s, key);
    if leaf.Depth() < start.Depth() {
      AncestorsAreInner(pl, dir, table, key, start.Depth(), leaf.Depth());
    }
    PathCovers(pl, table, start, leaf, key);
    assert Settled(dir, start, leaf, policy);
    assert EntryAccurate(dir[leaf], RowsAt(scopes, leaf));
    LeafHoldsRowsThrough(pl, table, dir, scopes, model, leaf);
    if leaf.Depth() <= MAX_SCOPE_SPLIT_DEPTH + 1 {
      PathCovers(pl, table, leaf, s, key);
      ExcessRises(pl, table, model, leaf, s, policy);
    }
  }

  /** A scope out of the router's reach can only come from a scope at the limit that had too many rows. */
  lemma DeepScopeHasExcess(pl: Placement, table: string, dir: Directory, dir': Directory, model: Rows, start: ScopeKey,
                           policy: SplitPolicy, scope: ScopeKey)
    requires Shallow(dir) && start in dir && TreeOk(dir', table) &&
             SplitDone(pl, table, dir, dir', model, start, policy)
    requires scope in dir' && scope.Depth() > MAX_SCOPE_SPLIT_DEPTH + 1
    ensures DeepExcess(pl, table, model, start, policy)
  {
    var above := AncestorAtLimit(dir', table, scope, MAX_SCOPE_SPLIT_DEPTH + 1);
    CoveringIsOrdered(start, above, scope);
    if above.Covers(start) {
      CoversIsDeeper(above, start);
    }
    assert SplitForCause(pl, table, dir', model, start, above, policy);
    assert ExceedsAtLimit(pl, table, model, above, policy);
  }

  /** A finished split leaves the tree within the router's reach exactly when it was harmless. */
  lemma ShallowAfterSplitIffHarmless(pl: Placement, table: string, dir: Directory, dir': Directory, scopes': Scopes,
                                     model: Rows, start: ScopeKey, policy: SplitPolicy)
    requires Shallow(dir) && start in dir && Consistent(pl, table, dir', scopes', model)
    requires SplitDone(pl, table, dir, dir', model, start, policy)
    ensures Shallow(dir') <==> Harmless(pl, table, model, start, policy)
  {
    if start.Depth() <= 1 {
      forall s | s in dir'
        ensures s.Depth() <= MAX_SCOPE_SPLIT_DEPTH + 1
      {
        assert DepthBound(dir', start, s);
      }
    } else if DeepExcess(pl, table, model, start, policy) {
      SplitTooDeep(pl, table, dir', scopes', model, start, policy);
    } else {
      forall s | s in dir'
        ensures s.Depth() <= MAX_SCOPE_SPLIT_DEPTH + 1
      {
        if s.Depth() > MAX_SCOPE_SPLIT_DEPTH + 1 {
          DeepScopeHasExcess(pl, table, dir, dir', model, start, policy, s);
        }
      }
    }
  }

  /** A leaf within the policy has nothing too big below it. */
  lemma UnflaggedIsHarmless(pl: Placement, table: string, dir: Directory, scopes: Scopes, model: Rows, leaf: ScopeKey,
                            policy: SplitPolicy)
    requires Consistent(pl, table, dir, scopes, model) && Leaf(dir, leaf)
    requires dir[leaf].policy == policy && !dir[leaf].splitPending
    ensures Harmless(pl, table, model, leaf, policy)
  {
    LeafHoldsRowsThrough(pl, table, dir, scopes, model, leaf);
    assert EntryAccurate(dir[leaf], RowsAt(scopes, leaf));
    forall s: ScopeKey | leaf.Covers(s)
      ensures !ExceedsAtLimit(pl, table, model, s, policy)
    {
      if ExceedsAtLimit(pl, table, model, s, policy) {
        ExcessRises(pl, table, model, leaf, s, policy);
      }
    }
  }

  /** Harm depends on the rows that hash through the scope alone. */
  lemma HarmlessLooksDown(pl: Placement, table: string, a: Rows, b: Rows, scope: ScopeKey, policy: SplitPolicy)
    requires RowsThrough(pl, table, a, scope) == RowsThrough(pl, table, b, scope)
    ensures Harmless(pl, table, a, scope, policy) <==> Harmless(pl, table, b, scope, policy)
  {
    forall s: ScopeKey | scope.Covers(s)
      ensures RowsThrough(pl, table, a, s) == RowsThrough(pl, table, b, s)
    {
      forall k
        ensures k in RowsThrough(pl, table, a, s) <==> k in RowsThrough(pl, table, b, s)
        ensures k in RowsThrough(pl, table, a, s) ==> RowsThrough(pl, table, a, s)[k] == RowsThrough(pl, table, b, s)[k]
      {
        if OnPath(pl, table, s, k) {
          OnPathAbove(pl, table, scope, s, k);
          assert k in RowsThrough(pl, table, a, scope) <==> k in RowsThrough(pl, table, b, scope);
        }
      }
    }
  }

  /** Every scope the batch is routed to can be split harmlessly once the batch is stored. */
  ghost predicate BatchIsHarmless(pl: Placement, table: string, dir: Directory, model: Rows, batch: seq<Record>,
                                  policy: SplitPolicy)
  {
    forall i :: 0 <= i < |batch| ==>
      Harmless(pl, table, model, Route(pl, dir, BaseOf(pl, table, batch[i].key), batch[i].key), policy)
  }

  /** Every scope the sweep may pick can be split harmlessly. */
  ghost predicate SweepIsHarmless(pl: Placement, table: string, dir: Directory, model: Rows, policy: SplitPolicy,
                                  now: nat)
  {
    forall s :: Due(dir, s, now) ==> Harmless(pl, table, model, s, policy)
  }

  /** Every leaf below a scope that was due, short of the deepest level, is within the limits. */
  ghost predicate DueFit(dir: Directory, dir': Directory, scopes': Scopes, policy: SplitPolicy, now: nat) {
    forall s :: Due(dir, s, now) ==> LeavesFit(dir', scopes', s, policy)
  }

  lemma DueScopesFit(dir: Directory, dir': Directory, scopes': Scopes, due: seq<ScopeKey>, policy: SplitPolicy,
                     now: nat)
    requires Accurate(dir', scopes') && forall i :: 0 <= i < |due| ==> SubtreeSettled(dir', due[i], policy)
    ensures (forall s :: Due(dir, s, now) ==> s in due) ==> DueFit(dir, dir', scopes', policy, now)
  {
    forall s | s in due
      ensures LeavesFit(dir', scopes', s, policy)
    {
      var i :| 0 <= i < |due| && due[i] == s;
      SettledLeavesFit(dir', scopes', s, policy);
    }
  }

  lemma DueScopes(pl: Placement, table: string, dir: Directory, model: Rows, due: seq<ScopeKey>, policy: SplitPolicy,
                  now: nat)
    requires forall s :: s in due ==> Due(dir, s, now)
    ensures SweepIsHarmless(pl, table, dir, model, policy, now) ==>
              forall i :: 0 <= i < |due| ==> Harmless(pl, table, model, due[i], policy)
    ensures (forall s :: Due(dir, s, now) ==> s in due) &&
            (forall i :: 0 <= i < |due| ==> Harmless(pl, table, model, due[i], policy)) ==>
              SweepIsHarmless(pl, table, dir, model, policy, now)
  {
    assert forall i :: 0 <= i < |due| ==> due[i] in due;
  }

  /** A table whose scopes are at most one level down takes any batch: no split can then reach too far. */
  lemma YoungTableTakesAnyBatch(pl: Placement, table: string, dir: Directory, model: Rows, batch: seq<Record>,
                                policy: SplitPolicy)
    requires TreeOk(dir, table) && forall s :: s in dir ==> s.Depth() <= 1
    ensures BatchIsHarmless(pl, table, dir, model, batch, policy)
  {
    forall i | 0 <= i < |batch|
      ensures Harmless(pl, table, model, Route(pl, dir, BaseOf(pl, table, batch[i].key), batch[i].key), policy)
    {
      RouteLands(pl, dir, table, batch[i].key);
    }
  }

  // ---------------------------------------------------------------- runs

  datatype Operation = Upsert(partition: string, batch: seq<Record>, policy: SplitPolicy)
                     | Sweep(limit: nat, policy: SplitPolicy, now: nat)

  /** All rows upserted by a run, in order. */
  function Upserts(operations: seq<Operation>): seq<Record> {
    if operations == [] then []
    else
      var before, last := Upserts(operations[..|operations| - 1]), operations[|operations| - 1];
      if last.Upsert? then before + last.batch else before
  }

  /** The table after one operation. */
  function ModelAfter(before: Rows, operation: Operation): Rows {
    if operation.Upsert? then before + LastRows(operation.batch) else before
  }

  function ModelAfterAll(start: Rows, operations: seq<Operation>): Rows {
    if operations == [] then start
    else ModelAfter(ModelAfterAll(start, operations[..|operations| - 1]), operations[|operations| - 1])
  }

  ghost predicate NothingExceeds(pl: Placement, table: string, rows: Rows, policy: SplitPolicy) {
    forall s {:trigger ExceedsAtLimit(pl, table, rows, s, policy)} :: !ExceedsAtLimit(pl, table, rows, s, policy)
  }

  /**
   A batch names its partition rightly, and after the operation no scope at the routing limit has too many rows for its
   policy.
   */
  ghost predicate OperationFits(pl: Placement, table: string, after: Rows, operation: Operation) {
    (operation.Upsert? ==>
       forall i :: 0 <= i < |operation.batch| ==> pl.partition(table, operation.batch[i].key) == operation.partition) &&
    NothingExceeds(pl, table, after, operation.policy)
  }

  ghost predicate RunFits(pl: Placement, table: string, start: Rows, operations: seq<Operation>) {
    forall i :: 0 <= i < |operations| ==>
      OperationFits(pl, table, ModelAfterAll(start, operations[..i + 1]), operations[i])
  }

  /** The row of a key is at the scope the key routes to, there alone, and is the table's row. */
  ghost predicate AtHome(pl: Placement, table: string, dir: Directory, scopes: Scopes, model: Rows, key: string) {
    var home := Route(pl, dir, BaseOf(pl, table, key), key);
    (key in model <==> key in RowsAt(scopes, home)) && (key in model ==> RowsAt(scopes, home)[key] == model[key]) &&
    forall s :: key in RowsAt(scopes, s) ==> s == home
  }

  lemma FittingIsHarmless(pl: Placement, table: string, rows: Rows, policy: SplitPolicy)
    requires NothingExceeds(pl, table, rows, policy)
    ensures forall s {:trigger Harmless(pl, table, rows, s, policy)} :: Harmless(pl, table, rows, s, policy)
  {
  }

  /** Operation by operation, the table is the last upsert per key of the whole run. */
  lemma {:induction false} RunKeepsLastUpserts(start: Rows, operations: seq<Operation>)
    ensures ModelAfterAll(start, operations) == start + LastRows(Upserts(operations))
  {
    if operations == [] {
      assert start + map[] == start;
    } else {
      var before, last := operations[..|operations| - 1], operations[|operations| - 1];
      RunKeepsLastUpserts(start, before);
      if last.Upsert? {
        LastRowsConcat(Upserts(before), last.batch);
        UnionAssociates(start, LastRows(Upserts(before)), LastRows(last.batch));
      }
    }
  }

  lemma {:induction false} LastRowsConcat(a: seq<Record>, b: seq<Record>)
    ensures LastRows(a + b) == LastRows(a) + LastRows(b)
  {
    if b == [] {
      assert a + b == a && LastRows(a) + map[] == LastRows(a);
    } else {
      var before, last := b[..|b| - 1], b[|b| - 1];
      assert a + b == (a + before) + [last];
      LastRowsConcat(a, before);
      LastRowsAppend(a + before, last);
      AddOneMore(LastRows(a), LastRows(before), last);
    }
  }

  // ---------------------------------------------------------------- upserts

  /** Where a batch may be stored: a leaf, or a base scope that has no entry yet. */
  predicate Target(dir: Directory, table: string, scope: ScopeKey) {
    Leaf(dir, scope) || (scope !in dir && scope.Base? && scope.table == table)
  }

  predicate Due(dir: Directory, scope: ScopeKey, now: nat) {
    Leaf(dir, scope) && dir[scope].splitPending &&
    (dir[scope].reminderAtMs == 0 || dir[scope].reminderAtMs <= now) && scope.Depth() < MAX_SCOPE_SPLIT_DEPTH
  }

  ghost function StoredSoFar(route: string -> ScopeKey, batch: seq<Record>, todo: set<ScopeKey>): Rows {
    map k | k in LastRows(batch) && route(k) !in todo :: LastRows(batch)[k]
  }

  lemma UnionAssociates(a: Rows, b: Rows, c: Rows)
    ensures a + (b + c) == a + b + c
  {
  }

  lemma StoredOneMore(route: string -> ScopeKey, batch: seq<Record>, todo: set<ScopeKey>, scope: ScopeKey)
    requires scope in todo
    ensures StoredSoFar(route, batch, todo - {scope})
         == StoredSoFar(route, batch, todo) + LastRows(RoutedTo(route, batch, scope))
  {
    forall k
      ensures k in LastRows(RoutedTo(route, batch, scope)) <==> k in LastRows(batch) && route(k) == scope
      ensures k in LastRows(RoutedTo(route, batch, scope)) ==>
                LastRows(RoutedTo(route, batch, scope))[k] == LastRows(batch)[k]
    {
      RoutedToKeepsLast(route, batch, scope, k);
    }
  }

  lemma EveryRowRouted(route: string -> ScopeKey, batch: seq<Record>, routed: map<ScopeKey, seq<Record>>)
    requires forall s :: GroupOk(route, batch, routed, s)
    ensures StoredSoFar(route, batch, routed.Keys) == map[]
    ensures StoredSoFar(route, batch, {}) == LastRows(batch)
  {
    forall k | k in LastRows(batch)
      ensures route(k) in routed
    {
      assert GroupOk(route, batch, routed, route(k));
      RoutedToKeepsLast(route, batch, route(k), k);
    }
  }

  ghost predicate KeysHashTo(pl: Placement, table: string, scope: ScopeKey, rows: Rows) {
    forall k :: k in rows ==> OnPath(pl, table, scope, k)
  }

  ghost predicate GroupReady(pl: Placement, table: string, routed: map<ScopeKey, seq<Record>>, scope: ScopeKey) {
    scope in routed ==> KeysHashTo(pl, table, scope, LastRows(routed[scope]))
  }

  lemma GroupsAreReady(pl: Placement, table: string, dir: Directory, base: ScopeKey, batch: seq<Record>,
                       routed: map<ScopeKey, seq<Record>>)
    requires TreeOk(dir, table) && Shallow(dir) && base.Base? && base.table == table
    requires forall i :: 0 <= i < |batch| ==> pl.partition(table, batch[i].key) == base.partition
    requires forall s :: GroupOk(RouteOf(pl, dir, base), batch, routed, s)
    ensures forall s :: GroupReady(pl, table, routed, s)
    ensures forall s :: s in routed ==> Target(dir, table, s)
  {
    forall s | s in routed
      ensures GroupReady(pl, table, routed, s) && Target(dir, table, s)
    {
      assert GroupOk(RouteOf(pl, dir, base), batch, routed, s);
      GroupBelongs(pl, table, dir, base, batch, s);
    }
  }

  /** The keys routed to a scope hash through it, and the scope can take them. */
  lemma GroupBelongs(pl: Placement, table: string, dir: Directory, base: ScopeKey, batch: seq<Record>, scope: ScopeKey)
    requires TreeOk(dir, table) && Shallow(dir) && base.Base? && base.table == table
    requires forall i :: 0 <= i < |batch| ==> pl.partition(table, batch[i].key) == base.partition
    ensures var part := RoutedTo(RouteOf(pl, dir, base), batch, scope);
            (part != [] ==> Target(dir, table, scope)) &&
            forall k :: k in LastRows(part) ==> OnPath(pl, table, scope, k)
  {
    var part := RoutedTo(RouteOf(pl, dir, base), batch, scope);
    if part != [] {
      var k := part[|part| - 1].key;
      assert k in LastRows(part);
    }
    forall k | k in LastRows(part)
      ensures OnPath(pl, table, scope, k) && Target(dir, table, scope)
    {
      RoutedToKeepsLast(RouteOf(pl, dir, base), batch, scope, k);
      assert LastRows(batch)[k] in batch;
      assert base == BaseOf(pl, table, k);
      RouteLands(pl, dir, table, k);
    }
  }

  lemma StoringKeepsShallow(dir: Directory, stored: Directory, table: string, scope: ScopeKey)
    requires Target(dir, table, scope) && Leaf(stored, scope) && forall s :: s != scope ==> SameEntry(dir, stored, s)
    ensures dir.Keys <= stored.Keys && (Shallow(dir) <==> Shallow(stored))
  {
    forall s
      ensures s in dir ==> s in stored
      ensures s in stored ==> s in dir || s.Depth() == 0
    {
      assert s != scope ==> SameEntry(dir, stored, s);
    }
  }

  /** What is stored after a scope's own group does not hash through it. */
  lemma RestGoesElsewhere(pl: Placement, table: string, dir: Directory, base: ScopeKey, batch: seq<Record>,
                          before: Rows, todo: set<ScopeKey>, scope: ScopeKey, policy: SplitPolicy)
    requires TreeOk(dir, table) && Shallow(dir) && base.Base? && base.table == table && Target(dir, table, scope)
    requires forall i :: 0 <= i < |batch| ==> pl.partition(table, batch[i].key) == base.partition
    requires scope !in todo
    ensures Harmless(pl, table, before + StoredSoFar(RouteOf(pl, dir, base), batch, todo), scope, policy) <==>
            Harmless(pl, table, before + LastRows(batch), scope, policy)
  {
    var route := RouteOf(pl, dir, base);
    var some, all := before + StoredSoFar(route, batch, todo), before + LastRows(batch);
    forall k | k in LastRows(batch) && OnPath(pl, table, scope, k)
      ensures route(k) !in todo
    {
      KeyOfScopeGoesThere(pl, table, dir, base, batch, scope, k);
    }
    SameRowsThrough(pl, table, before, StoredSoFar(route, batch, todo), LastRows(batch), scope);
    HarmlessLooksDown(pl, table, some, all, scope, policy);
  }

  lemma KeyOfScopeGoesThere(pl: Placement, table: string, dir: Directory, base: ScopeKey, batch: seq<Record>,
                            scope: ScopeKey, key: string)
    requires TreeOk(dir, table) && Shallow(dir) && base.Base? && base.table == table && Target(dir, table, scope)
    requires forall i :: 0 <= i < |batch| ==> pl.partition(table, batch[i].key) == base.partition
    requires key in LastRows(batch) && OnPath(pl, table, scope, key)
    ensures Route(pl, dir, base, key) == scope
  {
    assert LastRows(batch)[key] in batch && base == BaseOf(pl, table, key);
    RouteLands(pl, dir, table, key);
    OnePathOneTarget(pl, dir, table, Route(pl, dir, base, key), scope, key);
  }

  lemma SameRowsThrough(pl: Placement, table: string, before: Rows, some: Rows, all: Rows, scope: ScopeKey)
    requires forall k :: k in some ==> k in all && some[k] == all[k]
    requires forall k :: k in all && OnPath(pl, table, scope, k) ==> k in some
    ensures RowsThrough(pl, table, before + some, scope) == RowsThrough(pl, table, before + all, scope)
  {
  }

  lemma OnePathOneTarget(pl: Placement, dir: Directory, table: string, a: ScopeKey, b: ScopeKey, key: string)
    requires TreeOk(dir, table) && OnPath(pl, table, a, key) && OnPath(pl, table, b, key)
    requires Leaf(dir, a) || (a !in dir && a == BaseOf(pl, table, key))
    requires Target(dir, table, b)
    ensures a == b
  {
    if Leaf(dir, a) {
      OtherLeafHasOtherKeys(pl, dir, table, b, a, key);
    } else if Leaf(dir, b) {
      if b.Depth() > 0 {
        AncestorsAreInner(pl, dir, table, key, b.Depth(), 0);
      }
    }
  }

  /** The groups are the scopes the batch's keys are routed to. */
  lemma RoutedScopes(pl: Placement, table: string, dir: Directory, base: ScopeKey, batch: seq<Record>,
                     routed: map<ScopeKey, seq<Record>>, after: Rows, policy: SplitPolicy)
    requires base.Base? && base.table == table
    requires forall i :: 0 <= i < |batch| ==> pl.partition(table, batch[i].key) == base.partition
    requires forall s :: GroupOk(RouteOf(pl, dir, base), batch, routed, s)
    ensures (forall s :: s in routed ==> Harmless(pl, table, after, s, policy)) <==>
            BatchIsHarmless(pl, table, dir, after, batch, policy)
  {
    var route := RouteOf(pl, dir, base);
    forall s | s in routed
      ensures exists i :: 0 <= i < |batch| && Route(pl, dir, BaseOf(pl, table, batch[i].key), batch[i].key) == s
    {
      assert GroupOk(route, batch, routed, s);
      var part := RoutedTo(route, batch, s);
      var k := part[|part| - 1].key;
      assert k in LastRows(part);
      RoutedToKeepsLast(route, batch, s, k);
      assert LastRows(batch)[k] in batch;
    }
    forall i | 0 <= i < |batch|
      ensures Route(pl, dir, BaseOf(pl, table, batch[i].key), batch[i].key) in routed
    {
      var home := route(batch[i].key);
      assert GroupOk(route, batch, routed, home);
      LastRowsHolds(batch, i);
      RoutedToKeepsLast(route, batch, home, batch[i].key);
    }
  }

  lemma {:induction false} LastRowsHolds(batch: seq<Record>, i: nat)
    requires i < |batch|
    ensures batch[i].key in LastRows(batch)
  {
    if i < |batch| - 1 {
      LastRowsHolds(batch[..|batch| - 1], i);
    }
  }

  lemma OtherTargetsStay(dir: Directory, table: string, scope: ScopeKey, other: ScopeKey)
    requires TreeOk(dir, table) && Leaf(dir, scope) && Target(dir, table, other) && other != scope
    ensures !scope.Covers(other)
  {
    if scope.Covers(other) && other in dir {
      LeafCoversOnlyItself(dir, table, scope, other);
    }
  }

  lemma {:induction false} CoveringIsOrdered(a: ScopeKey, b: ScopeKey, t: ScopeKey)
    requires a.Covers(t) && b.Covers(t)
    ensures a.Covers(b) || b.Covers(a)
    decreases t
  {
    if a != t && b != t {
      CoveringIsOrdered(a, b, t.parent);
    }
  }

  // ---------------------------------------------------------------- what an upsert settles

  /** Nothing outside the subtree of the scope changes in the directory. */
  ghost predicate StaysOutside(dir: Directory, dir': Directory, scope: ScopeKey) {
    forall s {:trigger SameEntry(dir, dir', s)} :: !scope.Covers(s) ==> SameEntry(dir, dir', s)
  }

  lemma BelowStaysOutside(dir: Directory, scopes: Scopes, dir': Directory, scopes': Scopes, scope: ScopeKey)
    requires OnlyBelow(dir, scopes, dir', scopes', scope)
    ensures StaysOutside(dir, dir', scope)
  {
    forall s | !scope.Covers(s)
      ensures SameEntry(dir, dir', s)
    {
      assert Unchanged(dir, scopes, dir', scopes', s);
    }
  }

  lemma StoredThenBelow(dir: Directory, stored: Directory, dir': Directory, scope: ScopeKey)
    requires (forall s :: s != scope ==> SameEntry(dir, stored, s)) && StaysOutside(stored, dir', scope)
    ensures StaysOutside(dir, dir', scope)
  {
    forall s | !scope.Covers(s)
      ensures SameEntry(dir, dir', s)
    {
      assert SameEntry(dir, stored, s) && SameEntry(stored, dir', s);
    }
  }

  lemma UnflaggedIsSettled(dir: Directory, table: string, scope: ScopeKey, policy: SplitPolicy)
    requires TreeOk(dir, table) && Leaf(dir, scope) && !dir[scope].splitPending && dir[scope].policy == policy
    ensures SubtreeSettled(dir, scope, policy)
  {
    forall s
      ensures Settled(dir, scope, s, policy) && DepthBound(dir, scope, s)
    {
      if scope.Covers(s) && s in dir {
        LeafCoversOnlyItself(dir, table, scope, s);
      }
    }
  }

  lemma {:induction false} AncestorsAreThere(dir: Directory, table: string, above: ScopeKey, scope: ScopeKey)
    requires TreeOk(dir, table) && scope in dir && above.Covers(scope)
    ensures above in dir
    decreases scope
  {
    if above != scope {
      assert NodeOk(dir, table, scope);
      AncestorsAreThere(dir, table, above, scope.parent);
    }
  }

  lemma TargetCoversNoOther(dir: Directory, table: string, a: ScopeKey, b: ScopeKey)
    requires TreeOk(dir, table) && Target(dir, table, a) && Target(dir, table, b) && a != b
    ensures !a.Covers(b)
  {
    if Leaf(dir, a) {
      OtherTargetsStay(dir, table, a, b);
    } else if a.Covers(b) && b in dir {
      AncestorsAreThere(dir, table, a, b);
    }
  }

  lemma TargetsApart(dir: Directory, table: string, a: ScopeKey, b: ScopeKey, s: ScopeKey)
    requires TreeOk(dir, table) && Target(dir, table, a) && Target(dir, table, b) && a != b && a.Covers(s)
    ensures !b.Covers(s)
  {
    TargetCoversNoOther(dir, table, a, b);
    TargetCoversNoOther(dir, table, b, a);
    if b.Covers(s) {
      CoveringIsOrdered(a, b, s);
    }
  }

  /** What an earlier group settled, a later one leaves alone. */
  lemma OthersStaySettled(start: Directory, before: Directory, after: Directory, table: string, routed: set<ScopeKey>,
                          todo: set<ScopeKey>, scope: ScopeKey, policy: SplitPolicy)
    requires TreeOk(start, table) && forall s :: s in routed ==> Target(start, table, s)
    requires scope in todo && todo <= routed && StaysOutside(before, after, scope) &&
             SubtreeSettled(after, scope, policy)
    requires forall s :: s in routed - todo ==> SubtreeSettled(before, s, policy)
    ensures forall s :: s in routed - (todo - {scope}) ==> SubtreeSettled(after, s, policy)
  {
    forall s | s in routed - todo
      ensures SubtreeSettled(after, s, policy)
    {
      SettledElsewhere(start, before, after, table, s, scope, policy);
    }
  }

  /** What the groups taken in so far have done to the directory and to the table's rows. */
  ghost predicate TakenSoFar(pl: Placement, table: string, start: Directory, dir: Directory, base: ScopeKey,
                             batch: seq<Record>, routed: set<ScopeKey>, todo: set<ScopeKey>, before: Rows, rows: Rows,
                             policy: SplitPolicy)
  {
    todo <= routed && start.Keys <= dir.Keys && (forall s :: s in todo ==> Target(dir, table, s)) &&
    (forall s :: s in routed - todo ==> SubtreeSettled(dir, s, policy)) &&
    rows == before + StoredSoFar(RouteOf(pl, start, base), batch, todo) &&
    (Shallow(dir) <==> forall s :: s in routed - todo ==> Harmless(pl, table, before + LastRows(batch), s, policy))
  }

  lemma TakeOneMore(pl: Placement, table: string, start: Directory, dir: Directory, dir': Directory, base: ScopeKey,
                    batch: seq<Record>, routed: map<ScopeKey, seq<Record>>, todo: set<ScopeKey>, scope: ScopeKey,
                    before: Rows, rows: Rows, rows': Rows, policy: SplitPolicy)
    requires TreeOk(start, table) && Shallow(start) && base.Base? && base.table == table
    requires forall i :: 0 <= i < |batch| ==> pl.partition(table, batch[i].key) == base.partition
    requires forall s :: GroupOk(RouteOf(pl, start, base), batch, routed, s)
    requires forall s :: s in routed ==> Target(start, table, s)
    requires TakenSoFar(pl, table, start, dir, base, batch, routed.Keys, todo, before, rows, policy) && scope in todo
    requires rows' == rows + LastRows(routed[scope]) && dir.Keys <= dir'.Keys
    requires forall s :: s != scope && Target(dir, table, s) ==> Target(dir', table, s)
    requires SubtreeSettled(dir', scope, policy) && StaysOutside(dir, dir', scope)
    requires Shallow(dir) ==> (Shallow(dir') <==> Harmless(pl, table, rows', scope, policy))
    ensures TakenSoFar(pl, table, start, dir', base, batch, routed.Keys, todo - {scope}, before, rows', policy)
  {
    var route, left := RouteOf(pl, start, base), todo - {scope};
    assert GroupOk(route, batch, routed, scope);
    StoredOneMore(route, batch, todo, scope);
    UnionAssociates(before, StoredSoFar(route, batch, todo), LastRows(routed[scope]));
    RestGoesElsewhere(pl, table, start, base, batch, before, left, scope, policy);
    OthersStaySettled(start, dir, dir', table, routed.Keys, todo, scope, policy);
    OneMoreHarmless(pl, table, dir, dir', routed.Keys, todo, scope, before + LastRows(batch), policy);
  }

  /** The tree is within reach as long as every group taken in was harmless. */
  lemma OneMoreHarmless(pl: Placement, table: string, dir: Directory, dir': Directory, routed: set<ScopeKey>,
                        todo: set<ScopeKey>, scope: ScopeKey, rows: Rows, policy: SplitPolicy)
    requires scope in todo && todo <= routed && dir.Keys <= dir'.Keys
    requires Shallow(dir) <==> forall s :: s in routed - todo ==> Harmless(pl, table, rows, s, policy)
    requires Shallow(dir) ==> (Shallow(dir') <==> Harmless(pl, table, rows, scope, policy))
    ensures Shallow(dir') <==> forall s :: s in routed - (todo - {scope}) ==> Harmless(pl, table, rows, s, policy)
  {
    assert routed - (todo - {scope}) == (routed - todo) + {scope};
  }

  lemma AllTaken(pl: Placement, table: string, start: Directory, dir: Directory, base: ScopeKey, batch: seq<Record>,
                 routed: map<ScopeKey, seq<Record>>, before: Rows, rows: Rows, policy: SplitPolicy)
    requires base.Base? && base.table == table
    requires forall i :: 0 <= i < |batch| ==> pl.partition(table, batch[i].key) == base.partition
    requires forall s :: GroupOk(RouteOf(pl, start, base), batch, routed, s)
    requires TakenSoFar(pl, table, start, dir, base, batch, routed.Keys, {}, before, rows, policy)
    ensures rows == before + LastRows(batch) && BatchSettled(pl, table, start, dir, batch, policy)
    ensures Shallow(dir) <==> BatchIsHarmless(pl, table, start, rows, batch, policy)
  {
    EveryRowRouted(RouteOf(pl, start, base), batch, routed);
    RoutedScopes(pl, table, start, base, batch, routed, rows, policy);
    RoutedAreSettled(pl, table, start, dir, base, batch, routed, policy);
  }

  lemma AllDue(dir: Directory, due: seq<ScopeKey>, now: nat)
    requires forall s :: s in due ==> Due(dir, s, now)
    ensures forall i :: 0 <= i < |due| ==> Leaf(dir, due[i])
  {
    assert forall i :: 0 <= i < |due| ==> due[i] in due;
  }

  /** After `n` of the due scopes: they are settled, the others are leaves, and the tree is within reach if harmless. */
  ghost predicate SweptSoFar(pl: Placement, table: string, start: Directory, dir: Directory, model: Rows,
                             due: seq<ScopeKey>, n: nat, policy: SplitPolicy)
  {
    n <= |due| && (forall i :: n <= i < |due| ==> Leaf(dir, due[i])) &&
    (forall i :: 0 <= i < n ==> SubtreeSettled(dir, due[i], policy)) &&
    (Shallow(start) ==>
       (Shallow(dir) <==> forall i :: 0 <= i < n ==> Harmless(pl, table, model, due[i], policy)))
  }

  lemma SweptOneMore(pl: Placement, table: string, start: Directory, before: Directory, after: Directory, model: Rows,
                     due: seq<ScopeKey>, n: nat, policy: SplitPolicy)
    requires TreeOk(start, table) && TreeOk(before, table) && n < |due|
    requires StaysOutside(before, after, due[n]) && before.Keys <= after.Keys
    requires forall i, j :: 0 <= i < j < |due| ==> due[i] != due[j]
    requires forall i :: 0 <= i < |due| ==> Leaf(start, due[i])
    requires SweptSoFar(pl, table, start, before, model, due, n, policy) && SubtreeSettled(after, due[n], policy)
    requires Shallow(before) ==> (Shallow(after) <==> Harmless(pl, table, model, due[n], policy))
    ensures SweptSoFar(pl, table, start, after, model, due, n + 1, policy)
  {
    OtherDueScopes(start, before, after, table, due, n, policy);
    if !Shallow(before) {
      var s :| s in before && s.Depth() > MAX_SCOPE_SPLIT_DEPTH + 1;
      assert s in after;
    }
  }

  /** A sweep that got through everything due has settled it, and every leaf short of the deepest level fits. */
  lemma AllSwept(pl: Placement, table: string, start: Directory, dir: Directory, scopes: Scopes, model: Rows,
                 due: seq<ScopeKey>, policy: SplitPolicy, now: nat)
    requires Accurate(dir, scopes) && SweptSoFar(pl, table, start, dir, model, due, |due|, policy)
    requires forall s :: s in due ==> Due(start, s, now)
    ensures Shallow(start) && SweepIsHarmless(pl, table, start, model, policy, now) ==> Shallow(dir)
    ensures (forall s :: Due(start, s, now) ==> s in due) ==>
              (forall s, t :: Due(start, s, now) ==> Settled(dir, s, t, policy)) &&
              DueFit(start, dir, scopes, policy, now) &&
              (Shallow(start) ==> (Shallow(dir) <==> SweepIsHarmless(pl, table, start, model, policy, now)))
  {
    DueScopes(pl, table, start, model, due, policy, now);
    DueScopesFit(start, dir, scopes, due, policy, now);
  }

  /** One due scope was split: those still to come are leaves as before, those already split stay settled. */
  lemma OtherDueScopes(start: Directory, before: Directory, after: Directory, table: string, due: seq<ScopeKey>, n: nat,
                       policy: SplitPolicy)
    requires TreeOk(start, table) && TreeOk(before, table) && n < |due| && StaysOutside(before, after, due[n])
    requires forall i, j :: 0 <= i < j < |due| ==> due[i] != due[j]
    requires forall i :: 0 <= i < |due| ==> Leaf(start, due[i])
    requires forall i :: n <= i < |due| ==> Leaf(before, due[i])
    requires forall i :: 0 <= i < n ==> SubtreeSettled(before, due[i], policy)
    ensures forall i :: n < i < |due| ==> Leaf(after, due[i])
    ensures forall i :: 0 <= i < n ==> SubtreeSettled(after, due[i], policy)
  {
    forall i | n < i < |due|
      ensures Leaf(after, due[i])
    {
      OtherTargetsStay(before, table, due[n], due[i]);
      assert SameEntry(before, after, due[i]);
    }
    forall i | 0 <= i < n
      ensures SubtreeSettled(after, due[i], policy)
    {
      SettledElsewhere(start, before, after, table, due[i], due[n], policy);
    }
  }

  lemma SettledElsewhere(start: Directory, before: Directory, after: Directory, table: string, s: ScopeKey,
                         scope: ScopeKey, policy: SplitPolicy)
    requires TreeOk(start, table) && Target(start, table, s) && Target(start, table, scope) && s != scope
    requires SubtreeSettled(before, s, policy) && StaysOutside(before, after, scope)
    ensures SubtreeSettled(after, s, policy)
  {
    forall t
      ensures Settled(after, s, t, policy) && DepthBound(after, s, t)
    {
      if s.Covers(t) {
        TargetsApart(start, table, s, scope, t);
        assert SameEntry(before, after, t) && Settled(before, s, t, policy) && DepthBound(before, s, t);
      }
    }
  }

  /** Every leaf below a scope that took in rows of the batch is within the policy, or 32 levels below that scope. */
  ghost predicate BatchSettled(pl: Placement, table: string, dir: Directory, dir': Directory, batch: seq<Record>,
                               policy: SplitPolicy)
  {
    forall i :: 0 <= i < |batch| ==>
      SubtreeSettled(dir', Route(pl, dir, BaseOf(pl, table, batch[i].key), batch[i].key), policy)
  }

  /** Every leaf below a scope that took in rows of the batch, short of the deepest level, is within the limits. */
  ghost predicate BatchFits(pl: Placement, table: string, dir: Directory, dir': Directory, scopes': Scopes,
                            batch: seq<Record>, policy: SplitPolicy)
  {
    forall i :: 0 <= i < |batch| ==>
      LeavesFit(dir', scopes', Route(pl, dir, BaseOf(pl, table, batch[i].key), batch[i].key), policy)
  }

  lemma SettledBatchFits(pl: Placement, table: string, dir: Directory, dir': Directory, scopes': Scopes,
                         batch: seq<Record>, policy: SplitPolicy)
    requires Accurate(dir', scopes') && BatchSettled(pl, table, dir, dir', batch, policy)
    ensures BatchFits(pl, table, dir, dir', scopes', batch, policy)
  {
    forall i | 0 <= i < |batch|
      ensures LeavesFit(dir', scopes', Route(pl, dir, BaseOf(pl, table, batch[i].key), batch[i].key), policy)
    {
      SettledLeavesFit(dir', scopes', Route(pl, dir, BaseOf(pl, table, batch[i].key), batch[i].key), policy);
    }
  }

  lemma RoutedAreSettled(pl: Placement, table: string, dir: Directory, dir': Directory, base: ScopeKey,
                         batch: seq<Record>, routed: map<ScopeKey, seq<Record>>, policy: SplitPolicy)
    requires base.Base? && base.table == table
    requires forall i :: 0 <= i < |batch| ==> pl.partition(table, batch[i].key) == base.partition
    requires forall s :: GroupOk(RouteOf(pl, dir, base), batch, routed, s)
    requires forall s :: s in routed ==> SubtreeSettled(dir', s, policy)
    ensures BatchSettled(pl, table, dir, dir', batch, policy)
  {
    var route := RouteOf(pl, dir, base);
    forall i | 0 <= i < |batch|
      ensures SubtreeSettled(dir', Route(pl, dir, BaseOf(pl, table, batch[i].key), batch[i].key), policy)
    {
      var home := route(batch[i].key);
      assert GroupOk(route, batch, routed, home);
      LastRowsHolds(batch, i);
      RoutedToKeepsLast(route, batch, home, batch[i].key);
    }
  }

  lemma EndOfSplit(pl: Placement, table: string, dir: Directory, scopes: Scopes, dir': Directory, scopes': Scopes,
                   model: Rows, start: ScopeKey, policy: SplitPolicy)
    requires TreeOk(dir, table) && Leaf(dir, start) && OnlyBelow(dir, scopes, dir', scopes', start)
    requires Consistent(pl, table, dir', scopes', model) && SplitInvariant(pl, table, dir', model, start, policy, [])
    ensures SplitDone(pl, table, dir, dir', model, start, policy)
    ensures LeavesFit(dir', scopes', start, policy) && RowsHashIn(pl, table, scopes')
    ensures Shallow(dir) ==> (Shallow(dir') <==> Harmless(pl, table, model, start, policy))
  {
    EmptyQueueIsSettled(pl, table, dir', model, start, policy);
    OnlyBelowKeepsEntries(dir, scopes, dir', scopes', start, table);
    SettledLeavesFit(dir', scopes', start, policy);
    ResidentRowsHashIn(pl, table, dir', scopes', model);
    if Shallow(dir) {
      ShallowAfterSplitIffHarmless(pl, table, dir, dir', scopes', model, start, policy);
    }
  }

  lemma StartOfSplit(pl: Placement, table: string, dir: Directory, model: Rows, start: ScopeKey, policy: SplitPolicy,
                     pending: Pending)
    requires TreeOk(dir, table) && Leaf(dir, start) && pending == [(start, 0)]
    ensures SplitInvariant(pl, table, dir, model, start, policy, pending)
  {
    assert pending[0].0 == start;
    forall s
      ensures SettledOrQueued(dir, start, s, policy, pending) && SplitForCause(pl, table, dir, model, start, s, policy)
      ensures DepthBound(dir, start, s)
    {
      if start.Covers(s) && s in dir {
        LeafCoversOnlyItself(dir, table, start, s);
      }
    }
  }

  // ---------------------------------------------------------------- out of reach

  /** The keys hash alike down to twice the depth of a split. */
  ghost predicate HashAlike(pl: Placement, table: string, a: string, b: string) {
    PathOf(pl, table, a, 2 * MAX_SCOPE_SPLIT_DEPTH) == PathOf(pl, table, b, 2 * MAX_SCOPE_SPLIT_DEPTH)
  }

  lemma {:induction false} PathsShareStart(pl: Placement, table: string, a: string, b: string, depth: nat, above: nat)
    requires PathOf(pl, table, a, depth) == PathOf(pl, table, b, depth) && above <= depth
    ensures PathOf(pl, table, a, above) == PathOf(pl, table, b, above)
    decreases depth
  {
    if above < depth {
      assert PathOf(pl, table, a, depth).parent == PathOf(pl, table, a, depth - 1);
      assert PathOf(pl, table, b, depth).parent == PathOf(pl, table, b, depth - 1);
      PathsShareStart(pl, table, a, b, depth - 1, above);
    }
  }

  /** Keys of one partition do so under a hash function that is constant, for one. */
  lemma {:induction false} ConstantHashIsAlike(pl: Placement, table: string, a: string, b: string, depth: nat)
    requires (forall s, k :: pl.hash(s, k) == 0) && pl.partition(table, a) == pl.partition(table, b)
    ensures PathOf(pl, table, a, depth) == PathOf(pl, table, b, depth)
  {
    if depth > 0 {
      ConstantHashIsAlike(pl, table, a, b, depth - 1);
    }
  }

  function Both(a: Record, b: Record): Rows {
    map[a.key := a, b.key := b]
  }

  /** The leaf of a key that hashes like another stays overfull for a policy of one row a scope. */
  lemma SharedLeafIsFlagged(pl: Placement, table: string, dir: Directory, scopes: Scopes, a: Record, b: Record)
    returns (leaf: ScopeKey)
    requires Consistent(pl, table, dir, scopes, Both(a, b)) && a.key != b.key && HashAlike(pl, table, a.key, b.key)
    ensures Leaf(dir, leaf) && OnPath(pl, table, leaf, a.key) && a.key in RowsAt(scopes, leaf)
    ensures leaf.Depth() <= 2 * MAX_SCOPE_SPLIT_DEPTH && dir[leaf].policy == SplitPolicy(1, 0) ==>
              dir[leaf].splitPending
  {
    var rows := Both(a, b);
    assert a.key in rows && b.key in rows && Stored(scopes, a.key);
    leaf :| a.key in RowsAt(scopes, leaf);
    assert RowOk(pl, table, dir, scopes, rows, leaf, a.key);
    if leaf.Depth() <= 2 * MAX_SCOPE_SPLIT_DEPTH {
      PathsShareStart(pl, table, a.key, b.key, 2 * MAX_SCOPE_SPLIT_DEPTH, leaf.Depth());
      LeafHoldsRowsThrough(pl, table, dir, scopes, rows, leaf);
      assert RowsAt(scopes, leaf) == rows && |rows.Keys| == 2 by {
        assert rows.Keys == {a.key, b.key};
      }
      assert EntryAccurate(dir[leaf], RowsAt(scopes, leaf)) && |rows| == |rows.Keys|;
    }
  }

  /** A subtree settled for that policy has such a leaf 32 levels below its start. */
  lemma SettledLeafDepth(pl: Placement, table: string, dir: Directory, scopes: Scopes, a: Record, b: Record,
                         start: ScopeKey)
    returns (leaf: ScopeKey)
    requires Consistent(pl, table, dir, scopes, Both(a, b)) && a.key != b.key && HashAlike(pl, table, a.key, b.key)
    requires start in dir && OnPath(pl, table, start, a.key) && start.Depth() <= MAX_SCOPE_SPLIT_DEPTH
    requires SubtreeSettled(dir, start, SplitPolicy(1, 0))
    ensures Leaf(dir, leaf) && OnPath(pl, table, leaf, a.key) && a.key in RowsAt(scopes, leaf)
    ensures leaf.Depth() == start.Depth() + MAX_SCOPE_SPLIT_DEPTH
  {
    leaf := SharedLeafIsFlagged(pl, table, dir, scopes, a, b);
    assert start.Covers(leaf) by {
      if leaf.Depth() < start.Depth() {
        AncestorsAreInner(pl, dir, table, a.key, start.Depth(), leaf.Depth());
      }
      PathCovers(pl, table, start, leaf, a.key);
    }
    assert Settled(dir, start, leaf, SplitPolicy(1, 0)) && DepthBound(dir, start, leaf);
  }

  /** With those two rows: the first batch splits 32 levels down, and the second, from there, 32 more. */
  method RepeatedUpsertHidesRow(table: string, placement: Placement, a: Record, b: Record) returns (t: TableScopes)
    requires a.key != b.key && HashAlike(placement, table, a.key, b.key)
    ensures t.Valid() && t.table == table && t.placement == placement && t.model == Both(a, b)
    ensures a.key !in RowsAt(t.scopes, Route(placement, t.directory, BaseOf(placement, table, a.key), a.key))
  {
    var policy, partition := SplitPolicy(1, 0), placement.partition(table, a.key);
    ghost var base := BaseOf(placement, table, a.key);
    PathsShareStart(placement, table, a.key, b.key, 2 * MAX_SCOPE_SPLIT_DEPTH, 0);
    t := new TableScopes(table, placement);
    TwoRows(a, b);
    YoungTableTakesAnyBatch(placement, table, map[], Both(a, b), [a, b], policy);
    t.UpsertScopeRows(partition, [a, b], policy);
    FirstBatchIsSettled(placement, table, t.directory, t.scopes, a, b);
    ghost var home := SettledLeafDepth(placement, table, t.directory, t.scopes, a, b, base);
    RouteReachesLeafIffShallow(placement, t.directory, table, home, a.key);
    SameRowAgain(a, b);
    ghost var before := t.directory;
    t.UpsertScopeRows(partition, [a], policy);
    assert [a][0] == a && SubtreeSettled(t.directory, Route(placement, before, base, a.key), policy);
    ghost var leaf := SettledLeafDepth(placement, table, t.directory, t.scopes, a, b, home);
    DeepRowIsMissed(placement, table, t.directory, t.scopes, t.model, leaf, a.key);
  }

  lemma FirstBatchIsSettled(pl: Placement, table: string, dir: Directory, scopes: Scopes, a: Record, b: Record)
    requires Consistent(pl, table, dir, scopes, Both(a, b)) && a.key != b.key && HashAlike(pl, table, a.key, b.key)
    requires BatchSettled(pl, table, map[], dir, [a, b], SplitPolicy(1, 0))
    ensures BaseOf(pl, table, a.key) in dir && SubtreeSettled(dir, BaseOf(pl, table, a.key), SplitPolicy(1, 0))
  {
    assert [a, b][0] == a;
    assert SubtreeSettled(dir, Route(pl, map[], BaseOf(pl, table, a.key), a.key), SplitPolicy(1, 0));
    var leaf := SharedLeafIsFlagged(pl, table, dir, scopes, a, b);
    PathCovers(pl, table, BaseOf(pl, table, a.key), leaf, a.key);
    AncestorsAreThere(dir, table, BaseOf(pl, table, a.key), leaf);
  }

  lemma TwoRows(a: Record, b: Record)
    requires a.key != b.key
    ensures map[] + LastRows([a, b]) == Both(a, b)
  {
    LastRowsAppend([], a);
    LastRowsAppend([a], b);
    assert [] + [a] == [a] && [a] + [b] == [a, b];
  }

  lemma SameRowAgain(a: Record, b: Record)
    requires a.key != b.key
    ensures Both(a, b) + LastRows([a]) == Both(a, b)
  {
    LastRowsAppend([], a);
    assert [] + [a] == [a];
  }

  /** A row whose leaf is more than 33 levels down is not where its key routes. */
  lemma DeepRowIsMissed(pl: Placement, table: string, dir: Directory, scopes: Scopes, model: Rows, leaf: ScopeKey,
                        key: string)
    requires Consistent(pl, table, dir, scopes, model) && key in RowsAt(scopes, leaf) &&
             leaf.Depth() > MAX_SCOPE_SPLIT_DEPTH + 1
    ensures key !in RowsAt(scopes, Route(pl, dir, BaseOf(pl, table, key), key))
  {
    var home := Route(pl, dir, BaseOf(pl, table, key), key);
    assert RowOk(pl, table, dir, scopes, model, leaf, key);
    RouteReachesLeafIffShallow(pl, dir, table, leaf, key);
    if key in RowsAt(scopes, home) {
      assert RowOk(pl, table, dir, scopes, model, home, key);
      LeafOnPathUnique(pl, dir, table, home, leaf, key);
    }
  }
}
