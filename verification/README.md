# NextDB kernel: a Dafny model

NextDB is an actor database: tables are spread over scope actors that split when they
grow, rooms keep a bounded window of messages in memory, clients subscribe to queries and
key ranges, and everything is recovered from a write-ahead log. Its kernel is full of
places where a fast or incrementally maintained structure has to agree with a simple one.
This project models those structures in the form the program has them (classes with maps
updated in place, loops, work queues) and proves that they agree, over all inputs and all
sequential runs. Where the program meets a property only under a condition, the condition
is proved to be exact, with a concrete case on the other side.

`dafny verify dfyconfig.toml` checks everything.

| module | what it models |
|---|---|
| `ScopeDirectory`, `ActorScopes` | the tree of scopes of a table, routing, placement, splitting by work queue |
| `WalTail` | recovery of table and scope actors from the log tail |
| `RoomWindow`, `Messages` | the bounded window of a room and the order of messages |
| `ReminderWheel` | durable timers and their replay |
| `RoomResidency` | which rooms stay in memory |
| `RangeIndex`, `SubscriptionRouter` | the interval index and the routing of record events to connections |
| `LiveQuery`, `QueryDiff` | skipped re-evaluations and page diffs |
| `ChatKeys`, `ChatProjection` | the ordered-store projection of the chat log |
| `ChatIndex` | a chat log bucket and its offset index |
| `ObjectRefCollector`, `ObjectRefs` | the reverse index of object references |
| `Realtime` | channel membership, versioned state, sequences |
| `BodyLines` | client frames read from a chunked body |
| `FrameCodec` | the frame codec emitted for behaviors |
| `Sorting`, `Lex`, `SortedKeys`, `Lines`, `Text`, `Words`, `Options`, `Records` | shared vocabulary |

Hash functions, the row partition, encoders and parsers are arbitrary functions (encoders
injective and free of newlines), and every reading of the clock is an arbitrary number.

## What turned out to need a condition

- Routing takes at most 33 steps (`actor.rs:598-616`) while a split counts its 32 levels from the scope it
  starts at (`actor.rs:1434-1546`), so repeated splits can put a leaf out of reach: `RouteReachesLeafIffShallow`,
  `UpsertKeepsOneCopyIffShallow`. When a split does so: `ShallowAfterSplitIffHarmless`; a run that does:
  `RepeatedUpsertHidesRow`.
- The nested-prefix lookup asks only the nearest stored prefix. Record keys may contain `:`
  (`record_store.rs:832-838`), so one parent's prefix can extend another's and hide it:
  `PrefixLookupExactIffApart`, `NestedParentsHideRecord`.
- Names of tables may contain `.`, so two nested subscriptions can stand for one stored prefix, and removing
  one takes it from the other: `RunStaysInStepIffNothingSevered`, `StoredLookupExactIff`, with `DottedTablesShareImage`
  and `SharedPrefixIsLost`.
- A subscription resumed with an unchanged result keeps no response keys, so an update that takes a
  record out of its page is not noticed: `SubscriptionIsAlwaysFreshIff`, `ResumedSubscriptionGoesStale`.
- The has-more flag of a page is not covered by the impact filter: `HasMoreAfterSkip`, `HiddenMatchLeavesFlagStale`.
- The message comparison is no order once a volatile message separates durable ones against their LSNs:
  `OrderedIffCutsAgree`, `MixedKindsCycle`, `MixedRunDropsHighestLsn`.
- A brand-new room can be the one evicted when restored stamps are ahead of the clock:
  `NewcomerAfterRestore`, `RestoredStampsCanBeAhead`.
- A projection batch that repeats a message under a key that is neither its last nor the stored one leaves a
  stray entry: `BatchKeepsIndexedIff`, `RepeatedMessageLeavesStray`.
- A refused document has lost its references in memory while the file still lists them:
  `ObjectRefIndex.RetainRecordForSchema`, `RefusedDocumentLeavesFileBehind`.
- Member keys join user and session by U+001F, which a user id may contain: `KeysNeverMeetIffApart`,
  `StepByKeyIsStepIffNoMixUp`, `KeysCanCollide`.
- The decoder's length test wraps around beyond 32 bits: `OutOfRangeIff`, `LargestLengthIsOutOfRange`.

## Model

| member | source | states |
|---|---|---|
| `ScopeDirectory.RouteReachesLeafIffShallow` | crates/nextdb-server/src/actor.rs:598-616 | In a well-formed scope tree, routing a key from its base scope arrives at the leaf the key hashes to exactly when that leaf is at most 33 levels down. |
| `ScopeDirectory.RouteLands` | crates/nextdb-server/src/actor.rs:598-616 | In a tree no deeper than that, every key is routed to a childless scope it hashes through, or to its base scope while the base has no entry. |
| `ScopeDirectory.LeafOnPathUnique` | crates/nextdb-server/src/actor.rs:2435-2446 | No key hashes to two childless scopes, so placement and routing cannot disagree. |
| `ScopeDirectory.OnPathIffHashesInto` | crates/nextdb-server/src/actor.rs:2435-2446 | A key's path leads through a scope exactly when the key falls in its partition and, hashed with each scope above it, gave the child taken. |
| `ScopeDirectory.LeafHoldsWhatHashesIn` | crates/nextdb-server/src/actor.rs:2435-2446 | A leaf holds precisely the table's rows whose hashes lead to it, with the table's values. |
| `ScopeDirectory.ResidentRowIsWhereItRoutes` | crates/nextdb-server/src/actor.rs:589-616 | Whatever the table holds of a key is found at the scope the key routes to, under that scope alone, and equals the last upsert. |
| `ScopeDirectory.UpsertKeepsOneCopyIffShallow` | crates/nextdb-server/src/actor.rs:1312-1381 | Re-upserting a resident row leaves a single copy of it, at its routed scope, exactly when its leaf is at most 33 levels down; below that the row is duplicated. |
| `ScopeDirectory.UpsertLeafKeepsConsistent` | crates/nextdb-server/src/actor.rs:529-561 | Storing rows at a leaf (or an unseen base scope) and recording it keeps tree, counts and row placement consistent, with those rows added to the table's content. A non-leaf would lose its children, so it is excluded. |
| `ScopeDirectory.SplitLeafKeepsConsistent` | crates/nextdb-server/src/actor.rs:618-670 | Turning a leaf into an inner scope with its rows dealt to two children by hash changes nothing about what the table holds. |
| `ScopeDirectory.EstimatedBytes` | crates/nextdb-server/src/actor.rs:2393-2408 | The byte estimate does not depend on the order rows are visited in. |
| `ScopeDirectory.StoredRowCosts` | crates/nextdb-server/src/actor.rs:2393-2408 | Storing a row adds the lengths of its four texts and sixteen bytes, less what its key held before. |
| `ActorScopes.RoutedToKeepsLast` | crates/nextdb-server/src/actor.rs:589-597 | Grouping a batch by routed scope keeps the last row per key, in exactly the group its key routes to. |
| `ActorScopes.TableScopes.RouteRecordScopeKey` | crates/nextdb-server/src/actor.rs:598-616 | The overwriting loop computes the routing function. |
| `ActorScopes.TableScopes.RouteRows` | crates/nextdb-server/src/actor.rs:589-597 | Each group is the sub-batch routed to its scope, in order; no group is empty. |
| `ActorScopes.TableScopes.UpsertScope` | crates/nextdb-server/src/actor.rs:529-561 | The scope becomes a leaf with the given counts, flagged exactly when it has more than one row and more than a positive row limit or more bytes than a positive byte limit; it is due for the sweep from its recording on exactly when flagged and above depth 32; leaves, entries and due scopes elsewhere are untouched. |
| `ActorScopes.TableScopes.SplitScope` | crates/nextdb-server/src/actor.rs:618-670 | The scope stops being a leaf, its two children become leaves with the counts dealt to them, each due for the sweep exactly when its own counts exceed the policy and it is above depth 32; no other entry changes. |
| `ActorScopes.TableScopes.HashApart` | crates/nextdb-server/src/actor.rs:1467-1482 | The two halves are the drained rows of even and of odd hash with the scope, unchanged. |
| `ActorScopes.TableScopes.SplitStep` | crates/nextdb-server/src/actor.rs:1438-1544 | One round of the queue keeps the table's rows and touches only the scope and its two children. If it splits, the scope held more than a limit allows, and afterwards each child holds exactly the scope's rows whose hash with the scope names it; queued are exactly the new children above the depth limit that hold too much themselves. |
| `ActorScopes.TableScopes.SplitScopeRows` | crates/nextdb-server/src/actor.rs:1428-1546 | The work queue terminates, loses and duplicates no row, leaves every row where its hashes lead, touches nothing outside the start scope's subtree and puts no scope more than 32 levels below the start; every leaf below the start and less than 32 levels down holds at most one row or stays within each positive limit on rows and bytes. The tree stays within the router's reach exactly when the start is at most one level down or no scope at depth 33 below it holds too much. |
| `ActorScopes.StepKeepsInvariant` | crates/nextdb-server/src/actor.rs:1434-1546 | Each round keeps the queue invariant and strictly decreases the remaining work. |
| `ActorScopes.ShallowAfterSplitIffHarmless` | crates/nextdb-server/src/actor.rs:1434-1546 | Where the 32 levels of a split meet the 33 steps of the router: the split tree is within reach exactly under that condition. |
| `ActorScopes.TableScopes.UpsertScopeRows` | crates/nextdb-server/src/actor.rs:1312-1381 | After routing, storing, recording and splitting, the union of all scopes is the old table overwritten by the batch's last row per key, each row where its hashes lead; below every scope that took in rows no leaf is more than 32 levels down, and each leaf above that holds at most one row or stays within each positive limit on rows and bytes; and the tree is within the router's reach again exactly when no group of the batch is split from a scope above an overfull one at depth 33. |
| `ActorScopes.YoungTableTakesAnyBatch` | crates/nextdb-server/src/actor.rs:1312-1381 | A tree with scopes at most one level down meets that condition for every batch. |
| `ActorScopes.TableScopes.PendingScopes` | crates/nextdb-server/src/actor.rs:575-587 | At most the limit of scopes comes back, distinct, each due, and all of them when the limit is not reached. |
| `ActorScopes.TableScopes.SplitPendingScopes` | crates/nextdb-server/src/actor.rs:1705-1741 | The sweep neither loses nor duplicates a row; when its limit is not reached, every leaf below a scope that was due, less than 32 levels down, holds at most one row or stays within each positive limit. It keeps the tree within the router's reach if no due scope is above an overfull one at depth 33 (exactly then, when the limit is not reached). |
| `ActorScopes.TableScopes.RunOperations` | crates/nextdb-server/src/actor.rs:1312-1381 | Over every run of upserts and sweeps in which no scope at depth 33 is ever overfull, the table is the last upsert per key of the whole run, and each row is found where its key routes and nowhere else. |
| `ActorScopes.RunKeepsLastUpserts` | crates/nextdb-server/src/actor.rs:1312-1381 | Batch by batch overwriting is the last upsert per key of all batches together; sweeps do not matter. |
| `ActorScopes.RepeatedUpsertHidesRow` | crates/nextdb-server/src/actor.rs:1312-1381 | A new table, a policy of one row a scope, and two rows whose keys hash alike 64 levels down: both are upserted, which splits 32 levels, then one of them again, which splits 32 more, and that row is no longer where its key routes. |
| `ActorScopes.DeepRowIsMissed` | crates/nextdb-server/src/actor.rs:598-616 | In any consistent table a row whose leaf is more than 33 levels down is not where its key routes. |
| `ActorScopes.ConstantHashIsAlike` | crates/nextdb-server/src/actor.rs:2435-2446 | Such keys exist: all keys of a partition hash alike under a constant hash. |
| `WalTail.ApplyEffect` | crates/nextdb-server/src/actor.rs:2671-2762 | One change on a resident table sets that row and no other; on a cold table it does nothing. |
| `WalTail.ReplayEffect` | crates/nextdb-server/src/actor.rs:2594-2664 | Replaying changes leaves each resident row as the last change to it says. |
| `WalTail.CollapsedOrderKeepsLastChange` | crates/nextdb-server/src/actor.rs:2594-2664 | Keeping the last change per path, in whatever path order, keeps the last change per row. |
| `WalTail.RecoveryMatchesLogOrder` | crates/nextdb-server/src/actor.rs:2513-2526 | Recovery from the collapsed tail leaves the same rows in every table as applying the changes in log order, and wakes no cold table; what the changes of a log are is said by `RecoveredRowIsLastSaid`. |
| `WalTail.RecoveredRowIsLastSaid` | crates/nextdb-server/src/actor.rs:2594-2664 | Read off the payloads: a row of a resident table ends as the last record or transaction operation about its table and key says, an upsert with that document and the record's LSN, a delete with none; rows the log does not mention are the snapshot's, and other tables stay cold. |
| `WalTail.ReplayKeepsCounts` | crates/nextdb-server/src/actor.rs:2671-2762 | If every directory's counts, byte estimates and flags say what its scopes hold, they still do after the replay. |
| `WalTail.LastChangeIsLastSaid` | crates/nextdb-server/src/actor.rs:2594-2664 | The last change read from a log for a row is what its last record or operation about the row says, and there is none exactly if none is about it. |
| `WalTail.RowsAreLookedUp` | crates/nextdb-server/src/actor.rs:2764-2781 | Every row held in some scope is the one a lookup finds, so equal lookups are equal tables. |
| `WalTail.RuntimeStateIsRestorable` | crates/nextdb-server/src/actor.rs:2513-2526 | What the running actors of any number of tables hold is a state recovery may start from, with the same rows and right counts. |
| `WalTail.RecoveringActors.ApplyUpsert` | crates/nextdb-server/src/actor.rs:2671-2716 | The in-place upsert has the effect of the change it stands for. |
| `WalTail.RecoveringActors.ApplyDelete` | crates/nextdb-server/src/actor.rs:2718-2762 | The in-place delete has the effect of the change it stands for; a row that is absent changes nothing. |
| `WalTail.RecoveringActors.ApplyWalTail` | crates/nextdb-server/src/actor.rs:2594-2664 | The whole tail is collapsed per path and each surviving change is applied exactly once; on a restorable snapshot every row of a resident table is then what the payloads say last about it, deletes and transaction operations included, or the snapshot's, and directories that counted their scopes right still do. |
| `RoomWindow.RunIsWindow` | crates/nextdb-server/src/actor.rs:2248-2272 | Batch by batch, with the append path where it applies, the window is what sorting the whole history once and cutting it would leave, whenever the comparison orders the history. |
| `RoomWindow.AppliedIsInsertAll` | crates/nextdb-server/src/actor.rs:2248-2266 | The path that skips sorting and the path that sorts give the same window, whenever the comparison orders the messages. |
| `RoomWindow.ArrivalOrderDoesNotMatter` | crates/nextdb-server/src/actor.rs:2248-2272 | Durable messages with distinct LSNs: any order and any batching give the same window. |
| `RoomWindow.WindowIsNewest` | crates/nextdb-server/src/actor.rs:2248-2272 | The window is exactly the highest-LSN messages in ascending order. |
| `RoomWindow.VolatileWindowIsLatest` | crates/nextdb-server/src/actor.rs:2248-2272 | Of volatile messages with distinct times and ids the window holds exactly the latest, by creation time and then id. |
| `RoomWindow.MixedRunDropsHighestLsn` | crates/nextdb-server/src/actor.rs:2248-2272 | A run of durable and volatile messages whose window keeps a lower LSN and drops a higher one. |
| `RoomWindow.InsertThenTruncate` | crates/nextdb-server/src/actor.rs:2268-2272 | Cutting early loses nothing that a later cut would keep, whatever the comparison. |
| `RoomWindow.RoomLiveState.ApplyMessages` | crates/nextdb-server/src/actor.rs:2248-2272 | The deque ends up as the batch function says. |
| `Messages.OrderedIffCutsAgree` | crates/nextdb-server/src/actor.rs:2331-2339 | On any messages, durable and volatile, the comparison is a total preorder exactly when no volatile message separates two durable ones against their LSN order. |
| `Messages.OneKindIsOrdered` | crates/nextdb-server/src/actor.rs:2331-2339 | In particular among durable messages, or among volatile ones. |
| `Messages.MixedKindsCycle` | crates/nextdb-server/src/actor.rs:2331-2339 | Across the two kinds it is not: three messages form a cycle. |
| `Lex.FirstDifferenceDecides` | crates/nextdb-server/src/actor.rs:2331-2339 | One string is less than another exactly when, where they first differ, it ends or has the smaller character. |
| `ReminderWheel.ActorReminderWheel.Upsert` | crates/nextdb-server/src/actor.rs:1024-1028 | The wheel then holds the entry under its own due time, in place of any other of that actor and id. |
| `ReminderWheel.ActorReminderWheel.Remove` | crates/nextdb-server/src/actor.rs:1030-1039 | Exactly the named reminder leaves, and is returned, if it was pending. |
| `ReminderWheel.ActorReminderWheel.TakeDue` | crates/nextdb-server/src/actor.rs:1041-1056 | Exactly the earliest due reminders, in key order and at most the limit, leave the wheel; a due one stays only behind a full hand. |
| `ReminderWheel.EarliestAreSooner` | crates/nextdb-server/src/actor.rs:1041-1056 | What is taken comes in order of due time, then kind, actor key and id, and whatever is due and stays comes later than everything taken. |
| `ReminderWheel.ActorReminderWheel.Requeue` | crates/nextdb-server/src/actor.rs:1687-1698 | Requeued reminders are filed one after the other, replacing what has their name. |
| `ReminderWheel.RequeueUndoesTake` | crates/nextdb-server/src/actor.rs:1680-1698 | Putting back what was taken restores the wheel. |
| `ReminderWheel.LastFactDecides` | crates/nextdb-server/src/actor.rs:2528-2571 | For a log with distinct LSNs a reminder ends up pending, as a given entry, exactly when its highest-LSN fact schedules it with that due time and payload; a fact concerns a reminder when its trimmed kind and key, the key not blank, and its id are the reminder's. |
| `ReminderWheel.RemindersFromWalRecords` | crates/nextdb-server/src/actor.rs:2528-2571 | Returns what the replay leaves, once each, in key order, whatever order the log comes in. |
| `ReminderWheel.WalPartsRoundTrip` | crates/nextdb-server/src/actor.rs:2582-2592 | The log gives an actor id back exactly when its key is non-empty and carries no white space at its ends. |
| `ReminderWheel.KeyLessIsTransitive` | crates/nextdb-server/src/actor.rs:1010-1016 | The key order of the wheel is transitive. |
| `ReminderWheel.KeyLessIsTotal` | crates/nextdb-server/src/actor.rs:1010-1016 | The key order of the wheel is total and strict. |
| `RoomResidency.EvictLru` | crates/nextdb-server/src/actor.rs:3365-3407 | Exactly the overflow is evicted, every evicted room precedes every kept one by stamp, then id, then shard, and the count returned is right. |
| `RoomResidency.EvictedWereAccessedFirst` | crates/nextdb-server/src/actor.rs:3365-3407 | No room that stays has a lesser stamp than one that goes, and of two with one stamp the lesser id goes first. |
| `RoomResidency.EvictIdle` | crates/nextdb-server/src/actor.rs:3422-3435 | A room stays exactly when its stamp plus the time-to-live is not before now; zero switches the sweep off. |
| `RoomResidency.NewcomerIsEvictedIffOldest` | crates/nextdb-server/src/actor.rs:1548-1555 | With one room too many, a given room goes exactly when it precedes all others in eviction order. |
| `RoomResidency.NewcomerAfterRestore` | crates/nextdb-server/src/actor.rs:1152-1254 | Rooms are restored up to the bound and a message comes for another room: that room is gone again exactly when every restored stamp is ahead of the one it was given, the second a new room takes. |
| `RoomResidency.RestoredStampsCanBeAhead` | crates/nextdb-server/src/actor.rs:1152-1254 | It can happen whatever the clock says: a room restored with the last stamp there is outlives the newcomer. |
| `RoomResidency.StampsIncreaseIffRoom` | crates/nextdb-server/src/actor.rs:2314-2329 | A stamp is never behind the clock and exceeds its predecessor exactly while 64 bits are not exhausted. |
| `RoomResidency.StampIsFirst` | crates/nextdb-server/src/actor.rs:2314-2329 | It is the least stamp to do both. |
| `RoomResidency.StampsStrictlyIncrease` | crates/nextdb-server/src/actor.rs:2314-2329 | Over any clock readings, later stamps are strictly newer than earlier ones below the 64-bit end. |
| `RoomResidency.HotRooms.constructor` | crates/nextdb-server/src/actor.rs:1152-1240 | Restored rooms are cut to the bound, then to the recently used, then dealt to the shards they hash to, and counted right. |
| `RoomResidency.HotRooms.ApplyMessage` | crates/nextdb-server/src/actor.rs:1244-1254 | The counter equals the resident rooms and respects the bound afterwards; the message's room is gone at once exactly if it is new, the bound was reached and every other room is newer. |
| `RoomResidency.HotRooms.ApplyMessages` | crates/nextdb-server/src/actor.rs:1256-1284 | The same bound and counter for a batch; each room in it gets a newer stamp before the eviction. |
| `RoomResidency.HotRooms.RunActorTurn` | crates/nextdb-server/src/actor.rs:1286-1302 | A turn touches its room, and enforces the bound only when it created it. |
| `RoomResidency.HotRooms.EnforceCapacity` | crates/nextdb-server/src/actor.rs:1548-1555 | Trusting the cached counter alone restores the bound. |
| `RoomResidency.HotRooms.EvictRoom` | crates/nextdb-server/src/actor.rs:1602-1609 | The named room leaves, the counter follows. |
| `RoomResidency.HotRooms.EvictIdleRooms` | crates/nextdb-server/src/actor.rs:1743-1753 | The idle sweep keeps the counter right. |
| `RoomResidency.HotRooms.Reconfigure` | crates/nextdb-server/src/actor.rs:1755-1782 | New limits hold at once: first the bound, then the time-to-live. |
| `RangeIndex.CachedLookupIsExact` | crates/nextdb-server/src/live_query.rs:503-528 | Looking only at the widest upper bound cached for the nearest lower bound finds a containing range exactly when there is one. |
| `RangeIndex.TableKeyRangeIndex.Insert` | crates/nextdb-server/src/live_query.rs:470-483 | The stored ranges gain the range and the cache stays right. |
| `RangeIndex.TableKeyRangeIndex.Remove` | crates/nextdb-server/src/live_query.rs:485-501 | The stored ranges lose the range and the cache stays right. |
| `RangeIndex.TableKeyRangeIndex.Matches` | crates/nextdb-server/src/live_query.rs:503-510 | True exactly when some stored range contains the key, unbounded ends included. |
| `RangeIndex.TableKeyRangeIndex.RebuildMatchCache` | crates/nextdb-server/src/live_query.rs:516-528 | Rebuilding gives the widest upper bound per lower-bound prefix. |
| `RangeIndex.PrefixBestUppers` | crates/nextdb-server/src/live_query.rs:519-527 | One pass in order computes the prefix maxima. |
| `RangeIndex.BestUpperForSet` | crates/nextdb-server/src/live_query.rs:530-538 | The widest of a set of upper bounds, none for an empty set. |
| `RangeIndex.WiderUpperOfUnion` | crates/nextdb-server/src/live_query.rs:540-550 | Combining the widest of two sets gives the widest of their union. |
| `SubscriptionRouter.StoredLookupExactIff` | crates/nextdb-server/src/live_query.rs:443-452 | Among the names and keys the server accepts, and whichever of the prefixes asked for are stored, looking only at the nearest stored one is right for every key of a nested record exactly when no stored prefix extends another and every prefix asked for extends or equals a stored one. |
| `SubscriptionRouter.PrefixLookupExactIffApart` | crates/nextdb-server/src/live_query.rs:443-452 | With all of them stored, exactly when no stored prefix extends another. |
| `SubscriptionRouter.NestedPrefixHides` | crates/nextdb-server/src/live_query.rs:443-452 | If the prefix of a parent extends another, the parent's key with a letter appended fits the shorter prefix and is hidden by the longer one. |
| `SubscriptionRouter.NestedParentsHideRecord` | crates/nextdb-server/src/live_query.rs:443-452 | Parents `a` and `a:b` are such a case, with a key a record of `a` can have. |
| `SubscriptionRouter.PlainParentsStayApart` | crates/nextdb-server/src/api/frames.rs:130-158 | Parent keys without a colon never cause that. |
| `SubscriptionRouter.FiltersAreImages` | crates/nextdb-server/src/live_query.rs:556-570 | The naive filter says what the stored tables, ranges and prefixes of the subscriptions say. |
| `SubscriptionRouter.RangeRemovalExactIffAlone` | crates/nextdb-server/src/live_query.rs:61-71 | Dropping a range with its subscription is right exactly when no other subscription asks for the same range. |
| `SubscriptionRouter.PrefixRemovalExactIffAlone` | crates/nextdb-server/src/live_query.rs:85-95 | The same for nested subscriptions and their key prefixes. |
| `SubscriptionRouter.DottedTablesShareImage` | crates/nextdb-server/src/api/frames.rs:130-158 | Two accepted nested subscriptions, table `a.b` with `c` and `a` with `b.c`, do ask for the same prefix of the same logical table. |
| `SubscriptionRouter.RecordSubscriptionRouter.Matches` | crates/nextdb-server/src/live_query.rs:439-459 | The router's answer in terms of what it stores for the table. |
| `SubscriptionRouter.ConnectionState.AddTableSubscription` | crates/nextdb-server/src/live_query.rs:49-59 | The subscription sets and the router's ranges move together, the flag says exactly whether anything changed, and the filter then admits exactly the records it admitted before and those the subscription matches. |
| `SubscriptionRouter.ConnectionState.RemoveTableSubscription` | crates/nextdb-server/src/live_query.rs:61-71 | The subscription sets and the router's ranges move together, the flag says exactly whether anything changed, and the filter then admits exactly the records another subscription matches. |
| `SubscriptionRouter.AddedSubscriptionMatches` | crates/nextdb-server/src/live_query.rs:49-59 | For every state, subscription, table and key: after adding, a record passes exactly when it did before or the subscription matches it. |
| `SubscriptionRouter.RemovedSubscriptionMatches` | crates/nextdb-server/src/live_query.rs:61-71 | After removing, exactly when one of the other subscriptions of the connection matches it. |
| `SubscriptionRouter.RunAsksForSubscribed` | crates/nextdb-server/src/live_query.rs:49-95 | After any run a connection asks for exactly the table and nested subscriptions added and not removed since. |
| `SubscriptionRouter.RunMatchesSubscribed` | crates/nextdb-server/src/live_query.rs:556-570 | After any run a record passes the filter exactly when a table or nested subscription added and not removed since matches it. |
| `SubscriptionRouter.ConnectionState.AddNestedTableSubscription` | crates/nextdb-server/src/live_query.rs:73-83 | A new subscription stores its prefix, one that is there already nothing; no prefix is ever stored that nobody asks for. |
| `SubscriptionRouter.ConnectionState.RemoveNestedTableSubscription` | crates/nextdb-server/src/live_query.rs:85-95 | The subscription goes and takes its prefix with it, whoever else asks for that; stored and asked-for prefixes that were the same still are exactly when nobody does. |
| `SubscriptionRouter.ConnectionState.MatchesRouter` | crates/nextdb-server/src/live_query.rs:572-579 | In every state additions and removals lead to, the fast router never says more than the naive filter, and says the same for every table whose stored prefixes do not extend one another and cover those asked for. |
| `SubscriptionRouter.RunStoresNothingExtra` | crates/nextdb-server/src/live_query.rs:73-95 | Over every run of additions and removals no prefix is stored that no subscription asks for. |
| `SubscriptionRouter.RunStaysInStepIffNothingSevered` | crates/nextdb-server/src/live_query.rs:73-95 | Throughout a run the prefixes stored are those asked for exactly when each subscription removed was the only one with its image at the time. |
| `SubscriptionRouter.StoredIffAddedSince` | crates/nextdb-server/src/live_query.rs:73-95 | After every run a prefix is stored exactly when a new subscription stored it and none that had it was removed since. |
| `SubscriptionRouter.PlainTablesStayInStep` | crates/nextdb-server/src/live_query.rs:73-95 | Runs that name tables without a dot stay in step. |
| `SubscriptionRouter.SharedPrefixIsLost` | crates/nextdb-server/src/live_query.rs:85-95 | Two subscriptions of one image are added and one is removed: the filter admits every record of the other, and the router none. |
| `QueryDiff.RebuildGivesNext` | crates/nextdb-server/src/live_query.rs:963-1021 | Walking the diff's keys and taking each record from the diff, else from the previous page, gives exactly the next page; the removed keys are exactly those that disappeared. |
| `QueryDiff.RecordsAreSentIfNew` | crates/nextdb-server/src/live_query.rs:963-1021 | A record is sent as added exactly when its key was not shown before, as updated exactly when another record was shown under it, and not at all when it was shown already. |
| `QueryDiff.RecordQueryDiff` | crates/nextdb-server/src/live_query.rs:963-1021 | The loop over both pages computes that diff. |
| `LiveQuery.MatchPassesFilter` | crates/nextdb-server/src/live_query.rs:1126-1163 | A record the query matches always passes the impact filter built for the query. |
| `LiveQuery.FilterAsksConditionAndIndex` | crates/nextdb-server/src/live_query.rs:1126-1163 | The impact filter admits a record exactly when the query's condition does and, for an exact index that is declared and parses, the index values do. |
| `LiveQuery.UpsertIsSkippedIff` | crates/nextdb-server/src/live_query.rs:1096-1124 | An upsert in the query's table and parent is skipped exactly when its key was not shown last, the schema version is the subscription's, and condition or usable exact index turn the record away. |
| `LiveQuery.EventElsewhereIsSkipped` | crates/nextdb-server/src/live_query.rs:1066-1087 | An event of another table, or of a key outside the query's parent, is skipped and changes neither page nor has-more flag. |
| `LiveQuery.UnchangedResultSendsNothing` | crates/nextdb-server/src/api/connections.rs:838-990 | A batch that asks for nothing, or whose fresh result has the last one's fingerprint, leaves page and subscription as they are. |
| `LiveQuery.SkipKeepsPage` | crates/nextdb-server/src/live_query.rs:1066-1124 | A skipped event leaves the page a correct page, provided each shown key is remembered or has no record the filter turns away. |
| `LiveQuery.PageIsEvaluation` | crates/nextdb-server/src/live_query.rs:922-961 | A page that lists the first matching records in order is the fresh evaluation. |
| `LiveQuery.EvaluationAnswersQuery` | crates/nextdb-server/src/live_query.rs:922-961 | Said of each stored record: it is on the fresh page only if table, parent prefix, condition, index use and cursor ask for it, and if they do it is left out only from a full page of records that do not come after it. |
| `LiveQuery.StoreFollowsLastTouch` | crates/nextdb-server/src/api/connections.rs:838-990 | After a run of events what is stored under a key is what the last event about it wrote, and nothing if that removed it. |
| `LiveQuery.RunStaysFresh` | crates/nextdb-server/src/api/connections.rs:838-990 | Over any run of event batches, re-evaluating only when asked, the records last given to the client equal a fresh evaluation. |
| `LiveQuery.HasMoreAfterSkip` | crates/nextdb-server/src/live_query.rs:1096-1124 | The has-more flag, by contrast, survives a skipped upsert exactly unless the last match beyond the limit went away. |
| `LiveQuery.HiddenMatchLeavesFlagStale` | crates/nextdb-server/src/live_query.rs:1096-1124 | It does go away: a fresh page of one with a second match that is closed. |
| `LiveQuery.SkipsAreSafeIffGuarded` | crates/nextdb-server/src/live_query.rs:690-707 | For every query, all skips are safe exactly when each shown key is remembered or has no record the filter turns away. |
| `LiveQuery.SubscriptionIsAlwaysFreshIff` | crates/nextdb-server/src/api/connections.rs:1455-1526 | A subscriber's records equal a fresh evaluation after every run of batches exactly when the subscription was sent its page, or was resumed without one and the filter turns away no record under a shown key. |
| `LiveQuery.ResumedSubscriptionGoesStale` | crates/nextdb-server/src/api/connections.rs:1502-1526 | Whatever the fingerprint, a subscription resumed with the current one can be left, after one batch, with records a fresh evaluation does not give. |
| `ChatKeys.PaddedComplementReverses` | crates/nextdb-server/src/chat_log.rs:561-573 | Zero-padding the complement of a 64-bit number to twenty digits reverses numeric order, byte by byte. |
| `ChatKeys.KeyOrderIsNewestFirst` | crates/nextdb-server/src/chat_log.rs:561-573 | Within a room, keys are ordered by LSN descending, then creation time descending, then id. |
| `ChatKeys.KeyOrderReversesLogOrder` | crates/nextdb-server/src/chat_log.rs:541-549 | For durable messages with different LSNs that is the reverse of the log's own order. |
| `ChatKeys.KeyNamesMessage` | crates/nextdb-server/src/chat_log.rs:561-573 | Keys are equal exactly for the same room, LSN, creation time and id, when room ids carry no NUL. |
| `ChatKeys.RefNamesMessage` | crates/nextdb-server/src/chat_log.rs:582-588 | Reference keys are equal exactly for the same room and id. |
| `ChatKeys.PrefixNamesRoom` | crates/nextdb-server/src/chat_log.rs:575-580 | A room's prefix starts a key of that room and of no other. |
| `ChatKeys.ChatLayoutIsSound` | crates/nextdb-server/src/chat_log.rs:561-588 | The three key forms together do all the projection relies on. |
| `ChatProjection.PutAllLeaves` | crates/nextdb-server/src/chat_log.rs:437-465 | Where a batch leaves every key and every reference of the store, message by message and for any repetition: which entries stay, which are replaced and which message each holds. |
| `ChatProjection.BatchKeepsIndexedIff` | crates/nextdb-server/src/chat_log.rs:437-465 | Any batch, of stored and new messages and with repetitions, keeps the store indexed exactly when every mention of a message comes under the key of its last mention or under the key already stored; the store then holds what it held, overwritten by the batch. |
| `ChatProjection.RepeatedMessageLeavesStray` | crates/nextdb-server/src/chat_log.rs:437-465 | A new message under two keys in one batch leaves a stray entry. |
| `ChatProjection.ChatLogProjection.PutMessages` | crates/nextdb-server/src/chat_log.rs:437-465 | All references are read before any change; every entry and reference ends as described, and the store stays indexed, holding what it held overwritten by the batch, exactly under that condition. |
| `ChatProjection.ChatLogProjection.Latest` | crates/nextdb-server/src/chat_log.rs:467-484 | The scan returns the newest stored messages of the room below the given LSN, newest first, and stops only when the limit is reached; a limit of zero still returns one. |
| `ChatIndex.ChatLogBucket.AppendManyEncoded` | crates/nextdb-server/src/chat_log.rs:71-95 | The data file gains exactly the lines, the index exactly their entries; if writing the index fails, only those entries are missing. |
| `ChatIndex.EntriesPointAtLines` | crates/nextdb-server/src/chat_log.rs:79-89 | Every entry points at the line of its message. |
| `ChatIndex.IndexCoversDataFile` | crates/nextdb-server/src/chat_log.rs:590-610 | True exactly when the entries in offset order lie end to end from the start to the end of the file. |
| `ChatIndex.CoversIffSomeArrangementTiles` | crates/nextdb-server/src/chat_log.rs:590-610 | For non-empty lines: exactly when some arrangement of the entries tiles the file. |
| `ChatIndex.TileOwnsByte` | crates/nextdb-server/src/chat_log.rs:590-610 | Then every byte belongs to exactly one entry. |
| `ChatIndex.CoversIffComplete` | crates/nextdb-server/src/chat_log.rs:396-398 | The index of a bucket is trusted exactly when no entry is missing. |
| `ChatIndex.DecodeOfLog` | crates/nextdb-server/src/chat_log.rs:487-515 | Scanning a data file gives back the messages appended to it and rebuilds the same index. |
| `ChatIndex.DecodeBucketData` | crates/nextdb-server/src/chat_log.rs:487-515 | The loop over a running offset decodes any file, or fails at its first bad line. |
| `ChatIndex.PlanShowsBoth` | crates/nextdb-server/src/chat_log.rs:541-559 | Filtering, sorting and cutting the entries picks the same lines, in the same order, as doing it to the messages. |
| `ChatIndex.ChatLogBucket.ReadLatestFromIndex` | crates/nextdb-server/src/chat_log.rs:367-426 | An incomplete index is refused. A complete one gives exactly what scanning, sorting and truncating the file would, for every limit and LSN bound: as many of the messages below the bound as there are, up to the limit, and the newest ones first. |
| `ChatIndex.ChatLogBucket.RewriteIndex` | crates/nextdb-server/src/chat_log.rs:97-112 | The rewritten index is complete. |
| `ChatIndex.ChatLogBucket.ReadLatest` | crates/nextdb-server/src/chat_log.rs:337-365 | Whatever became of the index lines: as many messages as there are below the bound, up to the limit, each as often as the log holds it; where the comparison orders the log, newest first and nothing newer left out; where LSNs are positive and differ, by descending LSN and nothing with a higher LSN left out. A read that finds index lines missing repairs them. |
| `ChatIndex.LatestShowsNewest` | crates/nextdb-server/src/chat_log.rs:353-364 | Filtering by the bound, sorting and truncating picks exactly those messages. |
| `ChatIndex.LineCountsUnlessBlank` | crates/nextdb-server/src/chat_log.rs:487-515 | A scanned line of ASCII white space only moves the offset; any other is decoded and indexed, or fails the scan. |
| `Lines.SplitOfLines` | crates/nextdb-server/src/chat_log.rs:385-393 | Splitting a file of lines at newlines gives the lines back, and an empty rest. |
| `ObjectRefCollector.WalkFindsWhatIsDeclared` | crates/nextdb-server/src/object_refs.rs:387-443 | The walk succeeds exactly when every declared position holds a value of its type (or null), and lists exactly the references at declared positions. |
| `ObjectRefCollector.DeclaredIsShown` | crates/nextdb-server/src/object_refs.rs:396-417 | What is declared at a position of reference type is what the object there shows: id, path, content type and hash as strings that are not blank, and a 64-bit size, each under its own name. |
| `ObjectRefCollector.ReferenceIsShown` | crates/nextdb-server/src/object_refs.rs:445-456 | A reference is complete exactly when the object shows one. |
| `ObjectRefCollector.CollectType` | crates/nextdb-server/src/object_refs.rs:387-443 | The accumulating collector appends what the walk finds and stops at the first misfit. |
| `ObjectRefCollector.CollectFields` | crates/nextdb-server/src/object_refs.rs:364-385 | The same for the fields of an object; missing members are passed over. |
| `ObjectRefCollector.CollectDeclaredObjectRefs` | crates/nextdb-server/src/object_refs.rs:354-362 | At the top the document must be an object; null is refused there. |
| `ObjectRefs.DeclaredRecordObjectRefIds` | crates/nextdb-server/src/object_refs.rs:304-331 | A record of a table named without a dot is read by that table's fields, one of `t.n` by those of nested table `n` of `t`, with `t` up to the first dot; its ids are exactly those of references those fields declare. A table that is not in the schema declares none. |
| `ObjectRefs.DeclarationIsReading` | crates/nextdb-server/src/object_refs.rs:304-331 | The declaration looked up is that of exactly those fields. |
| `ObjectRefs.SplitsAtFirstDot` | crates/nextdb-server/src/object_refs.rs:308-308 | A table name is split at its first dot, and not at all exactly if it has none. |
| `ObjectRefs.IndexIsUnique` | crates/nextdb-server/src/object_refs.rs:219-222 | An index without empty source sets is determined by the messages and records it is of. |
| `ObjectRefs.RefState.RetainMessage` | crates/nextdb-server/src/object_refs.rs:253-263 | The index becomes that of one message more; the flag says exactly whether it changed. |
| `ObjectRefs.RefState.RemoveSource` | crates/nextdb-server/src/object_refs.rs:288-301 | The index becomes that without the source, no empty set is left, and the flag says exactly whether it changed. |
| `ObjectRefs.RefState.RetainRecordForSchema` | crates/nextdb-server/src/object_refs.rs:272-286 | The index becomes that of the record in place of whatever had its path; a false flag means nothing changed, and a refused document has already lost its old references. |
| `ObjectRefs.RebuildForSchema` | crates/nextdb-server/src/object_refs.rs:241-251 | Building from scratch gives the index of all messages and the last record per path, or fails exactly when some document does not fit. |
| `ObjectRefs.ObjectRefIndex.RetainMessage` | crates/nextdb-server/src/object_refs.rs:54-66 | The file keeps step with the index; a message without attachments touches neither. |
| `ObjectRefs.ObjectRefIndex.RetainRecordForSchema` | crates/nextdb-server/src/object_refs.rs:89-102 | The file keeps step exactly unless the document is refused and the record had references. |
| `ObjectRefs.RefusedDocumentLeavesFileBehind` | crates/nextdb-server/src/object_refs.rs:89-102 | A stored record with a reference, written again with a document that does not fit, ends with the file out of step. |
| `ObjectRefs.ObjectRefIndex.RemoveRecord` | crates/nextdb-server/src/object_refs.rs:104-113 | The index loses the path's references and the file keeps step. |
| `ObjectRefs.ObjectRefIndex.ApplyRecordChangesForSchema` | crates/nextdb-server/src/object_refs.rs:142-167 | Removals, then documents, then one write. The first misfit leaves the file as it was and the index in memory that of the removals, the documents before it and the removal of its own references; the two stay in step exactly when at each path touched the last document before the misfit refers to what was referred to before, and at the misfit's path nothing was. |
| `ObjectRefs.ObjectRefIndex.ReferencesFor` | crates/nextdb-server/src/object_refs.rs:188-198 | The sources listed for an object are exactly the retained messages and records that refer to it. |
| `Realtime.KeysNeverMeetIffApart` | crates/nextdb-server/src/realtime.rs:440-445 | Two users have no member key in common exactly when neither id continues the other after a U+001F. |
| `Realtime.KeysCanCollide` | crates/nextdb-server/src/realtime.rs:440-445 | Such users can share a key. |
| `Realtime.OneUserKeys` | crates/nextdb-server/src/realtime.rs:440-445 | Different sessions of one user never do. |
| `Realtime.StepByKeyIsStepIffNoMixUp` | crates/nextdb-server/src/realtime.rs:58-183 | What a call does by key is what it means exactly when no member in the way has the key of another seat the call is about. |
| `Realtime.RunByKeyIsRun` | crates/nextdb-server/src/realtime.rs:58-402 | Over any run whose users' ids do not continue one another, what is done by key is what the calls mean. |
| `Realtime.OneUsersRunIsRun` | crates/nextdb-server/src/realtime.rs:58-402 | In particular over every run of one user's calls. |
| `Realtime.MemberIffJoinedAndNotRemoved` | crates/nextdb-server/src/realtime.rs:58-163 | Over any run a (channel, user, session) is present exactly when it joined and was not left, dropped or swept since. |
| `Realtime.MemberByKeyIffJoinedAndNotRemoved` | crates/nextdb-server/src/realtime.rs:58-163 | What the program is left with, for every run and every id: a seat is taken exactly when it joined and nothing removed it by its key since, another seat's join under that key included. |
| `Realtime.MemberShowsLastLabel` | crates/nextdb-server/src/realtime.rs:58-210 | Over any run a present member shows the metadata and time of the last call that labelled its key or its user, and the time it last joined. |
| `Realtime.StateGoesWithLastMember` | crates/nextdb-server/src/realtime.rs:113-122 | A channel's state and sequence go when its last member does, or when orphans are collected and nobody is in it. |
| `Realtime.StateStaysWithMembers` | crates/nextdb-server/src/realtime.rs:230-297 | Otherwise only an update or a sequence call on the channel changes them. |
| `Realtime.VersionCountsAcceptedUpdates` | crates/nextdb-server/src/realtime.rs:230-259 | For every run and every id, a channel's state version is the number of updates accepted since its state was last removed, up to the 64-bit limit. |
| `Realtime.AcceptedIffVersionExpected` | crates/nextdb-server/src/realtime.rs:230-259 | For every run an update is accepted exactly when it names no version or the number of updates accepted since the state was last removed. |
| `Realtime.StateIsLastAccepted` | crates/nextdb-server/src/realtime.rs:230-259 | What is stored is the state and time of the last update accepted. |
| `Realtime.NoLostUpdate` | crates/nextdb-server/src/realtime.rs:230-259 | Likewise for every run: of two updates expecting the same version, the second is accepted only if the channel ended in between. |
| `Realtime.SequencesIncrease` | crates/nextdb-server/src/realtime.rs:292-297 | Likewise for every run: sequence numbers of a channel strictly increase until it ends. |
| `Realtime.RefusedUpdateChangesNothing` | crates/nextdb-server/src/realtime.rs:230-259 | A stale expected version changes nothing. |
| `Realtime.RealtimeChannels.Join` | crates/nextdb-server/src/realtime.rs:58-83 | The maps take the join step by key, for every id: the seat is taken, and whoever else in the channel had its key is gone; it is the step meant exactly when no other seat of the channel has the key. Previous and current members are reported right. |
| `Realtime.RealtimeChannels.Leave` | crates/nextdb-server/src/realtime.rs:85-128 | The maps take the leave step by key: of the channel's seats exactly those with the session's key go, or, without a session, those of the user; an emptied channel goes with its state and sequence. It is the step meant exactly when no other seat has the session's key. |
| `Realtime.RealtimeChannels.LeaveSession` | crates/nextdb-server/src/realtime.rs:130-163 | The maps take the step that drops exactly the seats with the session's key, everywhere; it is the step meant exactly when only that session's seats have the key. |
| `Realtime.RealtimeChannels.UpdateMember` | crates/nextdb-server/src/realtime.rs:165-183 | Whoever has the seat's key is relabelled, and nobody else; it is the seat meant, or one already so labelled, exactly when the step is the one meant. |
| `Realtime.RealtimeChannels.UpdateUserMembers` | crates/nextdb-server/src/realtime.rs:185-210 | All of a user's seats in a channel are relabelled. |
| `Realtime.RealtimeChannels.UpdateState` | crates/nextdb-server/src/realtime.rs:230-259 | Compare-and-set on the version, when the caller names one. |
| `Realtime.RealtimeChannels.NextSequence` | crates/nextdb-server/src/realtime.rs:292-297 | One more than the last number of the channel. |
| `Realtime.RealtimeChannels.CleanupOrphanRuntimeState` | crates/nextdb-server/src/realtime.rs:318-340 | State and sequences of channels nobody is in go, and are counted. |
| `Realtime.RealtimeChannels.CleanupInactiveSessionMembers` | crates/nextdb-server/src/realtime.rs:342-402 | Exactly the seats without a session or of an active user and session stay; the channels that empties go, with their state and sequence. |
| `Realtime.KeptIffLive` | crates/nextdb-server/src/realtime.rs:113-122 | A channel is kept exactly while somebody is in it. |
| `BodyLines.ReadsAreTheLines` | crates/nextdb-server/src/realtime.rs:637-667 | The reads of a body until it closes are its pieces between newlines, decoded, the last one only if something is in it. |
| `BodyLines.LineIsRead` | crates/nextdb-server/src/realtime.rs:824-835 | A line is read as the text before its newline less one carriage return: ignored if empty, a frame if it parses, an error otherwise. |
| `BodyLines.ErrorLosesNothing` | crates/nextdb-server/src/realtime.rs:637-667 | A receive error is reported once, and the line begun before it is read on as if it had not happened. |
| `BodyLines.ChunkingDoesNotMatter` | crates/nextdb-server/src/realtime.rs:637-667 | Any two ways of cutting the same bytes into chunks give the same reads. |
| `BodyLines.BodyJsonLineFrameSource.NextBufferedFrame` | crates/nextdb-server/src/realtime.rs:627-634 | A frame comes out exactly when the buffer holds a newline. |
| `BodyLines.BodyJsonLineFrameSource.NextClientFrame` | crates/nextdb-server/src/realtime.rs:637-667 | Each read is told from the unread bytes alone, receive errors included. |
| `FrameCodec.VarUIntHasValue` | packages/nextdb-behavior-sdk/src/cli.ts:300-310 | The bytes written for a number are one LEB128 number of that value. |
| `FrameCodec.VarUIntIsShortest` | packages/nextdb-behavior-sdk/src/cli.ts:290-298 | No other encoding of the number is shorter. |
| `FrameCodec.NumberLengthFindsNumber` | packages/nextdb-behavior-sdk/src/cli.ts:274-288 | The reader stops exactly where one number of at most five bytes ends inside the message. |
| `FrameCodec.ReadVarUInt` | packages/nextdb-behavior-sdk/src/cli.ts:274-288 | The loop, or-ing shifted bits in 32-bit words, returns the number's value in 32-bit arithmetic and where it ends, or -1 and the end of the message. |
| `FrameCodec.OrAddsSeptet` | packages/nextdb-behavior-sdk/src/cli.ts:279-281 | Or-ing in the next seven bits adds them, up to 32-bit wrap-around: they overlap none already read. |
| `FrameCodec.OrSetsBits` | packages/nextdb-behavior-sdk/src/cli.ts:279-281 | A bit of the result is set exactly when it is set in either number. |
| `FrameCodec.BitsTellNumbers` | packages/nextdb-behavior-sdk/src/cli.ts:279-281 | Numbers with the same bits are the same, so that says which number the result is. |
| `FrameCodec.EncodedVarUIntLength` | packages/nextdb-behavior-sdk/src/cli.ts:290-298 | The precomputed length is exactly the number of bytes written. |
| `FrameCodec.WriteVarUInt` | packages/nextdb-behavior-sdk/src/cli.ts:300-310 | The buffer holds the encoding at the offset and is otherwise unchanged. |
| `FrameCodec.EncodePostcardJsonFrame` | packages/nextdb-behavior-sdk/src/cli.ts:228-237 | The frame is the marker, the length and the payload, with no byte to spare. |
| `FrameCodec.DecodesToIff` | packages/nextdb-behavior-sdk/src/cli.ts:213-226 | A message decodes to a payload exactly when a number reading as zero, a number reading as the payload's length and the payload stand at its start, in encodings of up to five bytes each. |
| `FrameCodec.UnsupportedIff` | packages/nextdb-behavior-sdk/src/cli.ts:213-219 | The encoding is refused exactly when no number at the start reads as zero. |
| `FrameCodec.InvalidLengthIff` | packages/nextdb-behavior-sdk/src/cli.ts:220-224 | The length is refused exactly when there is a marker and no length after it whose payload fits, or ends beyond 32-bit numbers. |
| `FrameCodec.OutOfRangeIff` | packages/nextdb-behavior-sdk/src/cli.ts:220-225 | The payload is read past the end of the message exactly when its end is beyond 32-bit numbers. |
| `FrameCodec.LargestLengthIsOutOfRange` | packages/nextdb-behavior-sdk/src/cli.ts:220-225 | The message 00 FF FF FF FF 07 is such a case. |
| `FrameCodec.DecodePostcardJsonFrame` | packages/nextdb-behavior-sdk/src/cli.ts:213-226 | The decoder's outcome is the one those statements are about, for every message. |
| `FrameCodec.LengthTestIsExactIffNoWrap` | packages/nextdb-behavior-sdk/src/cli.ts:222-224 | Of messages with both numbers, those whose payload does not fit are refused precisely while the sum the test computes stays within 32 bits. |
| `FrameCodec.DecodeInvertsEncode` | packages/nextdb-behavior-sdk/src/cli.ts:213-237 | Decoding an encoded frame gives the payload back whenever the frame's length fits a 32-bit number. |

## Left out

- Interleaving: each shard runs its commands one at a time, but several calls await more than one command; all results are for sequential calls.
- UpsertScopeRows: asks for a tree within the router's reach when it is called, and says exactly when it leaves one; `UpsertKeepsOneCopyIffShallow` says exactly what goes wrong otherwise.
- RunOperations: takes a bound on every scope at depth 33 as its condition, which is sufficient for the run; call by call the condition of `UpsertScopeRows` is exact.
- Scope keys are a base (table and partition) with a list of child indexes; that a base key contains no `/child:` is built into this form.
- `tier_down_if_idle`, subscription reference counts, residency tiers and turn counters of scope actors: clearing rows without clearing the directory's counts is not modelled.
- Results that only report (inserted and updated counts, activation results, sweep statistics, room status) are not modelled.
- The order of rows inside a drained scope: the program's maps have none that is observable.
- Splitting children beyond two: the program always splits in two.
- RecoveryMatchesLogOrder: assumes that a path names one table and key, that each scope of the snapshot has its table actor, and that rows start where they route.
- RunIsWindow: is for histories the comparison orders, which `OrderedIffCutsAgree` tells; on others what the library's sort does is unspecified.
- WindowIsNewest: is for durable messages with distinct LSNs, for the same reason.
- Reading a room's window (`latest`, `before`) and cold reads behind it.
- `ActorReminderWheel.status`, and the runtime loop that fires what was taken.
- Room actors other than their stamp are not part of `RoomResidency`; the window is `RoomWindow`.
- Index-prefix table subscriptions are kept in the subscription set but never reach the router, as in the program; matching them against record values is not modelled.
- AddTableSubscription: takes subscriptions as validated, with no index values without an index name; `RangeRemovalExactIffAlone` says why that matters.
- RunStaysFresh: claims the record list only; query evaluation over the hot and disk overlays is one abstract filter, order, cursor and limit; the fingerprint of a page is taken to be collision-free.
- Predicates, index lookups and cursors of queries are arbitrary conditions on records.
- Deleted hints and paging fields of a query diff, which are copied through.
- String lengths in the byte estimate count characters.
- `ChatLog.latest` across several buckets, legacy bucket files, and the choice of bucket by day.
- PutMessages: asks that room ids carry no NUL and that LSN and time fit 64 bits.
- AppendManyEncoded: asks that the file stays below 2^64 bytes.
- A torn data file, and an index file damaged otherwise than by missing lines.
- The projection's values are messages; the envelope format and the older JSON form are not modelled.
- Error messages of the object-reference collector: a failure is only a failure.
- Free-form object references found without a schema, which the program uses in its own tests only.
- `list_channels`, `has_member`, sweep statistics and the reports returned by `leave_session` and the session sweep.
- Sequence numbers are unbounded.
- JSON parsing of client frames is an arbitrary test on the line's text; the WebSocket source is not modelled.
- Payloads of the frame codec are bytes; their UTF-8 decoding and the error document are not modelled.
- HTTP routing, authentication, the admin interface, metrics, Wasm execution, the object store, clustering, WAL replication, aggregates and the client SDK.
