/**
 The reminder wheel: durable timers ordered by due time, at most one per actor and
 reminder id, and its reconstruction from the write-ahead log.
 */
module ReminderWheel {
  import opened Lex
  import opened Options
  import opened Sorting
  import opened Text

  datatype ActorKind = Room | Scope | Table | View | Aggregate {
    function AsStr(): string {
      match this
      case Room => "room"
      case Scope => "scope"
      case Table => "table"
      case View => "view"
      case Aggregate => "aggregate"
    }
  }

  function FromWalStr(value: string): Option<ActorKind> {
    if value == "room" then Some(Room)
    else if value == "scope" then Some(Scope)
    else if value == "table" then Some(Table)
    else if value == "view" then Some(View)
    else if value == "aggregate" then Some(Aggregate)
    else None
  }

  datatype ActorId = ActorId(kind: ActorKind, key: string)

  /** What a reminder is known by. */
  datatype Name = Name(actor: ActorId, reminderId: string)

  datatype Entry = Entry(actor: ActorId, reminderId: string, dueAtMs: nat, payload: Option<string>)

  function NameOf(entry: Entry): Name {
    Name(entry.actor, entry.reminderId)
  }

  // ---------------------------------------------------------------- the order of the wheel

  datatype ReminderKey = ReminderKey(dueAtMs: nat, actorKind: string, actorKey: string, reminderId: string)

  function KeyOf(entry: Entry): ReminderKey {
    ReminderKey(entry.dueAtMs, entry.actor.kind.AsStr(), entry.actor.key, entry.reminderId)
  }

  predicate KeyLess(a: ReminderKey, b: ReminderKey) {
    a.dueAtMs < b.dueAtMs ||
    (a.dueAtMs == b.dueAtMs &&
     (Less(a.actorKind, b.actorKind) ||
      (a.actorKind == b.actorKind &&
       (Less(a.actorKey, b.actorKey) || (a.actorKey == b.actorKey && Less(a.reminderId, b.reminderId))))))
  }

  lemma KeyLessIsTotal(a: ReminderKey, b: ReminderKey)
    ensures a == b || KeyLess(a, b) || KeyLess(b, a)
    ensures !(KeyLess(a, b) && KeyLess(b, a)) && !KeyLess(a, a)
  {
    KeyStringsCompare(a.actorKind, b.actorKind);
    KeyStringsCompare(a.actorKey, b.actorKey);
    KeyStringsCompare(a.reminderId, b.reminderId);
  }

  lemma KeyStringsCompare(a: string, b: string)
    ensures a == b || Less(a, b) || Less(b, a)
    ensures !(Less(a, b) && Less(b, a)) && !Less(a, a) && !Less(b, b)
  {
    Trichotomy(a, b);
    Irreflexive(a);
    Irreflexive(b);
    if Less(a, b) {
      Asymmetric(a, b);
    }
  }

  lemma KeyLessIsTransitive(a: ReminderKey, b: ReminderKey, c: ReminderKey)
    requires KeyLess(a, b) && KeyLess(b, c)
    ensures KeyLess(a, c)
  {
    if Less(a.actorKind, b.actorKind) && Less(b.actorKind, c.actorKind) {
      Transitive(a.actorKind, b.actorKind, c.actorKind);
    }
    if Less(a.actorKey, b.actorKey) && Less(b.actorKey, c.actorKey) {
      Transitive(a.actorKey, b.actorKey, c.actorKey);
    }
    if Less(a.reminderId, b.reminderId) && Less(b.reminderId, c.reminderId) {
      Transitive(a.reminderId, b.reminderId, c.reminderId);
    }
  }

  predicate IsLeast(key: ReminderKey, keys: set<ReminderKey>) {
    key in keys && forall k :: k in keys ==> k == key || KeyLess(key, k)
  }

  lemma {:induction false} HasLeast(keys: set<ReminderKey>)
    requires keys != {}
    ensures exists key :: IsLeast(key, keys)
    decreases keys
  {
    var some :| some in keys;
    if keys == {some} {
      assert IsLeast(some, keys);
    } else {
      HasLeast(keys - {some});
      var key :| IsLeast(key, keys - {some});
      KeyLessIsTotal(some, key);
      if KeyLess(key, some) {
        assert IsLeast(key, keys);
      } else {
        forall k | k in keys && k != some
          ensures KeyLess(some, k)
        {
          if k != key {
            KeyLessIsTransitive(some, key, k);
          }
        }
        assert IsLeast(some, keys);
      }
    }
  }

  /** An in-order walk over `keys` has been through `done` and still has `rest` before it. */
  ghost predicate Walked(keys: set<ReminderKey>, done: seq<ReminderKey>, rest: set<ReminderKey>) {
    rest <= keys && (forall k :: k in keys <==> k in rest || k in done) &&
    (forall i, k :: 0 <= i < |done| && k in rest ==> KeyLess(done[i], k)) &&
    (forall i, j :: 0 <= i < j < |done| ==> KeyLess(done[i], done[j]))
  }

  lemma WalkOn(keys: set<ReminderKey>, done: seq<ReminderKey>, rest: set<ReminderKey>, key: ReminderKey)
    requires Walked(keys, done, rest) && IsLeast(key, rest)
    ensures Walked(keys, done + [key], rest - {key})
  {
    forall k | k in keys
      ensures k in rest - {key} || k in done + [key]
    {
      assert k in done ==> k in done + [key];
    }
  }

  /** The next key of an in-order walk over a sorted map. */
  method FirstKey(keys: set<ReminderKey>) returns (key: ReminderKey)
    requires keys != {}
    ensures IsLeast(key, keys)
  {
    HasLeast(keys);
    key :| key in keys && IsLeast(key, keys);
  }

  // ---------------------------------------------------------------- what taking the due reminders means

  ghost predicate InKeyOrder(entries: seq<Entry>) {
    forall i, j :: 0 <= i < j < |entries| ==> KeyLess(KeyOf(entries[i]), KeyOf(entries[j]))
  }

  /** `taken` are the first `limit` due reminders of `pending`, in order. */
  ghost predicate Earliest(pending: map<Name, Entry>, nowMs: nat, limit: nat, taken: seq<Entry>) {
    |taken| <= limit && InKeyOrder(taken) &&
    (forall e :: e in taken ==> e.dueAtMs <= nowMs && NameOf(e) in pending && pending[NameOf(e)] == e) &&
    (forall n :: n in pending && pending[n].dueAtMs <= nowMs && pending[n] !in taken ==>
       |taken| == limit && forall e :: e in taken ==> KeyLess(KeyOf(e), KeyOf(pending[n])))
  }

  ghost function Names(entries: seq<Entry>): set<Name> {
    set e | e in entries :: NameOf(e)
  }

  /** Entries filed one after the other, a later one replacing an earlier one of the same name. */
  function Filed(pending: map<Name, Entry>, entries: seq<Entry>): map<Name, Entry> {
    if entries == [] then pending
    else var last := entries[|entries| - 1]; Filed(pending, entries[..|entries| - 1])[NameOf(last) := last]
  }

  lemma {:induction false} FiledAt(pending: map<Name, Entry>, entries: seq<Entry>, name: Name)
    ensures name !in Names(entries) ==> SameAt(Filed(pending, entries), pending, name)
    ensures name in Names(entries) ==> name in Filed(pending, entries) && Filed(pending, entries)[name] in entries
    ensures name in Names(entries) ==> NameOf(Filed(pending, entries)[name]) == name
  {
    if entries != [] {
      var init, last := entries[..|entries| - 1], entries[|entries| - 1];
      FiledAt(pending, init, name);
      assert entries == init + [last];
      assert Names(entries) == Names(init) + {NameOf(last)};
    }
  }

  ghost predicate SameAt(a: map<Name, Entry>, b: map<Name, Entry>, name: Name) {
    (name in a <==> name in b) && (name in a ==> a[name] == b[name])
  }

  /** Putting back what was taken leaves every reminder as it was. */
  lemma RequeueUndoesTake(pending: map<Name, Entry>, nowMs: nat, limit: nat, taken: seq<Entry>)
    requires forall n :: n in pending ==> NameOf(pending[n]) == n
    requires Earliest(pending, nowMs, limit, taken)
    ensures Filed(pending - Names(taken), taken) == pending
  {
    var left := pending - Names(taken);
    forall n: Name
      ensures SameAt(Filed(left, taken), pending, n)
    {
      FiledAt(left, taken, n);
    }
    assert forall n :: n in pending ==> SameAt(Filed(left, taken), pending, n);
    assert forall n :: n in Filed(left, taken) ==> SameAt(Filed(left, taken), pending, n);
  }

  /** The entry falls due earlier, or at the same time with the lesser kind, actor key or id. */
  predicate Sooner(a: Entry, b: Entry) {
    if a.dueAtMs != b.dueAtMs then a.dueAtMs < b.dueAtMs
    else if a.actor.kind != b.actor.kind then Less(a.actor.kind.AsStr(), b.actor.kind.AsStr())
    else if a.actor.key != b.actor.key then Less(a.actor.key, b.actor.key)
    else Less(a.reminderId, b.reminderId)
  }

  lemma SoonerIsKeyLess(a: Entry, b: Entry)
    ensures KeyLess(KeyOf(a), KeyOf(b)) <==> Sooner(a, b)
  {
    Irreflexive(a.actor.kind.AsStr());
    Irreflexive(a.actor.key);
    KindIsNamed(a.actor.kind);
    KindIsNamed(b.actor.kind);
  }

  lemma KindIsNamed(kind: ActorKind)
    ensures FromWalStr(kind.AsStr()) == Some(kind)
  {
  }

  /** Those taken come in order of their due times, and what is due and left behind comes later than each. */
  lemma EarliestAreSooner(pending: map<Name, Entry>, nowMs: nat, limit: nat, taken: seq<Entry>)
    requires Earliest(pending, nowMs, limit, taken)
    ensures forall i, j :: 0 <= i < j < |taken| ==> Sooner(taken[i], taken[j])
    ensures forall n, e :: n in pending && pending[n].dueAtMs <= nowMs && pending[n] !in taken && e in taken ==>
              |taken| == limit && Sooner(e, pending[n])
  {
    forall i, j | 0 <= i < j < |taken|
      ensures Sooner(taken[i], taken[j])
    {
      SoonerIsKeyLess(taken[i], taken[j]);
    }
    forall n, e | n in pending && pending[n].dueAtMs <= nowMs && pending[n] !in taken && e in taken
      ensures |taken| == limit && Sooner(e, pending[n])
    {
      SoonerIsKeyLess(e, pending[n]);
    }
  }

  // ---------------------------------------------------------------- the wheel

  class ActorReminderWheel {
    var entries: map<ReminderKey, Entry>
    ghost var pending: map<Name, Entry>

    /** Every entry is filed under its own due time and name, and no name is filed twice. */
    ghost predicate Valid()
      reads this
    {
      (forall k :: k in entries ==> Holds(k)) && (forall n :: n in pending ==> Files(n))
    }

    ghost predicate Holds(k: ReminderKey)
      requires k in entries
      reads this
    {
      var entry := entries[k];
      k == KeyOf(entry) && NameOf(entry) in pending && pending[NameOf(entry)] == entry
    }

    ghost predicate Files(n: Name)
      requires n in pending
      reads this
    {
      var entry := pending[n];
      NameOf(entry) == n && KeyOf(entry) in entries && entries[KeyOf(entry)] == entry
    }

    constructor ()
      ensures Valid() && pending == map[]
    {
      entries := map[];
      pending := map[];
    }

    method Remove(actor: ActorId, reminderId: string) returns (removed: Option<Entry>)
      requires Valid()
      modifies this
      ensures Valid() && pending == old(pending) - {Name(actor, reminderId)}
      ensures removed ==
                if Name(actor, reminderId) in old(pending) then Some(old(pending)[Name(actor, reminderId)]) else None
    {
      var rest := entries.Keys;
      ghost var name := Name(actor, reminderId);
      while rest != {}
        invariant Valid() && entries == old(entries) && pending == old(pending) && rest <= entries.Keys
        invariant name in pending ==> KeyOf(pending[name]) in rest
        decreases |rest|
      {
        var key := FirstKey(rest);
        assert Holds(key);
        if entries[key].actor == actor && entries[key].reminderId == reminderId {
          removed := Some(entries[key]);
          RemoveKey(key);
          return;
        }
        rest := rest - {key};
      }
      return None;
    }

    method RemoveKey(key: ReminderKey)
      requires Valid() && key in entries
      modifies this
      ensures Valid() && entries == old(entries) - {key} && pending == old(pending) - {NameOf(old(entries)[key])}
    {
      assert Holds(key);
      pending := pending - {NameOf(entries[key])};
      entries := entries - {key};
      forall k | k in entries
        ensures Holds(k)
      {
        assert old(Holds(k));
      }
      forall n | n in pending
        ensures Files(n)
      {
        assert old(Files(n));
      }
    }

    method Upsert(entry: Entry)
      requires Valid()
      modifies this
      ensures Valid() && pending == old(pending)[NameOf(entry) := entry]
    {
      var _ := Remove(entry.actor, entry.reminderId);
      label removed:
      entries := entries[KeyOf(entry) := entry];
      pending := pending[NameOf(entry) := entry];
      forall k | k in entries
        ensures Holds(k)
      {
        if k != KeyOf(entry) {
          assert old@removed(Holds(k));
        }
      }
      forall n | n in pending
        ensures Files(n)
      {
        if n != NameOf(entry) {
          assert old@removed(Files(n));
        }
      }
    }

    /** Exactly the earliest due reminders, at most `limit` of them, leave the wheel. */
    method TakeDue(nowMs: nat, limit: nat) returns (taken: seq<Entry>)
      requires Valid()
      modifies this
      ensures Valid() && pending == old(pending) - Names(taken)
      ensures Earliest(old(pending), nowMs, limit, taken)
    {
      if limit == 0 {
        return [];
      }
      var dueKeys := DueKeys(nowMs, limit);
      forall i, j | 0 <= i < j < |dueKeys|
        ensures dueKeys[i] != dueKeys[j]
      {
        KeyLessIsTotal(dueKeys[i], dueKeys[j]);
      }
      taken := RemoveKeys(dueKeys);
      assert old(Valid());
      FirstDueAreEarliest(old(entries), old(pending), nowMs, limit, dueKeys, taken);
    }

    method RemoveKeys(keys: seq<ReminderKey>) returns (removed: seq<Entry>)
      requires Valid()
      requires forall k :: k in keys ==> k in entries
      requires forall i, j :: 0 <= i < j < |keys| ==> keys[i] != keys[j]
      modifies this
      ensures Valid() && pending == old(pending) - Names(removed)
      ensures |removed| == |keys| && forall i :: 0 <= i < |keys| ==> removed[i] == old(entries)[keys[i]]
    {
      removed := [];
      for i := 0 to |keys|
        invariant Valid() && i == |removed| && pending == old(pending) - Names(removed)
        invariant forall j :: 0 <= j < i ==> removed[j] == old(entries)[keys[j]]
        invariant forall j :: i <= j < |keys| ==> keys[j] in entries && entries[keys[j]] == old(entries)[keys[j]]
      {
        var entry := entries[keys[i]];
        RemoveKey(keys[i]);
        assert Names(removed + [entry]) == Names(removed) + {NameOf(entry)};
        removed := removed + [entry];
      }
    }

    /** `take_while` the key is due, `take` at most `limit`. */
    method DueKeys(nowMs: nat, limit: nat) returns (dueKeys: seq<ReminderKey>)
      requires Valid()
      ensures FirstDue(entries, nowMs, limit, dueKeys)
    {
      dueKeys := [];
      var rest := entries.Keys;
      while rest != {} && |dueKeys| < limit
        invariant Walked(entries.Keys, dueKeys, rest) && |dueKeys| <= limit
        invariant forall k :: k in dueKeys ==> k.dueAtMs <= nowMs
        decreases |rest|
      {
        var key := FirstKey(rest);
        if key.dueAtMs > nowMs {
          return;
        }
        WalkOn(entries.Keys, dueKeys, rest, key);
        dueKeys := dueKeys + [key];
        rest := rest - {key};
      }
    }

    method Requeue(reminders: seq<Entry>)
      requires Valid()
      modifies this
      ensures Valid() && pending == Filed(old(pending), reminders)
    {
      var i := 0;
      while i < |reminders|
        invariant 0 <= i <= |reminders| && Valid() && pending == Filed(old(pending), reminders[..i])
      {
        Upsert(reminders[i]);
        assert reminders[..i + 1][..i] == reminders[..i];
        i := i + 1;
      }
      assert reminders[..|reminders|] == reminders;
    }

    /** One record of the log takes effect. */
    method Replay(record: WalRecord)
      requires Valid()
      modifies this
      ensures Valid() && pending == AfterRecord(old(pending), record)
    {
      match record.payload {
        case ReminderScheduled(draft) =>
          var entry := EntryFromDraft(draft);
          if entry.Some? {
            Upsert(entry.value);
          }
        case ReminderCancelled(kind, key, id) =>
          var actor := ActorIdFromWalParts(kind, key);
          if actor.Some? {
            var _ := Remove(actor.value, id);
          }
        case ReminderFired(kind, key, id) =>
          var actor := ActorIdFromWalParts(kind, key);
          if actor.Some? {
            var _ := Remove(actor.value, id);
          }
        case OtherFact =>
      }
    }

    /** The entries found by key and those found by name are the same. */
    lemma FiledUnderKeyAndName()
      requires Valid()
      ensures forall k :: k in entries ==> KeyOf(entries[k]) == k
      ensures forall e {:trigger KeyOf(e)} :: KeyOf(e) in entries && entries[KeyOf(e)] == e <==>
                                               NameOf(e) in pending && pending[NameOf(e)] == e
    {
      forall k | k in entries
        ensures KeyOf(entries[k]) == k
      {
        assert Holds(k);
      }
      forall e {:trigger KeyOf(e)}
        ensures KeyOf(e) in entries && entries[KeyOf(e)] == e <==> NameOf(e) in pending && pending[NameOf(e)] == e
      {
        if KeyOf(e) in entries {
          assert Holds(KeyOf(e));
        }
        if NameOf(e) in pending {
          assert Files(NameOf(e));
        }
      }
    }

    /** `into_values`: what the wheel holds, in key order. */
    method Values() returns (values: seq<Entry>)
      requires Valid()
      ensures InKeyOrder(values)
      ensures forall e :: e in values <==> NameOf(e) in pending && pending[NameOf(e)] == e
    {
      var keys := KeysInOrder();
      var filed := entries;
      values := seq(|keys|, i requires 0 <= i < |keys| && keys[i] in filed => filed[keys[i]]);
      FiledUnderKeyAndName();
      ListedByKey(entries, keys, values);
    }

    method KeysInOrder() returns (keys: seq<ReminderKey>)
      ensures Walked(entries.Keys, keys, {})
      ensures forall i :: 0 <= i < |keys| ==> keys[i] in entries
    {
      keys := [];
      var rest := entries.Keys;
      while rest != {}
        invariant Walked(entries.Keys, keys, rest)
        decreases |rest|
      {
        var key := FirstKey(rest);
        WalkOn(entries.Keys, keys, rest, key);
        keys := keys + [key];
        rest := rest - {key};
      }
      forall i | 0 <= i < |keys|
        ensures keys[i] in entries
      {
        assert keys[i] in keys;
      }
    }
  }

  lemma ListedByKey(entries: map<ReminderKey, Entry>, keys: seq<ReminderKey>, values: seq<Entry>)
    requires Walked(entries.Keys, keys, {}) && |values| == |keys|
    requires forall k :: k in entries ==> KeyOf(entries[k]) == k
    requires forall i :: 0 <= i < |keys| ==> keys[i] in entries && values[i] == entries[keys[i]]
    ensures InKeyOrder(values)
    ensures forall e :: e in values <==> KeyOf(e) in entries && entries[KeyOf(e)] == e
  {
    forall e | KeyOf(e) in entries && entries[KeyOf(e)] == e
      ensures e in values
    {
      assert KeyOf(e) in keys;
      var i :| 0 <= i < |keys| && keys[i] == KeyOf(e);
      assert values[i] == e;
    }
  }

  ghost predicate FirstDue(entries: map<ReminderKey, Entry>, nowMs: nat, limit: nat, dueKeys: seq<ReminderKey>) {
    |dueKeys| <= limit &&
    (forall i, j :: 0 <= i < j < |dueKeys| ==> KeyLess(dueKeys[i], dueKeys[j])) &&
    (forall k :: k in dueKeys ==> k in entries && k.dueAtMs <= nowMs) &&
    (forall k :: k in entries && k.dueAtMs <= nowMs && k !in dueKeys ==>
       |dueKeys| == limit && forall i :: 0 <= i < |dueKeys| ==> KeyLess(dueKeys[i], k))
  }

  lemma FirstDueAreEarliest(entries: map<ReminderKey, Entry>, pending: map<Name, Entry>, nowMs: nat, limit: nat,
                            dueKeys: seq<ReminderKey>, taken: seq<Entry>)
    requires forall k :: k in entries ==>
               k == KeyOf(entries[k]) && NameOf(entries[k]) in pending && pending[NameOf(entries[k])] == entries[k]
    requires forall n :: n in pending ==> KeyOf(pending[n]) in entries && entries[KeyOf(pending[n])] == pending[n]
    requires FirstDue(entries, nowMs, limit, dueKeys) && |taken| == |dueKeys|
    requires forall i :: 0 <= i < |taken| ==> dueKeys[i] in entries && taken[i] == entries[dueKeys[i]]
    ensures Earliest(pending, nowMs, limit, taken)
  {
    forall e | e in taken
      ensures e.dueAtMs <= nowMs && NameOf(e) in pending && pending[NameOf(e)] == e
    {
      var i :| 0 <= i < |taken| && taken[i] == e;
      assert dueKeys[i] in dueKeys;
    }
    forall n | n in pending && pending[n].dueAtMs <= nowMs && pending[n] !in taken
      ensures |taken| == limit && forall e :: e in taken ==> KeyLess(KeyOf(e), KeyOf(pending[n]))
    {
      var key := KeyOf(pending[n]);
      forall i | 0 <= i < |dueKeys|
        ensures dueKeys[i] != key
      {
        assert taken[i] in taken;
      }
      assert key !in dueKeys;
    }
  }

  // ---------------------------------------------------------------- actor ids in the log

  function ActorIdFromWalParts(kind: string, key: string): Option<ActorId> {
    match FromWalStr(Trim(kind))
    case None => None
    case Some(known) => if Trim(key) == [] then None else Some(ActorId(known, Trim(key)))
  }

  /** The log gives an actor id back exactly when its key is not blank and carries no white space at its ends. */
  lemma WalPartsRoundTrip(id: ActorId)
    ensures ActorIdFromWalParts(id.kind.AsStr(), id.key) == Some(id) <==>
              id.key != [] && !White(id.key[0]) && !White(id.key[|id.key| - 1])
  {
    TrimmedStays(id.kind.AsStr());
    var lead, trail := TrimStrips(id.key);
  }

  // ---------------------------------------------------------------- replaying the log

  datatype ReminderDraft = ReminderDraft(actorKind: string, actorKey: string, reminderId: string, dueAtMs: nat,
                                         payload: Option<string>)

  datatype Payload = ReminderScheduled(reminder: ReminderDraft)
                   | ReminderCancelled(actorKind: string, actorKey: string, reminderId: string)
                   | ReminderFired(actorKind: string, actorKey: string, reminderId: string)
                   | OtherFact

  datatype WalRecord = WalRecord(lsn: nat, payload: Payload)

  function EntryFromDraft(draft: ReminderDraft): Option<Entry> {
    match ActorIdFromWalParts(draft.actorKind, draft.actorKey)
    case None => None
    case Some(actor) => Some(Entry(actor, draft.reminderId, draft.dueAtMs, draft.payload))
  }

  /** The reminder a record is about, if it is about one. */
  function About(record: WalRecord): Option<Name> {
    match record.payload
    case ReminderScheduled(draft) => Titled(draft.actorKind, draft.actorKey, draft.reminderId)
    case ReminderCancelled(kind, key, id) => Titled(kind, key, id)
    case ReminderFired(kind, key, id) => Titled(kind, key, id)
    case OtherFact => None
  }

  function Titled(kind: string, key: string, id: string): Option<Name> {
    match ActorIdFromWalParts(kind, key)
    case None => None
    case Some(actor) => Some(Name(actor, id))
  }

  /** The parts, trimmed, are those of the name, and a key is left. */
  predicate PartsName(kind: string, key: string, id: string, name: Name) {
    Trim(kind) == name.actor.kind.AsStr() && Trim(key) == name.actor.key && name.actor.key != [] &&
    id == name.reminderId
  }

  /** The record schedules, cancels or fires the reminder of this name. */
  predicate Concerns(record: WalRecord, name: Name) {
    match record.payload
    case ReminderScheduled(draft) => PartsName(draft.actorKind, draft.actorKey, draft.reminderId, name)
    case ReminderCancelled(kind, key, id) => PartsName(kind, key, id, name)
    case ReminderFired(kind, key, id) => PartsName(kind, key, id, name)
    case OtherFact => false
  }

  lemma TitledByParts(kind: string, key: string, id: string, name: Name)
    ensures Titled(kind, key, id) == Some(name) <==> PartsName(kind, key, id, name)
  {
    KindIsNamed(name.actor.kind);
  }

  lemma AboutWhatItConcerns(record: WalRecord, name: Name)
    ensures About(record) == Some(name) <==> Concerns(record, name)
  {
    match record.payload
    case ReminderScheduled(draft) => TitledByParts(draft.actorKind, draft.actorKey, draft.reminderId, name);
    case ReminderCancelled(kind, key, id) => TitledByParts(kind, key, id, name);
    case ReminderFired(kind, key, id) => TitledByParts(kind, key, id, name);
    case OtherFact =>
  }

  /** Among the records of the log, the one with the highest LSN that concerns `name`. */
  ghost predicate LastFact(log: seq<WalRecord>, name: Name, record: WalRecord) {
    record in log && Concerns(record, name) && forall r :: r in log && Concerns(r, name) ==> r.lsn <= record.lsn
  }

  /** The record schedules the reminder of this name as `entry`, due when the draft says and with its payload. */
  predicate Schedules(record: WalRecord, name: Name, entry: Entry) {
    record.payload.ReminderScheduled? && entry.actor == name.actor && entry.reminderId == name.reminderId &&
    entry.dueAtMs == record.payload.reminder.dueAtMs && entry.payload == record.payload.reminder.payload
  }

  lemma DraftSchedules(record: WalRecord, name: Name, entry: Entry)
    requires Concerns(record, name) && record.payload.ReminderScheduled?
    ensures EntryFromDraft(record.payload.reminder) == Some(entry) <==> Schedules(record, name, entry)
  {
    AboutWhatItConcerns(record, name);
  }

  ghost predicate DistinctLsns(log: seq<WalRecord>) {
    forall i, j :: 0 <= i < j < |log| ==> log[i].lsn != log[j].lsn
  }

  predicate LsnAtMost(a: WalRecord, b: WalRecord) {
    a.lsn <= b.lsn
  }

  function Replayed(records: seq<WalRecord>): map<Name, Entry> {
    if records == [] then map[]
    else
      AfterRecord(Replayed(records[..|records| - 1]), records[|records| - 1])
  }

  function AfterRecord(pending: map<Name, Entry>, record: WalRecord): map<Name, Entry> {
    match About(record)
    case None => pending
    case Some(name) =>
      if record.payload.ReminderScheduled? then pending[name := EntryFromDraft(record.payload.reminder).value]
      else pending - {name}
  }

  lemma {:induction false} LastRecordDecides(records: seq<WalRecord>, name: Name, i: nat)
    requires LastMention(records, i, name)
    ensures name in Replayed(records) <==> records[i].payload.ReminderScheduled?
    ensures records[i].payload.ReminderScheduled? ==>
              Some(Replayed(records)[name]) == EntryFromDraft(records[i].payload.reminder)
  {
    if i < |records| - 1 {
      var init := records[..|records| - 1];
      assert !Mentions(records, |records| - 1, name);
      assert forall j :: Mentions(init, j, name) ==> Mentions(records, j, name);
      LastRecordDecides(init, name, i);
    }
  }

  lemma {:induction false} UnmentionedIsNotPending(records: seq<WalRecord>, name: Name)
    requires forall j :: !Mentions(records, j, name)
    ensures name !in Replayed(records)
  {
    if records != [] {
      var init := records[..|records| - 1];
      assert !Mentions(records, |records| - 1, name);
      assert forall j :: Mentions(init, j, name) ==> Mentions(records, j, name);
      UnmentionedIsNotPending(init, name);
    }
  }

  lemma LsnOrderOrders(log: seq<WalRecord>)
    ensures OrdersAll(LsnAtMost, log)
  {
  }

  /** The reminder named `name` ends up pending, as `entry`, exactly when its last fact by LSN schedules it so. */
  lemma LastFactDecides(log: seq<WalRecord>, name: Name, entry: Entry)
    requires DistinctLsns(log)
    ensures name in Replayed(Sort(LsnAtMost, log)) && Replayed(Sort(LsnAtMost, log))[name] == entry <==>
            exists record :: LastFact(log, name, record) && Schedules(record, name, entry)
  {
    var ordered := Sort(LsnAtMost, log);
    forall record
      ensures About(record) == Some(name) <==> Concerns(record, name)
    {
      AboutWhatItConcerns(record, name);
    }
    SortPermutes(LsnAtMost, log);
    MembersOf(ordered, log);
    if exists j :: Mentions(ordered, j, name) {
      HasLastMention(ordered, name, |ordered|);
      var i :| LastMention(ordered, i, name);
      LastRecordDecides(ordered, name, i);
      LastMentionIsLastFact(log, name, i);
      forall record | LastFact(log, name, record)
        ensures record == ordered[i]
      {
        SameLsnSameRecord(log, record, ordered[i]);
      }
      if ordered[i].payload.ReminderScheduled? {
        DraftSchedules(ordered[i], name, entry);
      }
    } else {
      UnmentionedIsNotPending(ordered, name);
      forall record | LastFact(log, name, record)
        ensures false
      {
        MemberOf(log, ordered, record);
        var j :| 0 <= j < |ordered| && ordered[j] == record;
        assert Mentions(ordered, j, name);
      }
    }
  }

  lemma SameLsnSameRecord(log: seq<WalRecord>, a: WalRecord, b: WalRecord)
    requires DistinctLsns(log) && a in log && b in log && a.lsn == b.lsn
    ensures a == b
  {
    var i :| 0 <= i < |log| && log[i] == a;
    var j :| 0 <= j < |log| && log[j] == b;
  }

  ghost predicate Mentions(records: seq<WalRecord>, i: int, name: Name) {
    0 <= i < |records| && About(records[i]) == Some(name)
  }

  ghost predicate LastMention(records: seq<WalRecord>, i: int, name: Name) {
    Mentions(records, i, name) && forall j :: Mentions(records, j, name) ==> j <= i
  }

  lemma {:induction false} HasLastMention(records: seq<WalRecord>, name: Name, n: nat)
    requires n <= |records| && exists j :: Mentions(records, j, name)
    requires forall j :: Mentions(records, j, name) ==> j < n
    ensures exists i :: LastMention(records, i, name)
  {
    if n > 0 && Mentions(records, n - 1, name) {
      assert LastMention(records, n - 1, name);
    } else if n > 0 {
      HasLastMention(records, name, n - 1);
    }
  }

  lemma LastMentionIsLastFact(log: seq<WalRecord>, name: Name, i: nat)
    requires LastMention(Sort(LsnAtMost, log), i, name)
    ensures LastFact(log, name, Sort(LsnAtMost, log)[i])
  {
    var ordered := Sort(LsnAtMost, log);
    LsnOrderOrders(log);
    SortSorts(LsnAtMost, log);
    SortPermutes(LsnAtMost, log);
    MembersOf(ordered, log);
    assert ordered[i] in ordered;
    AboutWhatItConcerns(ordered[i], name);
    forall r | r in log && Concerns(r, name)
      ensures r.lsn <= ordered[i].lsn
    {
      AboutWhatItConcerns(r, name);
      assert r in ordered;
      MentionIsEarlier(ordered, i, name, r);
    }
  }

  lemma MentionIsEarlier(ordered: seq<WalRecord>, i: nat, name: Name, r: WalRecord)
    requires SortedBy(LsnAtMost, ordered) && LastMention(ordered, i, name) && r in ordered && About(r) == Some(name)
    ensures r.lsn <= ordered[i].lsn
  {
    var j :| 0 <= j < |ordered| && ordered[j] == r;
    assert Mentions(ordered, j, name);
    if j < i {
      assert LsnAtMost(ordered[j], ordered[i]);
    }
  }

  /** The reminders left by a log: replayed in LSN order through a wheel, and listed in key order. */
  method RemindersFromWalRecords(log: seq<WalRecord>) returns (reminders: seq<Entry>)
    ensures InKeyOrder(reminders)
    ensures forall e :: e in reminders <==>
              var pending := Replayed(Sort(LsnAtMost, log)); NameOf(e) in pending && pending[NameOf(e)] == e
  {
    var ordered := Sort(LsnAtMost, log);
    var wheel := new ActorReminderWheel();
    var i := 0;
    while i < |ordered|
      invariant 0 <= i <= |ordered| && wheel.Valid() && wheel.pending == Replayed(ordered[..i])
    {
      assert ordered[..i + 1][..i] == ordered[..i];
      wheel.Replay(ordered[i]);
      i := i + 1;
    }
    assert ordered[..|ordered|] == ordered;
    reminders := wheel.Values();
  }
}
