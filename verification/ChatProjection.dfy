/**
 The projection of the chat log in an ordered key-value store: one entry per message,
 a reference per message to the key of its entry, and room reads by prefix scan.
 */
module ChatProjection {
  import opened ChatKeys
  import opened Lex
  import opened Messages
  import opened Options
  import opened SortedKeys

  // ---------------------------------------------------------------- the store and its invariant

  datatype Store = Store(messages: map<string, Message>, refs: map<string, string>)

  ghost predicate MessageOk(l: Layout, store: Store, key: string)
    requires key in store.messages
  {
    var m := store.messages[key];
    l.Storable(m) && key == l.key(m) && l.ref(m) in store.refs && store.refs[l.ref(m)] == key
  }

  ghost predicate RefOk(l: Layout, store: Store, ref: string)
    requires ref in store.refs
  {
    store.refs[ref] in store.messages && l.ref(store.messages[store.refs[ref]]) == ref
  }

  /** One entry per room and id, filed under its own key, and the reference map points to it. */
  ghost predicate Indexed(l: Layout, store: Store) {
    (forall key {:trigger MessageOk(l, store, key)} :: key in store.messages ==> MessageOk(l, store, key)) &&
    (forall ref {:trigger RefOk(l, store, ref)} :: ref in store.refs ==> RefOk(l, store, ref))
  }

  /** What is stored, by room and id. */
  ghost function Stored(l: Layout, store: Store): map<string, Message>
    requires Indexed(l, store)
  {
    map ref | ref in store.refs && RefOk(l, store, ref) :: store.messages[store.refs[ref]]
  }

  /** What was stored, with the messages of a batch in its place. */
  function Updated(l: Layout, stored: map<string, Message>, batch: seq<Message>): map<string, Message> {
    if batch == [] then stored
    else var last := batch[|batch| - 1]; Updated(l, stored, batch[..|batch| - 1])[l.ref(last) := last]
  }

  /** The references a batch finds before it changes anything. */
  function PreviousKeys(l: Layout, refs: map<string, string>, batch: seq<Message>): seq<Option<string>> {
    seq(|batch|, i requires 0 <= i < |batch| => if l.ref(batch[i]) in refs then Some(refs[l.ref(batch[i])]) else None)
  }

  /** One message of a batch: the entry it replaces goes, the new one and its reference come. */
  function Replace(l: Layout, store: Store, m: Message, previous: Option<string>): Store {
    var kept := if previous.Some? then store.messages - {previous.value} else store.messages;
    Store(kept[l.key(m) := m], store.refs[l.ref(m) := l.key(m)])
  }

  function PutAll(l: Layout, store: Store, batch: seq<Message>, previous: seq<Option<string>>): Store
    requires |previous| == |batch|
  {
    if batch == [] then store
    else
      var n := |batch| - 1;
      Replace(l, PutAll(l, store, batch[..n], previous[..n]), batch[n], previous[n])
  }

  lemma SameKeySameRef(l: Layout, a: Message, b: Message)
    requires Sound(l) && l.Storable(a) && l.Storable(b) && l.key(a) == l.key(b)
    ensures l.ref(a) == l.ref(b)
  {
    assert KeysTell(l, a, b);
  }

  // ---------------------------------------------------------------- where a batch leaves the store

  /** The last message of a batch under each reference. */
  function LastByRef(l: Layout, batch: seq<Message>): map<string, Message> {
    Updated(l, map[], batch)
  }

  /** The last message of a batch under each key. */
  function LastByKey(l: Layout, batch: seq<Message>): map<string, Message> {
    if batch == [] then map[]
    else var last := batch[|batch| - 1]; LastByKey(l, batch[..|batch| - 1])[l.key(last) := last]
  }

  ghost predicate AllStorable(l: Layout, batch: seq<Message>) {
    forall i :: 0 <= i < |batch| ==> l.Storable(batch[i])
  }

  lemma {:induction false} LastOnes(l: Layout, batch: seq<Message>)
    requires AllStorable(l, batch)
    ensures forall r :: r in LastByRef(l, batch) ==>
              l.Storable(LastByRef(l, batch)[r]) && l.ref(LastByRef(l, batch)[r]) == r
    ensures forall k :: k in LastByKey(l, batch) ==>
              l.Storable(LastByKey(l, batch)[k]) && l.key(LastByKey(l, batch)[k]) == k
    ensures forall k :: k in LastByKey(l, batch) ==> l.ref(LastByKey(l, batch)[k]) in LastByRef(l, batch)
    ensures forall i :: 0 <= i < |batch| ==>
              l.key(batch[i]) in LastByKey(l, batch) && l.ref(batch[i]) in LastByRef(l, batch)
  {
    if batch != [] {
      var before, last := batch[..|batch| - 1], batch[|batch| - 1];
      LastOnes(l, before);
      assert LastByRef(l, batch) == LastByRef(l, before)[l.ref(last) := last] && l.Storable(last);
      forall i | 0 <= i < |batch|
        ensures l.key(batch[i]) in LastByKey(l, batch) && l.ref(batch[i]) in LastByRef(l, batch)
      {
        assert i < |batch| - 1 ==> batch[i] == before[i];
      }
    }
  }

  /** The last message under a reference is the last one under its own key. */
  lemma {:induction false} LastByRefIsLastByKey(l: Layout, batch: seq<Message>, ref: string)
    requires Sound(l) && AllStorable(l, batch) && ref in LastByRef(l, batch)
    ensures var m := LastByRef(l, batch)[ref]; l.key(m) in LastByKey(l, batch) && LastByKey(l, batch)[l.key(m)] == m
  {
    var before, last := batch[..|batch| - 1], batch[|batch| - 1];
    LastOnes(l, batch);
    if ref != l.ref(last) {
      LastByRefIsLastByKey(l, before, ref);
      LastOnes(l, before);
      assert KeysTell(l, last, LastByRef(l, before)[ref]);
    }
  }

  /**
   A key stored before stays unless its reference is mentioned; a key of the batch is there unless it was to be
   replaced and was.
   */
  ghost predicate Present(l: Layout, before: Store, batch: seq<Message>, key: string)
    requires AllStorable(l, batch)
  {
    (key in before.messages && l.ref(before.messages[key]) !in LastByRef(l, batch)) ||
    (key in LastByKey(l, batch) && Kept(l, before, batch, LastByKey(l, batch)[key]))
  }

  ghost predicate Kept(l: Layout, before: Store, batch: seq<Message>, m: Message) {
    var ref := l.ref(m);
    ref in before.refs && before.refs[ref] == l.key(m) ==>
      ref in LastByRef(l, batch) && l.key(LastByRef(l, batch)[ref]) == l.key(m)
  }

  ghost predicate KeyLeft(l: Layout, before: Store, after: Store, batch: seq<Message>, key: string)
    requires AllStorable(l, batch)
  {
    (key in after.messages <==> Present(l, before, batch, key)) &&
    (key in after.messages ==>
       if key in LastByKey(l, batch) then after.messages[key] == LastByKey(l, batch)[key]
       else key in before.messages && after.messages[key] == before.messages[key])
  }

  ghost predicate RefLeft(l: Layout, before: Store, after: Store, batch: seq<Message>, ref: string) {
    (ref in after.refs <==> ref in before.refs || ref in LastByRef(l, batch)) &&
    (ref in LastByRef(l, batch) ==> after.refs[ref] == l.key(LastByRef(l, batch)[ref])) &&
    (ref in before.refs && ref !in LastByRef(l, batch) ==> after.refs[ref] == before.refs[ref])
  }

  ghost predicate Leaves(l: Layout, before: Store, after: Store, batch: seq<Message>)
    requires AllStorable(l, batch)
  {
    (forall key {:trigger KeyLeft(l, before, after, batch, key)} :: KeyLeft(l, before, after, batch, key)) &&
    (forall ref {:trigger RefLeft(l, before, after, batch, ref)} :: RefLeft(l, before, after, batch, ref))
  }

  function PreviousKey(l: Layout, before: Store, m: Message): Option<string> {
    if l.ref(m) in before.refs then Some(before.refs[l.ref(m)]) else None
  }

  /** What is stored before under the reference of a message is stored under the key to be replaced. */
  lemma StoredUnderPrevious(l: Layout, before: Store, m: Message, key: string)
    requires Indexed(l, before) && key in before.messages && l.ref(before.messages[key]) == l.ref(m)
    ensures PreviousKey(l, before, m) == Some(key)
  {
    assert MessageOk(l, before, key);
  }

  lemma LastOneMore(l: Layout, batch: seq<Message>, m: Message)
    ensures LastByKey(l, batch + [m]) == LastByKey(l, batch)[l.key(m) := m]
    ensures LastByRef(l, batch + [m]) == LastByRef(l, batch)[l.ref(m) := m]
  {
    assert (batch + [m])[..|batch|] == batch;
  }

  /** The key of the message put is there with that message. */
  lemma OwnKeyLeft(l: Layout, before: Store, after: Store, batch: seq<Message>, m: Message)
    requires AllStorable(l, batch + [m])
    ensures KeyLeft(l, before, Replace(l, after, m, PreviousKey(l, before, m)), batch + [m], l.key(m))
  {
    LastOneMore(l, batch, m);
  }

  /** Another key under the reference of the message is gone. */
  lemma ReplacedKeyLeft(l: Layout, before: Store, after: Store, batch: seq<Message>, m: Message, key: string)
    requires Sound(l) && Indexed(l, before) && AllStorable(l, batch) && AllStorable(l, batch + [m])
    requires key != l.key(m) && PreviousKey(l, before, m) == Some(key)
    ensures KeyLeft(l, before, Replace(l, after, m, PreviousKey(l, before, m)), batch + [m], key)
  {
    LastOneMore(l, batch, m);
    assert RefOk(l, before, l.ref(m)) && MessageOk(l, before, key);
    if key in LastByKey(l, batch) {
      LastOnes(l, batch);
      SameKeySameRef(l, LastByKey(l, batch)[key], before.messages[key]);
    }
  }

  lemma OtherKeyLeft(l: Layout, before: Store, after: Store, batch: seq<Message>, m: Message, key: string)
    requires Sound(l) && Indexed(l, before) && AllStorable(l, batch) && AllStorable(l, batch + [m])
    requires KeyLeft(l, before, after, batch, key) && key != l.key(m) && PreviousKey(l, before, m) != Some(key)
    ensures KeyLeft(l, before, Replace(l, after, m, PreviousKey(l, before, m)), batch + [m], key)
  {
    LastOneMore(l, batch, m);
    if key in before.messages && l.ref(before.messages[key]) == l.ref(m) {
      StoredUnderPrevious(l, before, m, key);
    }
    if key in LastByKey(l, batch) {
      LastOnes(l, batch);
      var other := LastByKey(l, batch)[key];
      assert Kept(l, before, batch, other) <==> Kept(l, before, batch + [m], other);
    }
  }

  /** Message by message, the store is left as described. */
  lemma {:induction false} PutAllLeaves(l: Layout, before: Store, batch: seq<Message>)
    requires Sound(l) && Indexed(l, before) && AllStorable(l, batch)
    ensures Leaves(l, before, PutAll(l, before, batch, PreviousKeys(l, before.refs, batch)), batch)
  {
    if batch == [] {
      forall key
        ensures KeyLeft(l, before, before, batch, key)
      {
      }
    } else {
      var n := |batch| - 1;
      var init, m := batch[..n], batch[n];
      assert PreviousKeys(l, before.refs, batch)[..n] == PreviousKeys(l, before.refs, init);
      PutAllLeaves(l, before, init);
      var store := PutAll(l, before, init, PreviousKeys(l, before.refs, init));
      var after := Replace(l, store, m, PreviousKey(l, before, m));
      assert batch == init + [m];
      forall key
        ensures KeyLeft(l, before, after, batch, key)
      {
        assert KeyLeft(l, before, store, init, key);
        if key == l.key(m) {
          OwnKeyLeft(l, before, store, init, m);
        } else if PreviousKey(l, before, m) == Some(key) {
          ReplacedKeyLeft(l, before, store, init, m, key);
        } else {
          OtherKeyLeft(l, before, store, init, m, key);
        }
      }
      forall ref
        ensures RefLeft(l, before, after, batch, ref)
      {
        assert RefLeft(l, before, store, init, ref);
      }
    }
  }

  // ---------------------------------------------------------------- repeated messages

  /** A mention under a reference uses the key of the last mention, or the key stored before. */
  ghost predicate MentionSettles(l: Layout, refs: map<string, string>, batch: seq<Message>, m: Message) {
    var ref := l.ref(m);
    ref in LastByRef(l, batch) &&
    (l.key(m) == l.key(LastByRef(l, batch)[ref]) || (ref in refs && refs[ref] == l.key(m)))
  }

  ghost predicate KeysSettle(l: Layout, refs: map<string, string>, batch: seq<Message>) {
    forall i {:trigger MentionSettles(l, refs, batch, batch[i])} :: 0 <= i < |batch| ==>
      MentionSettles(l, refs, batch, batch[i])
  }

  lemma {:induction false} LastByKeyIsMentioned(l: Layout, batch: seq<Message>, key: string) returns (i: nat)
    requires key in LastByKey(l, batch)
    ensures i < |batch| && batch[i] == LastByKey(l, batch)[key]
  {
    i := |batch| - 1;
    if key != l.key(batch[i]) {
      i := LastByKeyIsMentioned(l, batch[..i], key);
    }
  }

  /**
   A batch keeps the store indexed exactly when its mentions settle; then it holds what it held, overwritten by the
   batch.
   */
  lemma BatchKeepsIndexedIff(l: Layout, before: Store, batch: seq<Message>)
    requires Sound(l) && Indexed(l, before) && AllStorable(l, batch)
    ensures var after := PutAll(l, before, batch, PreviousKeys(l, before.refs, batch));
            (Indexed(l, after) <==> KeysSettle(l, before.refs, batch)) &&
            (Indexed(l, after) ==> Stored(l, after) == Updated(l, Stored(l, before), batch))
  {
    var after := PutAll(l, before, batch, PreviousKeys(l, before.refs, batch));
    PutAllLeaves(l, before, batch);
    LastOnes(l, batch);
    if KeysSettle(l, before.refs, batch) {
      SettledIsIndexed(l, before, after, batch);
      StoredAfterBatch(l, before, after, batch);
    } else if Indexed(l, after) {
      forall i | 0 <= i < |batch|
        ensures MentionSettles(l, before.refs, batch, batch[i])
      {
        IndexedMentionSettles(l, before, after, batch, i);
      }
    }
  }

  lemma IndexedMentionSettles(l: Layout, before: Store, after: Store, batch: seq<Message>, i: nat)
    requires Sound(l) && AllStorable(l, batch) && Leaves(l, before, after, batch) && Indexed(l, after) && i < |batch|
    ensures MentionSettles(l, before.refs, batch, batch[i])
  {
    var m := batch[i];
    var key, ref := l.key(m), l.ref(m);
    LastOnes(l, batch);
    SameKeySameRef(l, m, LastByKey(l, batch)[key]);
    if !(ref in before.refs && before.refs[ref] == key) {
      assert KeyLeft(l, before, after, batch, key) && Present(l, before, batch, key);
      assert MessageOk(l, after, key) && RefLeft(l, before, after, batch, ref);
    }
  }

  lemma SettledIsIndexed(l: Layout, before: Store, after: Store, batch: seq<Message>)
    requires Sound(l) && Indexed(l, before) && AllStorable(l, batch) && Leaves(l, before, after, batch)
    requires KeysSettle(l, before.refs, batch)
    ensures Indexed(l, after)
    ensures forall ref :: ref in LastByRef(l, batch) ==>
              ref in after.refs && RefOk(l, after, ref) && after.messages[after.refs[ref]] == LastByRef(l, batch)[ref]
    ensures forall ref :: ref in before.refs && ref !in LastByRef(l, batch) ==>
              RefOk(l, before, ref) && ref in after.refs && RefOk(l, after, ref) &&
              after.messages[after.refs[ref]] == before.messages[before.refs[ref]]
  {
    LastOnes(l, batch);
    forall key | key in after.messages
      ensures MessageOk(l, after, key)
    {
      SettledKeyIsOk(l, before, after, batch, key);
    }
    forall ref | ref in LastByRef(l, batch)
      ensures ref in after.refs && RefOk(l, after, ref) && after.messages[after.refs[ref]] == LastByRef(l, batch)[ref]
    {
      var key := l.key(LastByRef(l, batch)[ref]);
      LastByRefIsLastByKey(l, batch, ref);
      assert RefLeft(l, before, after, batch, ref) && KeyLeft(l, before, after, batch, key);
    }
    forall ref | ref in before.refs && ref !in LastByRef(l, batch)
      ensures RefOk(l, before, ref) && ref in after.refs && RefOk(l, after, ref)
      ensures after.messages[after.refs[ref]] == before.messages[before.refs[ref]]
    {
      UnmentionedStays(l, before, after, batch, ref);
    }
    forall ref | ref in after.refs
      ensures RefOk(l, after, ref)
    {
      assert RefLeft(l, before, after, batch, ref);
    }
  }

  lemma SettledKeyIsOk(l: Layout, before: Store, after: Store, batch: seq<Message>, key: string)
    requires Sound(l) && Indexed(l, before) && AllStorable(l, batch) && Leaves(l, before, after, batch)
    requires KeysSettle(l, before.refs, batch) && key in after.messages
    ensures MessageOk(l, after, key)
  {
    assert KeyLeft(l, before, after, batch, key);
    LastOnes(l, batch);
    if key in LastByKey(l, batch) {
      var i := LastByKeyIsMentioned(l, batch, key);
      assert MentionSettles(l, before.refs, batch, batch[i]);
      if key in before.messages {
        assert MessageOk(l, before, key);
        SameKeySameRef(l, before.messages[key], batch[i]);
      }
      assert RefLeft(l, before, after, batch, l.ref(batch[i]));
    } else {
      assert MessageOk(l, before, key);
      assert RefLeft(l, before, after, batch, l.ref(before.messages[key]));
    }
  }

  lemma UnmentionedStays(l: Layout, before: Store, after: Store, batch: seq<Message>, ref: string)
    requires Sound(l) && Indexed(l, before) && AllStorable(l, batch) && Leaves(l, before, after, batch)
    requires ref in before.refs && ref !in LastByRef(l, batch)
    ensures RefOk(l, before, ref) && ref in after.refs && RefOk(l, after, ref)
    ensures after.messages[after.refs[ref]] == before.messages[before.refs[ref]]
  {
    var key := before.refs[ref];
    assert RefOk(l, before, ref) && MessageOk(l, before, key);
    LastOnes(l, batch);
    if key in LastByKey(l, batch) {
      SameKeySameRef(l, LastByKey(l, batch)[key], before.messages[key]);
    }
    assert RefLeft(l, before, after, batch, ref) && KeyLeft(l, before, after, batch, key);
  }

  lemma {:induction false} UpdatedIsLast(l: Layout, stored: map<string, Message>, batch: seq<Message>)
    ensures Updated(l, stored, batch) == stored + LastByRef(l, batch)
  {
    if batch == [] {
      assert stored + map[] == stored;
    } else {
      UpdatedIsLast(l, stored, batch[..|batch| - 1]);
    }
  }

  lemma StoredAfterBatch(l: Layout, before: Store, after: Store, batch: seq<Message>)
    requires Sound(l) && Indexed(l, before) && AllStorable(l, batch) && Leaves(l, before, after, batch)
    requires KeysSettle(l, before.refs, batch) && Indexed(l, after)
    ensures Stored(l, after) == Updated(l, Stored(l, before), batch)
  {
    SettledIsIndexed(l, before, after, batch);
    UpdatedIsLast(l, Stored(l, before), batch);
    var expected := Stored(l, before) + LastByRef(l, batch);
    forall ref
      ensures ref in Stored(l, after) <==> ref in expected
      ensures ref in Stored(l, after) && ref in expected ==> Stored(l, after)[ref] == expected[ref]
    {
      assert RefLeft(l, before, after, batch, ref);
      if ref in before.refs {
        assert RefOk(l, before, ref);
      }
      if ref in after.refs {
        assert RefOk(l, after, ref);
      }
    }
  }

  /** A new message listed under two keys leaves a stray entry. */
  lemma RepeatedMessageLeavesStray()
    ensures exists batch: seq<Message> ::
              AllStorable(ChatLayout(), batch) &&
              !Indexed(ChatLayout(),
                       PutAll(ChatLayout(), Store(map[], map[]), batch, PreviousKeys(ChatLayout(), map[], batch)))
  {
    var l := ChatLayout();
    var first := Message("id", "room", "sender", "", [], 0, 1, "");
    var second := first.(lsn := 2);
    var batch := [first, second];
    ChatLayoutIsSound();
    KeyNamesMessage(first, second);
    assert batch[..1] == [first] && LastByRef(l, batch)[l.ref(first)] == second by {
      RefNamesMessage(first, second);
    }
    assert !MentionSettles(l, map[], batch, batch[0]);
    BatchKeepsIndexedIff(l, Store(map[], map[]), batch);
    assert AllStorable(l, batch);
  }

  // ---------------------------------------------------------------- reading a room

  predicate Wanted(m: Message, beforeLsn: Option<nat>) {
    beforeLsn.None? || m.lsn < beforeLsn.value
  }

  /** The newest `count` stored messages of a room below `beforeLsn`, newest first. */
  ghost predicate NewestOf(l: Layout, stored: map<string, Message>, room: string, beforeLsn: Option<nat>, count: nat,
                           shown: seq<Message>)
  {
    |shown| <= count &&
    (forall i, j :: 0 <= i < j < |shown| ==> Newer(shown[i], shown[j])) &&
    (forall m :: m in shown ==>
       l.ref(m) in stored && stored[l.ref(m)] == m && m.roomId == room &&
       (beforeLsn.Some? ==> m.lsn < beforeLsn.value)) &&
    (forall ref ::
       ref in stored && stored[ref].roomId == room && (beforeLsn.Some? ==> stored[ref].lsn < beforeLsn.value) &&
       stored[ref] !in shown ==>
       |shown| == count && forall m :: m in shown ==> Newer(m, stored[ref]))
  }

  /** The keys a scan for a room goes through, in order. */
  ghost predicate RoomKeys(l: Layout, store: Store, room: string, keys: seq<string>) {
    Ascending(keys) && forall k :: k in keys <==> k in store.messages && l.prefix(room) <= k
  }

  /** What has been shown after `done` keys: the wanted messages among them, in key order. */
  ghost predicate Scanned(l: Layout, store: Store, keys: seq<string>, done: nat, beforeLsn: Option<nat>,
                          shown: seq<Message>)
  {
    done <= |keys| &&
    (forall j :: 0 <= j < |keys| ==> keys[j] in store.messages) &&
    (forall j {:trigger Covered(store, keys[j], beforeLsn, shown)} :: 0 <= j < done ==>
       Covered(store, keys[j], beforeLsn, shown)) &&
    (forall i {:trigger Listed(l, store, keys, done, shown[i])} :: 0 <= i < |shown| ==>
       Listed(l, store, keys, done, shown[i])) &&
    (forall i :: 0 <= i < |shown| ==> Wanted(shown[i], beforeLsn)) &&
    (forall i, j :: 0 <= i < j < |shown| ==> Less(l.key(shown[i]), l.key(shown[j])))
  }

  ghost predicate Covered(store: Store, key: string, beforeLsn: Option<nat>, shown: seq<Message>)
    requires key in store.messages
  {
    Wanted(store.messages[key], beforeLsn) ==> store.messages[key] in shown
  }

  ghost predicate Listed(l: Layout, store: Store, keys: seq<string>, done: nat, m: Message) {
    exists j ::
      0 <= j < done <= |keys| && keys[j] in store.messages && store.messages[keys[j]] == m && l.key(m) == keys[j]
  }

  lemma ScanStarts(l: Layout, store: Store, room: string, keys: seq<string>, beforeLsn: Option<nat>)
    requires RoomKeys(l, store, room, keys)
    ensures Scanned(l, store, keys, 0, beforeLsn, [])
  {
    forall j | 0 <= j < |keys|
      ensures keys[j] in store.messages
    {
      assert keys[j] in keys;
    }
  }

  lemma ScanOn(l: Layout, store: Store, keys: seq<string>, done: nat, beforeLsn: Option<nat>, shown: seq<Message>)
    requires Indexed(l, store) && Ascending(keys) && Scanned(l, store, keys, done, beforeLsn, shown) && done < |keys|
    ensures var m := store.messages[keys[done]];
            Scanned(l, store, keys, done + 1, beforeLsn, if Wanted(m, beforeLsn) then shown + [m] else shown)
  {
    var m := store.messages[keys[done]];
    forall i | 0 <= i < |shown|
      ensures Listed(l, store, keys, done + 1, shown[i]) && Less(l.key(shown[i]), keys[done])
    {
      ListedEarlier(l, store, keys, done, shown[i]);
    }
    if Wanted(m, beforeLsn) {
      assert l.key(m) == keys[done] && Listed(l, store, keys, done + 1, m) by {
        assert MessageOk(l, store, keys[done]);
      }
      forall j | 0 <= j < done + 1
        ensures Covered(store, keys[j], beforeLsn, shown + [m])
      {
        assert j < done ==> Covered(store, keys[j], beforeLsn, shown);
      }
    }
  }

  lemma ListedEarlier(l: Layout, store: Store, keys: seq<string>, done: nat, m: Message)
    requires Ascending(keys) && Listed(l, store, keys, done, m) && done < |keys|
    ensures Listed(l, store, keys, done + 1, m) && Less(l.key(m), keys[done])
  {
  }

  /** No id is seen twice, since a room has one entry per id. */
  lemma NextIsUnseen(l: Layout, store: Store, room: string, keys: seq<string>, done: nat, beforeLsn: Option<nat>,
                     shown: seq<Message>, i: nat)
    requires Sound(l) && l.named(room) && Indexed(l, store) && RoomKeys(l, store, room, keys)
    requires Scanned(l, store, keys, done, beforeLsn, shown) && done < |keys| && i < |shown|
    ensures shown[i].id != store.messages[keys[done]].id
  {
    var m, other := store.messages[keys[done]], shown[i];
    assert Listed(l, store, keys, done, other);
    var j :| 0 <= j < done && store.messages[keys[j]] == other && l.key(other) == keys[j];
    assert keys[j] in keys && keys[done] in keys;
    assert MessageOk(l, store, keys[j]) && MessageOk(l, store, keys[done]);
    Irreflexive(keys[j]);
    assert Less(keys[j], keys[done]);
    assert KeysTell(l, m, other);
    InRoom(l, room, m);
    InRoom(l, room, other);
  }

  ghost predicate SeenIn(shown: seq<Message>, seen: set<string>) {
    forall id :: id in seen ==> exists n :: 0 <= n < |shown| && shown[n].id == id
  }

  lemma SeenOneMore(shown: seq<Message>, seen: set<string>, m: Message)
    requires SeenIn(shown, seen)
    ensures SeenIn(shown + [m], seen + {m.id})
  {
    assert (shown + [m])[|shown|] == m;
    forall id | id in seen
      ensures exists n :: 0 <= n < |shown + [m]| && (shown + [m])[n].id == id
    {
      var n :| 0 <= n < |shown| && shown[n].id == id;
      assert (shown + [m])[n].id == id;
    }
  }

  lemma Unseen(l: Layout, store: Store, room: string, keys: seq<string>, done: nat, beforeLsn: Option<nat>,
               shown: seq<Message>, seen: set<string>)
    requires Sound(l) && l.named(room) && Indexed(l, store) && RoomKeys(l, store, room, keys)
    requires Scanned(l, store, keys, done, beforeLsn, shown) && done < |keys|
    requires SeenIn(shown, seen)
    ensures store.messages[keys[done]].id !in seen
  {
    forall n | 0 <= n < |shown|
      ensures shown[n].id != store.messages[keys[done]].id
    {
      NextIsUnseen(l, store, room, keys, done, beforeLsn, shown, n);
    }
  }

  /** The scan is `done` keys in, and has shown what is wanted of them. */
  ghost predicate Scanning(l: Layout, store: Store, room: string, keys: seq<string>, done: nat, beforeLsn: Option<nat>,
                           shown: seq<Message>, seen: set<string>)
  {
    RoomKeys(l, store, room, keys) && Scanned(l, store, keys, done, beforeLsn, shown) && SeenIn(shown, seen)
  }

  /** The next key: its message is new, and shown if it is wanted. */
  lemma ScanNext(l: Layout, store: Store, room: string, keys: seq<string>, done: nat, beforeLsn: Option<nat>,
                 shown: seq<Message>, seen: set<string>)
    requires Sound(l) && l.named(room) && Indexed(l, store)
    requires Scanning(l, store, room, keys, done, beforeLsn, shown, seen) && done < |keys|
    ensures keys[done] in store.messages
    ensures var m := store.messages[keys[done]];
            m.id !in seen &&
            if Wanted(m, beforeLsn)
            then Scanning(l, store, room, keys, done + 1, beforeLsn, shown + [m], seen + {m.id})
            else Scanning(l, store, room, keys, done + 1, beforeLsn, shown, seen)
  {
    ScanOn(l, store, keys, done, beforeLsn, shown);
    Unseen(l, store, room, keys, done, beforeLsn, shown, seen);
    SeenOneMore(shown, seen, store.messages[keys[done]]);
  }

  lemma InRoom(l: Layout, room: string, m: Message)
    requires Sound(l) && l.named(room) && l.Storable(m)
    ensures l.prefix(room) <= l.key(m) <==> m.roomId == room
  {
    assert PrefixTells(l, room, m);
  }

  lemma ScanShowsNewest(l: Layout, store: Store, room: string, keys: seq<string>, done: nat, beforeLsn: Option<nat>,
                        count: nat, shown: seq<Message>)
    requires Sound(l) && l.named(room) && Indexed(l, store) && RoomKeys(l, store, room, keys)
    requires Scanned(l, store, keys, done, beforeLsn, shown) && |shown| <= count && (done == |keys| || |shown| == count)
    ensures NewestOf(l, Stored(l, store), room, beforeLsn, count, shown)
  {
    forall i | 0 <= i < |shown|
      ensures IsStored(l, store, room, shown[i])
    {
      ShownIsStored(l, store, room, keys, done, shown[i]);
    }
    forall i, j | 0 <= i < j < |shown|
      ensures Newer(shown[i], shown[j])
    {
      assert IsStored(l, store, room, shown[i]) && IsStored(l, store, room, shown[j]);
      InOrder(l, shown[i], shown[j]);
    }
    forall ref | ref in store.refs && MissedIn(l, store, room, beforeLsn, shown, ref)
      ensures |shown| == count && RefOk(l, store, ref)
      ensures forall i :: 0 <= i < |shown| ==> Newer(shown[i], store.messages[store.refs[ref]])
    {
      MissedIsOlder(l, store, room, keys, done, beforeLsn, shown, ref);
    }
    forall ref | ref in Stored(l, store)
      ensures ref in store.refs && store.refs[ref] in store.messages &&
              Stored(l, store)[ref] == store.messages[store.refs[ref]]
    {
      assert RefOk(l, store, ref);
    }
    forall m | m in shown
      ensures IsStored(l, store, room, m)
    {
      var i :| 0 <= i < |shown| && shown[i] == m;
    }
  }

  ghost predicate IsStored(l: Layout, store: Store, room: string, m: Message)
    requires Indexed(l, store)
  {
    l.Storable(m) && m.roomId == room && l.ref(m) in Stored(l, store) && Stored(l, store)[l.ref(m)] == m
  }

  lemma ShownIsStored(l: Layout, store: Store, room: string, keys: seq<string>, done: nat, m: Message)
    requires Sound(l) && l.named(room) && Indexed(l, store) && RoomKeys(l, store, room, keys)
    requires Listed(l, store, keys, done, m)
    ensures IsStored(l, store, room, m)
  {
    var j :| 0 <= j < done && store.messages[keys[j]] == m && l.key(m) == keys[j];
    assert keys[j] in keys && MessageOk(l, store, keys[j]) && RefOk(l, store, l.ref(m));
    InRoom(l, room, m);
  }

  lemma InOrder(l: Layout, a: Message, b: Message)
    requires Sound(l) && l.Storable(a) && l.Storable(b) && a.roomId == b.roomId
    ensures Less(l.key(a), l.key(b)) <==> Newer(a, b)
  {
    assert KeysTell(l, a, b);
  }

  ghost predicate MissedIn(l: Layout, store: Store, room: string, beforeLsn: Option<nat>, shown: seq<Message>,
                           ref: string)
    requires Indexed(l, store) && ref in store.refs
  {
    assert RefOk(l, store, ref);
    var m := store.messages[store.refs[ref]];
    m.roomId == room && Wanted(m, beforeLsn) && m !in shown
  }

  lemma MissedIsOlder(l: Layout, store: Store, room: string, keys: seq<string>, done: nat, beforeLsn: Option<nat>,
                      shown: seq<Message>, ref: string)
    requires Sound(l) && l.named(room) && Indexed(l, store) && RoomKeys(l, store, room, keys)
    requires Scanned(l, store, keys, done, beforeLsn, shown)
    requires ref in store.refs && MissedIn(l, store, room, beforeLsn, shown, ref)
    ensures done < |keys| && RefOk(l, store, ref)
    ensures forall i :: 0 <= i < |shown| ==> Newer(shown[i], store.messages[store.refs[ref]])
  {
    assert RefOk(l, store, ref);
    var key := store.refs[ref];
    var m := store.messages[key];
    assert MessageOk(l, store, key);
    InRoom(l, room, m);
    assert key in keys;
    var n :| 0 <= n < |keys| && keys[n] == key;
    assert done <= n by {
      assert n < done ==> Covered(store, keys[n], beforeLsn, shown);
    }
    forall i | 0 <= i < |shown|
      ensures Newer(shown[i], m)
    {
      assert Listed(l, store, keys, done, shown[i]);
      ShownIsStored(l, store, room, keys, done, shown[i]);
      InOrder(l, shown[i], m);
    }
  }

  class ChatLogProjection {
    var messages: map<string, Message>
    var refs: map<string, string>

    /** The keys used; the chat log's own are those of `ChatLayout`. */
    const layout: Layout

    ghost predicate Valid()
      reads this
    {
      Sound(layout) && Indexed(layout, Store(messages, refs))
    }

    /** The messages stored, by room and id. */
    ghost function Contents(): map<string, Message>
      requires Valid()
      reads this
    {
      Stored(layout, Store(messages, refs))
    }

    constructor ()
      ensures Valid() && Contents() == map[] && layout == ChatLayout()
    {
      layout := ChatLayout();
      messages, refs := map[], map[];
      ChatLayoutIsSound();
    }

    /** All references are looked up before the batch changes any. */
    method PutMessages(batch: seq<Message>)
      requires Valid() && AllStorable(layout, batch)
      modifies this
      ensures Valid() <==> KeysSettle(layout, old(refs), batch)
      ensures Valid() ==> Contents() == Updated(layout, old(Contents()), batch)
      ensures Leaves(layout, Store(old(messages), old(refs)), Store(messages, refs), batch)
    {
      ghost var before := Store(messages, refs);
      PutAllLeaves(layout, before, batch);
      BatchKeepsIndexedIff(layout, before, batch);
      if batch == [] {
        return;
      }
      var replacements := FindReplacements(batch);
      for i := 0 to |batch|
        invariant Store(messages, refs) == PutAll(layout, before, batch[..i], replacements[..i])
      {
        assert batch[..i + 1][..i] == batch[..i] && replacements[..i + 1][..i] == replacements[..i];
        if replacements[i].Some? {
          messages := messages - {replacements[i].value};
        }
        var key := layout.key(batch[i]);
        messages := messages[key := batch[i]];
        refs := refs[layout.ref(batch[i]) := key];
      }
      assert batch[..|batch|] == batch && replacements[..|batch|] == replacements;
    }

    method FindReplacements(batch: seq<Message>) returns (replacements: seq<Option<string>>)
      ensures replacements == PreviousKeys(layout, refs, batch)
    {
      replacements := [];
      for i := 0 to |batch|
        invariant replacements == PreviousKeys(layout, refs, batch)[..i]
      {
        var ref := layout.ref(batch[i]);
        replacements := replacements + [if ref in refs then Some(refs[ref]) else None];
      }
    }

    /** A prefix scan with early exit; a `limit` of zero still lets one message through. */
    method Latest(room: string, beforeLsn: Option<nat>, limit: nat) returns (shown: seq<Message>)
      requires Valid() && layout.named(room)
      ensures NewestOf(layout, Contents(), room, beforeLsn, if limit == 0 then 1 else limit, shown)
    {
      shown := [];
      var seen: set<string> := {};
      var keys := Ordered(set k | k in messages && layout.prefix(room) <= k);
      ghost var count, store := if limit == 0 then 1 else limit, Store(messages, refs);
      ScanStarts(layout, store, room, keys, beforeLsn);
      assert Scanning(layout, store, room, keys, 0, beforeLsn, shown, seen);
      var i := 0;
      while i < |keys|
        invariant 0 <= i <= |keys| && |shown| < count
        invariant Scanning(layout, store, room, keys, i, beforeLsn, shown, seen)
      {
        ScanNext(layout, store, room, keys, i, beforeLsn, shown, seen);
        var message := messages[keys[i]];
        i := i + 1;
        if beforeLsn.Some? && message.lsn >= beforeLsn.value {
          continue;
        }
        if message.id !in seen {
          seen := seen + {message.id};
          shown := shown + [message];
        }
        if |shown| >= limit {
          break;
        }
      }
      ScanShowsNewest(layout, store, room, keys, i, beforeLsn, count, shown);
    }
  }
}
