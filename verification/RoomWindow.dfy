/** The bounded window of recent messages a room actor keeps, with its append path that skips sorting. */
module RoomWindow {
  import opened Lex
  import opened Messages
  import opened Sorting

  function Newest<T>(s: seq<T>, count: nat): seq<T> {
    if |s| <= count then s else s[|s| - count..]
  }

  /** What the window should hold once `all` messages have been applied. */
  function Window(all: seq<Message>, hotWindow: nat): seq<Message> {
    Newest(Sort(MessageAtMost, all), hotWindow)
  }

  function Flatten(batches: seq<seq<Message>>): seq<Message> {
    if batches == [] then [] else Flatten(batches[..|batches| - 1]) + batches[|batches| - 1]
  }

  predicate InOrder(messages: seq<Message>) {
    forall i :: 0 <= i < |messages| - 1 ==> MessageAtMost(messages[i], messages[i + 1])
  }

  /** One batch applied to a window: append when everything is in order, sort otherwise, drop the oldest. */
  function Applied(window: seq<Message>, batch: seq<Message>, hotWindow: nat): seq<Message> {
    if batch == [] then window
    else
      var appendable := InOrder(batch) && (window == [] || MessageAtMost(window[|window| - 1], batch[0]));
      Newest(if appendable then window + batch else Sort(MessageAtMost, window + batch), hotWindow)
  }

  function Run(batches: seq<seq<Message>>, hotWindow: nat): seq<Message> {
    if batches == [] then []
    else Applied(Run(batches[..|batches| - 1], hotWindow), batches[|batches| - 1], hotWindow)
  }

  // ---------------------------------------------------------------- truncating early is harmless

  lemma NewestOfAppend<T>(s: seq<T>, x: T, count: nat)
    requires count > 0
    ensures Newest(s + [x], count) == Newest(s, count - 1) + [x]
  {
  }

  lemma NewestTwice<T>(s: seq<T>, count: nat)
    requires count > 0
    ensures Newest(Newest(s, count), count - 1) == Newest(s, count - 1)
  {
  }

  /** Inserting into a truncated window and truncating again loses nothing, whatever the comparison. */
  lemma {:induction false} InsertThenTruncate(x: Message, s: seq<Message>, count: nat)
    ensures Newest(Insert(MessageAtMost, x, Newest(s, count)), count) == Newest(Insert(MessageAtMost, x, s), count)
    decreases |s|
  {
    if |s| > count && count > 0 {
      var init, last := s[..|s| - 1], s[|s| - 1];
      assert s == init + [last];
      var kept := Newest(s, count);
      NewestOfAppend(init, last, count);
      assert kept[|kept| - 1] == last && kept[..|kept| - 1] == Newest(init, count - 1);
      if MessageAtMost(last, x) {
        NewestTwice(s, count);
        NewestOfAppend(kept, x, count);
        NewestOfAppend(s, x, count);
      } else {
        InsertThenTruncate(x, init, count - 1);
        NewestOfAppend(Insert(MessageAtMost, x, Newest(init, count - 1)), last, count);
        NewestOfAppend(Insert(MessageAtMost, x, init), last, count);
      }
    }
  }

  lemma {:induction false} InsertAllThenTruncate(s: seq<Message>, more: seq<Message>, count: nat)
    ensures Newest(InsertAll(MessageAtMost, Newest(s, count), more), count) ==
            Newest(InsertAll(MessageAtMost, s, more), count)
  {
    if more != [] {
      var before, x := more[..|more| - 1], more[|more| - 1];
      InsertAllThenTruncate(s, before, count);
      InsertThenTruncate(x, InsertAll(MessageAtMost, Newest(s, count), before), count);
      InsertThenTruncate(x, InsertAll(MessageAtMost, s, before), count);
    }
  }

  // ---------------------------------------------------------------- the append path is the sort path

  lemma {:induction false} InOrderIsSorted(messages: seq<Message>)
    requires InOrder(messages) && OrdersAll(MessageAtMost, messages)
    ensures SortedBy(MessageAtMost, messages)
  {
    if |messages| > 1 {
      var init, last := messages[..|messages| - 1], messages[|messages| - 1];
      assert forall m :: m in init ==> m in messages;
      InOrderIsSorted(init);
      forall i | 0 <= i < |init|
        ensures MessageAtMost(messages[i], last)
      {
        assert messages[i] in messages && init[|init| - 1] in messages && last in messages;
        assert MessageAtMost(messages[|init| - 1], messages[|init| - 1 + 1]);
        assert i == |init| - 1 || MessageAtMost(init[i], init[|init| - 1]);
      }
    }
  }

  lemma AppendPath(window: seq<Message>, batch: seq<Message>)
    requires OrdersAll(MessageAtMost, window + batch) && SortedBy(MessageAtMost, window) && batch != []
    requires InOrder(batch) && (window == [] || MessageAtMost(window[|window| - 1], batch[0]))
    ensures InsertAll(MessageAtMost, window, batch) == window + batch
  {
    var all := window + batch;
    forall i | 0 <= i < |all| - 1
      ensures MessageAtMost(all[i], all[i + 1])
    {
      if i < |window| - 1 {
        assert MessageAtMost(window[i], window[i + 1]);
      } else if i >= |window| {
        assert MessageAtMost(batch[i - |window|], batch[i - |window| + 1]);
      }
    }
    InOrderIsSorted(all);
    InsertAllInOrder(MessageAtMost, window, batch);
  }

  lemma SortedStays<T>(le: (T, T) -> bool, s: seq<T>)
    requires SortedBy(le, s)
    ensures InsertAll(le, [], s) == s
  {
    assert [] + s == s;
    InsertAllInOrder(le, [], s);
  }

  lemma SortPath<T>(le: (T, T) -> bool, window: seq<T>, batch: seq<T>)
    requires SortedBy(le, window)
    ensures Sort(le, window + batch) == InsertAll(le, window, batch)
  {
    assert InsertAll(le, [], window) == window by {
      SortedStays(le, window);
    }
    InsertAllAppend(le, [], window, batch);
  }

  /** Whichever path is taken, a batch is merged into the window as sorting would. */
  lemma AppliedIsInsertAll(window: seq<Message>, batch: seq<Message>, hotWindow: nat)
    requires OrdersAll(MessageAtMost, window + batch) && SortedBy(MessageAtMost, window) && |window| <= hotWindow
    ensures Applied(window, batch, hotWindow) == Newest(InsertAll(MessageAtMost, window, batch), hotWindow)
  {
    if batch != [] {
      if InOrder(batch) && (window == [] || MessageAtMost(window[|window| - 1], batch[0])) {
        AppendPath(window, batch);
      } else {
        SortPath(MessageAtMost, window, batch);
      }
    }
  }

  lemma SuffixSorted(s: seq<Message>, count: nat)
    requires SortedBy(MessageAtMost, s)
    ensures SortedBy(MessageAtMost, Newest(s, count))
  {
  }

  lemma WindowMembers(all: seq<Message>, hotWindow: nat)
    ensures forall m :: m in Window(all, hotWindow) ==> m in all
  {
    SortPermutes(MessageAtMost, all);
    forall m | m in Window(all, hotWindow)
      ensures m in all
    {
      assert m in Sort(MessageAtMost, all);
      MemberOf(Sort(MessageAtMost, all), all, m);
    }
  }

  /** Batch by batch, the window is what sorting the whole history at once would leave: batching does not matter. */
  lemma {:induction false} RunIsWindow(batches: seq<seq<Message>>, hotWindow: nat)
    requires OrdersAll(MessageAtMost, Flatten(batches))
    ensures Run(batches, hotWindow) == Window(Flatten(batches), hotWindow)
  {
    if batches != [] {
      var earlier, batch := batches[..|batches| - 1], batches[|batches| - 1];
      var all := Flatten(earlier);
      assert forall m :: m in all ==> m in Flatten(batches);
      RunIsWindow(earlier, hotWindow);
      SortSorts(MessageAtMost, all);
      SuffixSorted(Sort(MessageAtMost, all), hotWindow);
      var window := Window(all, hotWindow);
      WindowMembers(all, hotWindow);
      assert forall m :: m in window + batch ==> m in Flatten(batches);
      AppliedIsInsertAll(window, batch, hotWindow);
      InsertAllThenTruncate(Sort(MessageAtMost, all), batch, hotWindow);
      InsertAllAppend(MessageAtMost, [], all, batch);
    }
  }

  /** Durable messages with distinct LSNs: arrival order does not matter either. */
  lemma ArrivalOrderDoesNotMatter(a: seq<seq<Message>>, b: seq<seq<Message>>, hotWindow: nat)
    requires multiset(Flatten(a)) == multiset(Flatten(b))
    requires Durable(Flatten(a)) && DistinctLsns(Flatten(a))
    ensures Run(a, hotWindow) == Run(b, hotWindow)
  {
    var x, y := Flatten(a), Flatten(b);
    MembersOf(x, y);
    OneKindIsOrdered(x);
    OneKindIsOrdered(y);
    RunIsWindow(a, hotWindow);
    RunIsWindow(b, hotWindow);
    SortSorts(MessageAtMost, x);
    SortSorts(MessageAtMost, y);
    SortPermutes(MessageAtMost, x);
    SortPermutes(MessageAtMost, y);
    MembersOf(Sort(MessageAtMost, x), x);
    SortedIsUnique(MessageAtMost, Sort(MessageAtMost, x), Sort(MessageAtMost, y));
  }

  /** The window is exactly the `hotWindow` highest-LSN messages, ascending. */
  lemma WindowIsNewest(batches: seq<seq<Message>>, hotWindow: nat)
    requires Durable(Flatten(batches)) && DistinctLsns(Flatten(batches))
    ensures var all, window := Flatten(batches), Run(batches, hotWindow);
            |window| == (if |all| <= hotWindow then |all| else hotWindow) &&
            (forall i, j :: 0 <= i < j < |window| ==> window[i].lsn <= window[j].lsn) &&
            (forall m :: m in window ==> m in all) &&
            (forall m, n :: m in all && m !in window && n in window ==> m.lsn < n.lsn)
  {
    var all, window := Flatten(batches), Run(batches, hotWindow);
    OneKindIsOrdered(all);
    RunIsWindow(batches, hotWindow);
    SortSorts(MessageAtMost, all);
    SortPermutes(MessageAtMost, all);
    WindowMembers(all, hotWindow);
    SuffixSorted(Sort(MessageAtMost, all), hotWindow);
    forall i, j | 0 <= i < j < |window|
      ensures window[i].lsn <= window[j].lsn
    {
      assert window[i] in all && window[j] in all && MessageAtMost(window[i], window[j]);
    }
    forall m, n | m in all && m !in window && n in window
      ensures m.lsn < n.lsn
    {
      MemberOf(all, Sort(MessageAtMost, all), m);
      OutsideIsOlder(MessageAtMost, Sort(MessageAtMost, all), hotWindow, m, n);
      assert MessageAtMost(m, n);
    }
  }

  ghost predicate DistinctTimesAndIds(messages: seq<Message>) {
    forall a, b :: a in messages && b in messages && a.createdAtMs == b.createdAtMs && a.id == b.id ==> a == b
  }

  /** Of volatile messages it holds the latest: by creation time, and by id among those of one time. */
  lemma VolatileWindowIsLatest(batches: seq<seq<Message>>, hotWindow: nat)
    requires Volatile(Flatten(batches)) && DistinctTimesAndIds(Flatten(batches))
    ensures var all, window := Flatten(batches), Run(batches, hotWindow);
            |window| == (if |all| <= hotWindow then |all| else hotWindow) &&
            (forall i, j :: 0 <= i < j < |window| ==> window[i].createdAtMs <= window[j].createdAtMs) &&
            (forall m :: m in window ==> m in all) &&
            (forall m, n :: m in all && m !in window && n in window ==>
               m.createdAtMs < n.createdAtMs || (m.createdAtMs == n.createdAtMs && Less(m.id, n.id)))
  {
    var all, window := Flatten(batches), Run(batches, hotWindow);
    OneKindIsOrdered(all);
    RunIsWindow(batches, hotWindow);
    SortSorts(MessageAtMost, all);
    SortPermutes(MessageAtMost, all);
    WindowMembers(all, hotWindow);
    SuffixSorted(Sort(MessageAtMost, all), hotWindow);
    forall i, j | 0 <= i < j < |window|
      ensures window[i].createdAtMs <= window[j].createdAtMs
    {
      assert window[i] in all && window[j] in all && MessageAtMost(window[i], window[j]);
    }
    forall m, n | m in all && m !in window && n in window
      ensures m.createdAtMs < n.createdAtMs || (m.createdAtMs == n.createdAtMs && Less(m.id, n.id))
    {
      MemberOf(all, Sort(MessageAtMost, all), m);
      OutsideIsOlder(MessageAtMost, Sort(MessageAtMost, all), hotWindow, m, n);
      assert MessageAtMost(m, n) && m.lsn == 0;
    }
  }

  lemma OneMoreBatch(batches: seq<seq<Message>>, m: Message, hotWindow: nat)
    requires var window := Run(batches, hotWindow); window == [] || MessageAtMost(window[|window| - 1], m)
    ensures Run(batches + [[m]], hotWindow) == Newest(Run(batches, hotWindow) + [m], hotWindow)
    ensures Flatten(batches + [[m]]) == Flatten(batches) + [m]
  {
    assert (batches + [[m]])[..|batches|] == batches;
  }

  lemma OneBatch(a: Message) returns (batches: seq<seq<Message>>)
    ensures Run(batches, 2) == [a] && Flatten(batches) == [a]
  {
    batches := [] + [[a]];
    OneMoreBatch([], a, 2);
  }

  lemma TwoBatches(a: Message, b: Message) returns (batches: seq<seq<Message>>)
    requires MessageAtMost(a, b)
    ensures Run(batches, 2) == [a, b] && Flatten(batches) == [a, b]
  {
    var before := OneBatch(a);
    batches := before + [[b]];
    OneMoreBatch(before, b, 2);
  }

  lemma ThreeBatches(a: Message, b: Message, c: Message) returns (batches: seq<seq<Message>>)
    requires MessageAtMost(a, b) && MessageAtMost(b, c)
    ensures Run(batches, 2) == [b, c] && Flatten(batches) == [a, b, c]
  {
    var before := TwoBatches(a, b);
    batches := before + [[c]];
    OneMoreBatch(before, c, 2);
  }

  /** A mixed run whose window drops the highest LSN and keeps a lower one: the volatile message stands between them. */
  lemma MixedRunDropsHighestLsn()
    ensures exists batches, kept, dropped ::
              kept in Run(batches, 2) && dropped in Flatten(batches) && dropped !in Run(batches, 2) &&
              0 < kept.lsn < dropped.lsn
  {
    var low := Message("a", "room", "sender", "", [], 30, 1, "");
    var high := Message("b", "room", "sender", "", [], 10, 2, "");
    var between := Message("c", "room", "sender", "", [], 20, 0, "");
    var batches := ThreeBatches(high, between, low);
    var window, all := [between, low], [high, between, low];
    assert window[1] == low && all[0] == high && high.lsn != between.lsn;
  }

  lemma OutsideIsOlder<T>(le: (T, T) -> bool, sorted: seq<T>, count: nat, m: T, n: T)
    requires SortedBy(le, sorted)
    requires m in sorted && m !in Newest(sorted, count) && n in Newest(sorted, count)
    ensures le(m, n)
  {
    var newest := Newest(sorted, count);
    var skip := |sorted| - |newest|;
    var i :| 0 <= i < |sorted| && sorted[i] == m;
    var j :| 0 <= j < |newest| && newest[j] == n;
    assert forall k :: skip <= k < |sorted| ==> sorted[k] == newest[k - skip];
    assert le(sorted[i], sorted[skip + j]);
  }

  class RoomLiveState {
    var messages: seq<Message>

    constructor ()
      ensures messages == []
    {
      messages := [];
    }

    method MessagesAreSorted(batch: seq<Message>) returns (sorted: bool)
      ensures sorted == InOrder(batch)
    {
      sorted := true;
      for i := 0 to |batch|
        invariant sorted && forall j :: 0 <= j < i && j < |batch| - 1 ==> MessageAtMost(batch[j], batch[j + 1])
      {
        if i + 1 < |batch| && !MessageAtMost(batch[i], batch[i + 1]) {
          return false;
        }
      }
    }

    method TruncateTo(hotWindow: nat)
      modifies this
      ensures messages == Newest(old(messages), hotWindow)
    {
      while |messages| > hotWindow
        invariant |messages| <= |old(messages)| && messages == old(messages)[|old(messages)| - |messages|..]
        invariant |messages| >= hotWindow || messages == old(messages)
      {
        messages := messages[1..];
      }
    }

    method ApplyMessages(batch: seq<Message>, hotWindow: nat)
      modifies this
      ensures messages == Applied(old(messages), batch, hotWindow)
    {
      if batch == [] {
        return;
      }
      var inOrder := MessagesAreSorted(batch);
      var canAppend := inOrder && (messages == [] || MessageAtMost(messages[|messages| - 1], batch[0]));
      messages := messages + batch;
      if !canAppend {
        messages := Sort(MessageAtMost, messages);
      }
      TruncateTo(hotWindow);
    }
  }
}
