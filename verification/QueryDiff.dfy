/** The difference between two pages of a live query, and how a client rebuilds the next page from it. */
module QueryDiff {
  import opened Options
  import opened Records

  datatype Diff = Diff(added: seq<Record>, updated: seq<Record>, removed: seq<string>, keys: seq<string>)

  ghost predicate DistinctKeys(page: seq<Record>) {
    forall i, j :: 0 <= i < j < |page| ==> page[i].key != page[j].key
  }

  ghost predicate OfTable(page: seq<Record>, table: string) {
    forall i :: 0 <= i < |page| ==> page[i].table == table
  }

  function Keys(page: seq<Record>): (keys: seq<string>)
    ensures |keys| == |page| && forall i :: 0 <= i < |page| ==> keys[i] == page[i].key
  {
    seq(|page|, i requires 0 <= i < |page| => page[i].key)
  }

  /** The last record of the page under a key. */
  function ByKey(page: seq<Record>): map<string, Record> {
    if page == [] then map[] else ByKey(page[..|page| - 1])[page[|page| - 1].key := page[|page| - 1]]
  }

  /** `record_query_record_changed`: the table and key are not compared. */
  predicate Changed(previous: Record, next: Record) {
    previous.lsn != next.lsn || previous.updatedAtMs != next.updatedAtMs || previous.path != next.path ||
    previous.value != next.value
  }

  /** What a record of the next page has to be sent as, if at all. */
  datatype Kind = New | Modified | Same

  function KindOf(previous: map<string, Record>, record: Record): Kind {
    if record.key !in previous then New else if Changed(previous[record.key], record) then Modified else Same
  }

  /** The records of a page that are of one kind, in page order. */
  function Part(page: seq<Record>, previous: map<string, Record>, kind: Kind): seq<Record> {
    if page == [] then []
    else
      var before, last := Part(page[..|page| - 1], previous, kind), page[|page| - 1];
      if KindOf(previous, last) == kind then before + [last] else before
  }

  lemma PartOneMore(page: seq<Record>, i: nat, previous: map<string, Record>, kind: Kind)
    requires i < |page|
    ensures Part(page[..i + 1], previous, kind)
         == Part(page[..i], previous, kind) + if KindOf(previous, page[i]) == kind then [page[i]] else []
  {
    assert page[..i + 1][..i] == page[..i];
  }

  lemma {:induction false} PartLists(page: seq<Record>, previous: map<string, Record>, kind: Kind)
    ensures forall r :: r in Part(page, previous, kind) <==> r in page && KindOf(previous, r) == kind
  {
    if page != [] {
      PartLists(page[..|page| - 1], previous, kind);
      assert page == page[..|page| - 1] + [page[|page| - 1]];
    }
  }

  /** What a client does: walk the keys, take the sent record, else keep its previous one. */
  function Rebuild(previous: seq<Record>, diff: Diff): seq<Option<Record>> {
    seq(|diff.keys|, i requires 0 <= i < |diff.keys| =>
      var key := diff.keys[i];
      if key in ByKey(diff.added) then Some(ByKey(diff.added)[key])
      else if key in ByKey(diff.updated) then Some(ByKey(diff.updated)[key])
      else if key in ByKey(previous) then Some(ByKey(previous)[key]) else None)
  }

  lemma {:induction false} ByKeyIsMember(page: seq<Record>)
    ensures forall k :: k in ByKey(page) <==> exists i :: 0 <= i < |page| && page[i].key == k
    ensures forall k :: k in ByKey(page) ==> ByKey(page)[k] in page && ByKey(page)[k].key == k
  {
    if page != [] {
      ByKeyIsMember(page[..|page| - 1]);
      assert page == page[..|page| - 1] + [page[|page| - 1]];
    }
  }

  lemma {:induction false} ByKeyOfDistinct(page: seq<Record>, i: nat)
    requires DistinctKeys(page) && i < |page|
    ensures page[i].key in ByKey(page) && ByKey(page)[page[i].key] == page[i]
  {
    if i < |page| - 1 {
      ByKeyOfDistinct(page[..|page| - 1], i);
    }
  }

  /** The diff the server sends, record kinds in page order. */
  function DiffBetween(previous: seq<Record>, next: seq<Record>): Diff {
    Diff(Part(next, ByKey(previous), New), Part(next, ByKey(previous), Modified), RemovedKeys(previous, next),
         Keys(next))
  }

  function RemovedKeys(previous: seq<Record>, next: seq<Record>): seq<string> {
    if previous == [] then []
    else
      var before, last := RemovedKeys(previous[..|previous| - 1], next), previous[|previous| - 1].key;
      if last in Keys(next) then before else before + [last]
  }

  lemma SentRecord(previous: seq<Record>, next: seq<Record>, kind: Kind, i: nat)
    requires DistinctKeys(next) && i < |next|
    ensures var part := Part(next, ByKey(previous), kind);
            (next[i].key in ByKey(part) <==> KindOf(ByKey(previous), next[i]) == kind) &&
            (next[i].key in ByKey(part) ==> ByKey(part)[next[i].key] == next[i])
  {
    var part := Part(next, ByKey(previous), kind);
    PartLists(next, ByKey(previous), kind);
    ByKeyIsMember(part);
    if next[i].key in ByKey(part) {
      var sent := ByKey(part)[next[i].key];
      assert sent in next;
      var j :| 0 <= j < |next| && next[j] == sent;
      assert i == j;
    }
    if KindOf(ByKey(previous), next[i]) == kind {
      assert next[i] in part;
    }
  }

  /** Previous page plus diff gives exactly the next page, and the removed keys are exactly those that disappeared. */
  lemma RebuildGivesNext(previous: seq<Record>, next: seq<Record>, table: string)
    requires DistinctKeys(next) && OfTable(previous, table) && OfTable(next, table)
    ensures var diff := DiffBetween(previous, next);
            |Rebuild(previous, diff)| == |next| &&
            (forall i :: 0 <= i < |next| ==> Rebuild(previous, diff)[i] == Some(next[i])) &&
            (forall k :: k in diff.removed <==> k in Keys(previous) && k !in Keys(next))
  {
    var diff := DiffBetween(previous, next);
    forall i | 0 <= i < |next|
      ensures Rebuild(previous, diff)[i] == Some(next[i])
    {
      SentRecord(previous, next, New, i);
      SentRecord(previous, next, Modified, i);
      ByKeyIsMember(previous);
      if KindOf(ByKey(previous), next[i]) == Same {
        var kept := ByKey(previous)[next[i].key];
        assert kept.table == table && kept == next[i];
      }
    }
    RemovedAreGone(previous, next);
  }

  /**
   A record of the next page is sent as added when its key was not shown before, as updated when another record was
   shown under it, and not at all when it was shown already.
   */
  lemma RecordsAreSentIfNew(previous: seq<Record>, next: seq<Record>, table: string, r: Record)
    requires DistinctKeys(previous) && OfTable(previous, table) && OfTable(next, table)
    ensures var diff := DiffBetween(previous, next);
            (r in diff.added <==> r in next && forall p :: p in previous ==> p.key != r.key) &&
            (r in diff.updated <==> r in next && exists p :: p in previous && p.key == r.key && p != r) &&
            (r in next && r in previous ==> r !in diff.added && r !in diff.updated)
  {
    PartLists(next, ByKey(previous), New);
    PartLists(next, ByKey(previous), Modified);
    ByKeyIsMember(previous);
    if p :| p in previous && p.key == r.key {
      var i :| 0 <= i < |previous| && previous[i] == p;
      ByKeyOfDistinct(previous, i);
      OneRecordPerKey(previous, r.key, p);
    } else {
      assert forall i :: 0 <= i < |previous| ==> previous[i] in previous;
    }
    assert r in next ==> r.table == table;
  }

  lemma OneRecordPerKey(page: seq<Record>, key: string, record: Record)
    requires DistinctKeys(page) && record in page && record.key == key
    ensures forall p :: p in page && p.key == key ==> p == record
  {
    var i :| 0 <= i < |page| && page[i] == record;
    forall p | p in page && p.key == key
      ensures p == record
    {
      var j :| 0 <= j < |page| && page[j] == p;
      assert i == j;
    }
  }

  lemma {:induction false} RemovedAreGone(previous: seq<Record>, next: seq<Record>)
    ensures forall k :: k in RemovedKeys(previous, next) <==> k in Keys(previous) && k !in Keys(next)
  {
    if previous != [] {
      RemovedAreGone(previous[..|previous| - 1], next);
      assert Keys(previous) == Keys(previous[..|previous| - 1]) + [previous[|previous| - 1].key];
    }
  }

  method RecordQueryDiff(previous: seq<Record>, next: seq<Record>) returns (diff: Diff)
    ensures diff == DiffBetween(previous, next)
  {
    var previousByKey: map<string, Record> := map[];
    for i := 0 to |previous|
      invariant previousByKey == ByKey(previous[..i])
    {
      assert previous[..i + 1][..i] == previous[..i];
      previousByKey := previousByKey[previous[i].key := previous[i]];
    }
    assert previous[..|previous|] == previous;

    var added, updated := [], [];
    for i := 0 to |next|
      invariant added == Part(next[..i], previousByKey, New)
      invariant updated == Part(next[..i], previousByKey, Modified)
    {
      PartOneMore(next, i, previousByKey, New);
      PartOneMore(next, i, previousByKey, Modified);
      if next[i].key !in previousByKey {
        added := added + [next[i]];
      } else if Changed(previousByKey[next[i].key], next[i]) {
        updated := updated + [next[i]];
      }
    }
    assert next[..|next|] == next;

    var removed: seq<string> := [];
    for i := 0 to |previous|
      invariant removed == RemovedKeys(previous[..i], next)
    {
      assert previous[..i + 1][..i] == previous[..i];
      if previous[i].key !in Keys(next) {
        removed := removed + [previous[i].key];
      }
    }
    diff := Diff(added, updated, removed, Keys(next));
  }
}
