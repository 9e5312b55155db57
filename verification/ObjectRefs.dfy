/**
 The reverse index from objects to the messages and records that refer to them: kept up
 to date change by change, rebuilt from scratch at load, and mirrored to a file.
 */
module ObjectRefs {
  import opened Messages
  import opened ObjectRefCollector
  import opened Options
  import opened Text

  datatype Document = Document(table: string, path: string, value: Json)

  datatype TableSchema = TableSchema(fields: seq<Field>, nested: map<string, seq<Field>>)

  type Schema = map<string, TableSchema>

  // ---------------------------------------------------------------- what a record refers to

  /** `split_once('.')`. */
  function SplitAtDot(s: string): Option<(string, string)> {
    if s == [] then None
    else if s[0] == '.' then Some(([], s[1..]))
    else
      match SplitAtDot(s[1..])
      case None => None
      case Some((before, after)) => Some(([s[0]] + before, after))
  }

  /** The declaration a record is read by; a table or nested table the schema lacks declares nothing. */
  function DeclarationOf(schema: Schema, record: Document): Option<Declared> {
    match SplitAtDot(record.table)
    case Some((table, nested)) =>
      if table in schema && nested in schema[table].nested then
        Some(Declared(Object(schema[table].nested[nested]), record.value,
                      record.path + " in tables." + table + ".nested." + nested))
      else None
    case None =>
      if record.table in schema then
        Some(Declared(Object(schema[record.table].fields), record.value, record.path + " in tables." + record.table))
      else None
  }

  /** Records of `table` are read by these fields: those of table `t`, or, for `t.n`, of its nested table `n`. */
  ghost predicate ReadBy(schema: Schema, table: string, fields: seq<Field>) {
    ('.' !in table && table in schema && schema[table].fields == fields) ||
    exists t, n ::
      '.' !in t && table == t + "." + n && t in schema && n in schema[t].nested && schema[t].nested[n] == fields
  }

  function Reading(record: Document, fields: seq<Field>): Declared {
    Declared(Object(fields), record.value, record.path)
  }

  /** The record's document fits the fields it is read by, if any. */
  ghost predicate Collectable(schema: Schema, record: Document) {
    forall fields :: ReadBy(schema, record.table, fields) ==> record.value.Obj? && AllShaped(Reading(record, fields))
  }

  /** The record holds a reference to `id` where the fields it is read by declare one. */
  ghost predicate Refers(schema: Schema, record: Document, id: string) {
    exists fields :: ReadBy(schema, record.table, fields) && DeclaresId(Reading(record, fields), id)
  }

  /** The name is split at its first dot. */
  lemma {:induction false} SplitsAtFirstDot(s: string)
    ensures match SplitAtDot(s)
            case None => '.' !in s
            case Some((before, after)) => '.' !in before && s == before + "." + after
  {
    if s != [] && s[0] != '.' {
      SplitsAtFirstDot(s[1..]);
      assert s == [s[0]] + s[1..];
    }
  }

  lemma OneFirstDot(a: string, b: string, x: string, y: string)
    requires '.' !in a && '.' !in x && a + "." + b == x + "." + y
    ensures a == x && b == y
  {
    var s := a + "." + b;
    assert s[|a|] == '.' && s[|x|] == '.';
    assert forall i :: 0 <= i < |a| ==> s[i] == a[i];
    assert forall i :: 0 <= i < |x| ==> s[i] == x[i];
    assert |a| == |x|;
    assert a == s[..|a|] && x == s[..|x|] && b == s[|a| + 1..] && y == s[|x| + 1..];
  }

  /** The declaration looked up is the one the record is read by. */
  lemma DeclarationIsReading(schema: Schema, record: Document, fields: seq<Field>)
    ensures var d := DeclarationOf(schema, record);
            ReadBy(schema, record.table, fields) <==>
              d.Some? && d.value.fieldType == Object(fields) && d.value.value == record.value
  {
    SplitsAtFirstDot(record.table);
    if t, n :| '.' !in t && record.table == t + "." + n && t in schema && n in schema[t].nested &&
               schema[t].nested[n] == fields {
      assert record.table[|t|] == '.';
      var (before, after) := SplitAtDot(record.table).value;
      OneFirstDot(t, n, before, after);
    }
  }

  /** So it decides what fits and what is referred to. */
  lemma DeclarationDecides(schema: Schema, record: Document)
    ensures var d := DeclarationOf(schema, record);
            (d.Some? ==> d.value.fieldType.Object?) &&
            (Collectable(schema, record) <==> (d.Some? ==> d.value.value.Obj? && AllShaped(d.value))) &&
            forall id :: Refers(schema, record, id) <==> d.Some? && DeclaresId(d.value, id)
  {
    var d := DeclarationOf(schema, record);
    forall fields
      ensures ReadBy(schema, record.table, fields) <==>
              d.Some? && d.value.fieldType == Object(fields) && d.value.value == record.value
    {
      DeclarationIsReading(schema, record, fields);
    }
    if d.Some? {
      var fields := d.value.fieldType.fields;
      DeclarationIsReading(schema, record, fields);
      assert d.value.fieldType == Object(fields) && ReadBy(schema, record.table, fields);
      SameIdsFromAnyStart(d.value, Reading(record, fields));
      SameIdsFromAnyStart(Reading(record, fields), d.value);
    }
  }

  method DeclaredRecordObjectRefIds(schema: Schema, record: Document) returns (ids: Option<seq<string>>)
    ensures ids.Some? <==> Collectable(schema, record)
    ensures ids.Some? ==> forall id :: id in ids.value <==> Refers(schema, record, id)
  {
    DeclarationDecides(schema, record);
    var d := DeclarationOf(schema, record);
    if d.None? {
      return Some([]);
    }
    var found := CollectDeclaredObjectRefs(d.value);
    if found.None? {
      return None;
    }
    var refs := found.value;
    var list := seq(|refs|, i requires 0 <= i < |refs| => refs[i].id);
    forall id | Refers(schema, record, id)
      ensures id in list
    {
      var r :| Declares(d.value, r) && r.id == id;
      var i :| 0 <= i < |refs| && refs[i] == r;
      assert list[i] == id;
    }
    return Some(list);
  }

  // ---------------------------------------------------------------- the index of given messages and records

  type Refs = map<string, set<string>>

  predicate Has(refs: Refs, id: string, source: string) {
    id in refs && source in refs[id]
  }

  predicate NoEmptySet(refs: Refs) {
    forall id :: id in refs ==> refs[id] != {}
  }

  ghost predicate MessageRefers(messages: set<Message>, id: string, source: string) {
    exists m :: m in messages && m.path == source && id in m.attachments
  }

  ghost predicate RecordRefers(schema: Schema, records: map<string, Document>, id: string, source: string) {
    source in records && Refers(schema, records[source], id)
  }

  /** Something retained refers to the object. */
  ghost predicate Supported(schema: Schema, messages: set<Message>, records: map<string, Document>, id: string,
                            source: string)
  {
    MessageRefers(messages, id, source) || RecordRefers(schema, records, id, source)
  }

  /** The index holds exactly the supported references, and no object without sources. */
  ghost predicate IndexOf(schema: Schema, messages: set<Message>, records: map<string, Document>, refs: Refs) {
    NoEmptySet(refs) &&
    forall id, source {:trigger Has(refs, id, source)} {:trigger Supported(schema, messages, records, id, source)} ::
      Has(refs, id, source) <==> Supported(schema, messages, records, id, source)
  }

  /** There is only one index of given messages and records. */
  lemma IndexIsUnique(schema: Schema, messages: set<Message>, records: map<string, Document>, a: Refs, b: Refs)
    requires IndexOf(schema, messages, records, a) && IndexOf(schema, messages, records, b)
    ensures a == b
  {
    forall id, source
      ensures Has(a, id, source) <==> Has(b, id, source)
    {
      assert Has(a, id, source) <==> Supported(schema, messages, records, id, source);
    }
    SameReferencesSameIndex(a, b);
  }

  lemma SameReferencesSameIndex(a: Refs, b: Refs)
    requires NoEmptySet(a) && NoEmptySet(b) && forall id, source :: Has(a, id, source) <==> Has(b, id, source)
    ensures a == b
  {
    forall id
      ensures id in a <==> id in b
      ensures id in a && id in b ==> a[id] == b[id]
    {
      if id in a {
        var source :| source in a[id];
        assert Has(a, id, source);
      }
      if id in b {
        var source :| source in b[id];
        assert Has(b, id, source);
      }
      if id in a && id in b {
        forall source
          ensures source in a[id] <==> source in b[id]
        {
          assert Has(a, id, source) <==> Has(b, id, source);
        }
      }
    }
  }

  ghost function Without(messages: set<Message>, path: string): set<Message> {
    set m | m in messages && m.path != path
  }

  lemma RemovedSourceSupports(schema: Schema, messages: set<Message>, records: map<string, Document>, path: string,
                              id: string, source: string)
    ensures Supported(schema, Without(messages, path), records - {path}, id, source) <==>
              Supported(schema, messages, records, id, source) && source != path
  {
  }

  lemma RetainedMessageSupports(schema: Schema, messages: set<Message>, records: map<string, Document>,
                                message: Message, id: string, source: string)
    ensures Supported(schema, messages + {message}, records, id, source) <==>
              Supported(schema, messages, records, id, source) || (source == message.path && id in message.attachments)
  {
    assert message in messages + {message};
  }

  lemma RetainedRecordSupports(schema: Schema, messages: set<Message>, records: map<string, Document>, record: Document,
                               id: string, source: string)
    requires record.path !in records
    ensures Supported(schema, messages, records[record.path := record], id, source) <==>
              Supported(schema, messages, records, id, source) || (source == record.path && Refers(schema, record, id))
  {
  }

  /** The set of `id`, before or after the source was taken out of it. */
  ghost predicate StrippedAt(before: Refs, after: Refs, empty: set<string>, source: string, rest: set<string>,
                             id: string)
  {
    id in before && id in after && after[id] == (if id in rest then before[id] else before[id] - {source}) &&
    (id in empty <==> id !in rest && after[id] == {})
  }

  ghost predicate Stripped(before: Refs, after: Refs, empty: set<string>, source: string, rest: set<string>) {
    after.Keys == before.Keys && empty <= before.Keys && rest <= before.Keys &&
    forall id {:trigger StrippedAt(before, after, empty, source, rest, id)} ::
      id in before ==> StrippedAt(before, after, empty, source, rest, id)
  }

  lemma StripOneMore(before: Refs, after: Refs, empty: set<string>, source: string, rest: set<string>, id: string)
    requires Stripped(before, after, empty, source, rest) && id in rest
    ensures id in after && after[id] == before[id]
    ensures var left := after[id] - {source};
            Stripped(before, after[id := left], if left == {} then empty + {id} else empty, source, rest - {id})
  {
    assert StrippedAt(before, after, empty, source, rest, id);
    var left := after[id] - {source};
    var after', empty' := after[id := left], if left == {} then empty + {id} else empty;
    forall i | i in before
      ensures StrippedAt(before, after', empty', source, rest - {id}, i)
    {
      assert StrippedAt(before, after, empty, source, rest, i);
    }
  }

  lemma StrippedRefs(before: Refs, stripped: Refs, after: Refs, empty: set<string>, source: string)
    requires NoEmptySet(before) && Stripped(before, stripped, empty, source, {}) && after == stripped - empty
    ensures NoEmptySet(after)
    ensures forall id, s {:trigger Has(after, id, s)} :: Has(after, id, s) <==> Has(before, id, s) && s != source
    ensures after != before <==> exists id :: Has(before, id, source)
  {
    forall id | id in before
      ensures id in stripped && stripped[id] == before[id] - {source} && (id in empty <==> stripped[id] == {})
    {
      assert StrippedAt(before, stripped, empty, source, {}, id);
    }
    forall id, s
      ensures Has(after, id, s) <==> Has(before, id, s) && s != source
    {
      if id in before {
        assert s in before[id] - {source} <==> s in before[id] && s != source;
      }
    }
    if id :| Has(before, id, source) {
      assert Has(after, id, source) <==> Has(before, id, source) && source != source;
    } else {
      forall id, s
        ensures Has(after, id, s) <==> Has(before, id, s)
      {
        assert Has(after, id, s) <==> Has(before, id, s) && s != source;
      }
      SameReferencesSameIndex(after, before);
    }
  }

  /** The record had references before, or has some now. */
  ghost predicate Touches(refs: Refs, schema: Schema, record: Document) {
    exists id :: Has(refs, id, record.path) || Refers(schema, record, id)
  }

  lemma RemovedOrInserted(before: Refs, between: Refs, schema: Schema, record: Document, removed: bool, inserted: bool)
    requires removed <==> exists id :: Has(before, id, record.path)
    requires forall id {:trigger Has(between, id, record.path)} :: !Has(between, id, record.path)
    requires inserted <==> exists id :: Refers(schema, record, id) && !Has(between, id, record.path)
    ensures removed || inserted <==> Touches(before, schema, record)
  {
    if id :| Refers(schema, record, id) {
      assert !Has(between, id, record.path);
    }
  }

  // ---------------------------------------------------------------- many changes at once

  /** Records retained one after the other, a later one in place of an earlier one. */
  function RetainedAll(records: map<string, Document>, more: seq<Document>): map<string, Document> {
    if more == [] then records
    else var last := more[|more| - 1]; RetainedAll(records, more[..|more| - 1])[last.path := last]
  }

  /** No record is stored where a message is. */
  ghost predicate Apart(messages: set<Message>, records: seq<Document>) {
    forall m, i :: m in messages && 0 <= i < |records| ==> m.path != records[i].path
  }

  ghost predicate AllCollectable(schema: Schema, records: seq<Document>) {
    forall i :: 0 <= i < |records| ==> Collectable(schema, records[i])
  }

  function Paths(records: seq<Document>): seq<string> {
    seq(|records|, i requires 0 <= i < |records| => records[i].path)
  }

  ghost function WithoutAll(messages: set<Message>, paths: seq<string>): set<Message> {
    set m | m in messages && m.path !in paths
  }

  lemma WithoutOneMore(messages: set<Message>, paths: seq<string>, path: string)
    ensures Without(WithoutAll(messages, paths), path) == WithoutAll(messages, paths + [path])
  {
  }

  lemma WithoutBoth(messages: set<Message>, paths: seq<string>, more: seq<string>)
    ensures WithoutAll(WithoutAll(messages, paths), more) == WithoutAll(messages, paths + more)
  {
  }

  lemma ApartStay(messages: set<Message>, records: seq<Document>)
    requires Apart(messages, records)
    ensures WithoutAll(messages, Paths(records)) == messages
  {
  }

  /** The document at `k` is the first that does not fit. */
  ghost predicate FirstMisfit(schema: Schema, records: seq<Document>, k: nat) {
    k < |records| && !Collectable(schema, records[k]) && forall j :: 0 <= j < k ==> Collectable(schema, records[j])
  }

  /** All paths removed and the documents before the one at `k` retained, of which only the removal was done. */
  ghost predicate StoppedAt(schema: Schema, messages: set<Message>, records: map<string, Document>,
                            removed: seq<string>, retained: seq<Document>, k: nat, messages': set<Message>,
                            records': map<string, Document>)
  {
    FirstMisfit(schema, retained, k) &&
    records' == RetainedAll(records - (set p | p in removed), retained[..k]) - {retained[k].path} &&
    messages' == WithoutAll(messages, removed + Paths(retained[..k + 1]))
  }

  /** The documents before `i` are retained. */
  ghost predicate RetainedSoFar(schema: Schema, messages: set<Message>, records: map<string, Document>,
                                more: seq<Document>, i: nat, messages': set<Message>, records': map<string, Document>)
  {
    i <= |more| && AllCollectable(schema, more[..i]) && records' == RetainedAll(records, more[..i]) &&
    messages' == WithoutAll(messages, Paths(more[..i]))
  }

  lemma RetainedOneMore(schema: Schema, messages: set<Message>, records: map<string, Document>, more: seq<Document>,
                        i: nat, messages': set<Message>, records': map<string, Document>)
    requires RetainedSoFar(schema, messages, records, more, i, messages', records') && i < |more|
    ensures var left := Without(messages', more[i].path);
            if Collectable(schema, more[i])
            then RetainedSoFar(schema, messages, records, more, i + 1, left, records'[more[i].path := more[i]])
            else StoppedAt(schema, messages, records, [], more, i, left, records' - {more[i].path})
  {
    var path := more[i].path;
    assert more[..i + 1][..i] == more[..i] && Paths(more[..i + 1]) == Paths(more[..i]) + [path];
    WithoutOneMore(messages, Paths(more[..i]), path);
    assert forall j :: 0 <= j < i ==> more[j] == more[..i][j];
    assert forall j :: 0 <= j < i ==> more[..i + 1][j] == more[..i][j];
    assert records - (set p | p in []) == records && [] + Paths(more[..i + 1]) == Paths(more[..i + 1]);
  }

  lemma StoppedAfterRemoval(schema: Schema, messages: set<Message>, records: map<string, Document>,
                            removed: seq<string>, retained: seq<Document>, k: nat, messages': set<Message>,
                            records': map<string, Document>)
    requires StoppedAt(schema, WithoutAll(messages, removed), records - (set p | p in removed), [], retained, k,
                       messages', records')
    ensures StoppedAt(schema, messages, records, removed, retained, k, messages', records')
  {
    var left, paths := records - (set p | p in removed), Paths(retained[..k + 1]);
    assert left - (set p | p in []) == left && [] + paths == paths;
    WithoutBoth(messages, removed, paths);
  }

  // ---------------------------------------------------------------- what a refused batch leaves

  lemma {:induction false} RetainedOver(records: map<string, Document>, more: seq<Document>)
    ensures RetainedAll(records, more) == records + RetainedAll(map[], more)
    ensures forall path :: path in RetainedAll(map[], more) <==> path in Paths(more)
  {
    if more == [] {
      assert records + map[] == records;
    } else {
      var before, last := more[..|more| - 1], more[|more| - 1];
      RetainedOver(records, before);
      assert Paths(more) == Paths(before) + [last.path];
    }
  }

  lemma FirstMisfitIsUnique(schema: Schema, records: seq<Document>, j: nat, k: nat)
    requires FirstMisfit(schema, records, j) && FirstMisfit(schema, records, k)
    ensures j == k
  {
  }

  /** The batch removed the path, or retained a document at it, up to the one at `k`. */
  predicate Touched(removed: seq<string>, retained: seq<Document>, k: nat, path: string)
    requires k < |retained|
  {
    path in removed || path in Paths(retained[..k + 1])
  }

  /**
   The last document before the one at `k` refers to the object at this path; at the path of that one nothing is left.
   */
  ghost predicate LeavesReference(schema: Schema, retained: seq<Document>, k: nat, id: string, path: string)
    requires k < |retained|
  {
    var documents := RetainedAll(map[], retained[..k]);
    path != retained[k].path && path in documents && Refers(schema, documents[path], id)
  }

  /** At every path touched the references left are those there were. */
  ghost predicate LeavesAsWas(schema: Schema, refs: Refs, removed: seq<string>, retained: seq<Document>, k: nat)
    requires k < |retained|
  {
    forall id, path {:trigger Has(refs, id, path)} {:trigger LeavesReference(schema, retained, k, id, path)} ::
      Touched(removed, retained, k, path) ==> (Has(refs, id, path) <==> LeavesReference(schema, retained, k, id, path))
  }

  lemma SupportAfterStop(schema: Schema, messages: set<Message>, records: map<string, Document>, removed: seq<string>,
                         retained: seq<Document>, k: nat, messages': set<Message>, records': map<string, Document>,
                         id: string, path: string)
    requires StoppedAt(schema, messages, records, removed, retained, k, messages', records')
    ensures Supported(schema, messages', records', id, path) <==>
              if Touched(removed, retained, k, path) then LeavesReference(schema, retained, k, id, path)
              else Supported(schema, messages, records, id, path)
  {
    var gone, before := (set p | p in removed), retained[..k];
    RetainedOver(records - gone, before);
    assert retained[..k + 1] == before + [retained[k]];
    assert Paths(retained[..k + 1]) == Paths(before) + [retained[k].path];
    assert path in removed + Paths(retained[..k + 1]) <==> Touched(removed, retained, k, path);
  }

  /** So a refused batch leaves the index as it was exactly when it leaves the references at the paths it touched. */
  lemma StoppedIsSameIffLeavesAsWas(schema: Schema, messages: set<Message>, records: map<string, Document>, refs: Refs,
                                    removed: seq<string>, retained: seq<Document>, k: nat,
                                    messages': set<Message>, records': map<string, Document>, refs': Refs)
    requires IndexOf(schema, messages, records, refs) && IndexOf(schema, messages', records', refs')
    requires StoppedAt(schema, messages, records, removed, retained, k, messages', records')
    ensures refs == refs' <==> LeavesAsWas(schema, refs, removed, retained, k)
  {
    forall id, path
      ensures Has(refs', id, path) <==>
                if Touched(removed, retained, k, path) then LeavesReference(schema, retained, k, id, path)
                else Has(refs, id, path)
    {
      SupportAfterStop(schema, messages, records, removed, retained, k, messages', records', id, path);
      assert Has(refs, id, path) <==> Supported(schema, messages, records, id, path);
      assert Has(refs', id, path) <==> Supported(schema, messages', records', id, path);
    }
    if LeavesAsWas(schema, refs, removed, retained, k) {
      SameReferencesSameIndex(refs, refs');
    }
  }

  ghost function MessageSet(messages: seq<Message>): set<Message> {
    set m | m in messages
  }

  // ---------------------------------------------------------------- the state

  class RefState {
    const schema: Schema
    var refs: Refs

    /** The messages and records the index is of; a record change at a message's path displaces that message. */
    ghost var messages: set<Message>
    ghost var records: map<string, Document>

    ghost predicate Valid()
      reads this
    {
      IndexOf(schema, messages, records, refs)
    }

    constructor (schema: Schema)
      ensures Valid() && this.schema == schema && refs == map[] && messages == {} && records == map[]
    {
      this.schema := schema;
      refs, messages, records := map[], {}, map[];
    }

    /** `entry(id).or_default().insert(source)`. */
    method Insert(id: string, source: string) returns (inserted: bool)
      requires NoEmptySet(refs)
      modifies this`refs
      ensures NoEmptySet(refs) && inserted == !Has(old(refs), id, source)
      ensures !inserted ==> refs == old(refs)
      ensures forall i, s {:trigger Has(refs, i, s)} :: Has(refs, i, s) <==>
                Has(old(refs), i, s) || (i == id && s == source)
    {
      var sources := if id in refs then refs[id] else {};
      inserted := source !in sources;
      refs := refs[id := sources + {source}];
      if !inserted {
        assert sources + {source} == sources;
      }
    }

    /** Insert the source under each of the ids. */
    method InsertAll(ids: seq<string>, source: string) returns (changed: bool)
      requires NoEmptySet(refs)
      modifies this`refs
      ensures NoEmptySet(refs)
      ensures forall i, s {:trigger Has(refs, i, s)} :: Has(refs, i, s) <==>
                Has(old(refs), i, s) || (i in ids && s == source)
      ensures changed <==> refs != old(refs)
      ensures changed <==> exists i :: i in ids && !Has(old(refs), i, source)
    {
      changed := false;
      for n := 0 to |ids|
        invariant NoEmptySet(refs)
        invariant forall i, s {:trigger Has(refs, i, s)} :: Has(refs, i, s) <==>
                    Has(old(refs), i, s) || (i in ids[..n] && s == source)
        invariant changed <==> exists i :: i in ids[..n] && !Has(old(refs), i, source)
        invariant !changed ==> refs == old(refs)
      {
        assert ids[..n + 1] == ids[..n] + [ids[n]];
        assert Has(refs, ids[n], source) <==> Has(old(refs), ids[n], source) || ids[n] in ids[..n];
        var inserted := Insert(ids[n], source);
        changed := changed || inserted;
      }
      assert ids[..|ids|] == ids;
      if changed {
        ghost var i :| i in ids && !Has(old(refs), i, source);
        assert Has(refs, i, source);
      }
    }

    method RetainMessage(message: Message) returns (changed: bool)
      requires Valid()
      modifies this
      ensures Valid() && messages == old(messages) + {message} && records == old(records)
      ensures changed <==> refs != old(refs)
    {
      changed := InsertAll(message.attachments, message.path);
      messages := messages + {message};
      forall id, source
        ensures Has(refs, id, source) <==> Supported(schema, messages, records, id, source)
      {
        RetainedMessageSupports(schema, old(messages), records, message, id, source);
        assert Has(old(refs), id, source) <==> Supported(schema, old(messages), records, id, source);
      }
    }

    /** The source goes from every set; sets left empty go altogether. */
    method RemoveSource(source: string) returns (changed: bool)
      requires Valid()
      modifies this
      ensures Valid() && messages == Without(old(messages), source) && records == old(records) - {source}
      ensures changed <==> refs != old(refs)
      ensures changed <==> exists id :: Has(old(refs), id, source)
    {
      changed := Strip(source);
      messages, records := Without(messages, source), records - {source};
      forall i, s
        ensures Has(refs, i, s) <==> Supported(schema, messages, records, i, s)
      {
        RemovedSourceSupports(schema, old(messages), old(records), source, i, s);
        assert Has(old(refs), i, s) <==> Supported(schema, old(messages), old(records), i, s);
      }
    }

    method Strip(source: string) returns (changed: bool)
      requires NoEmptySet(refs)
      modifies this`refs
      ensures NoEmptySet(refs)
      ensures forall i, s {:trigger Has(refs, i, s)} :: Has(refs, i, s) <==> Has(old(refs), i, s) && s != source
      ensures changed <==> exists id :: Has(old(refs), id, source)
      ensures changed <==> refs != old(refs)
    {
      var empty: set<string>;
      changed, empty := StripEach(source);
      ghost var stripped := refs;
      var left := empty;
      while left != {}
        invariant left <= empty && refs == stripped - (empty - left)
        decreases |left|
      {
        var id :| id in left;
        refs := refs - {id};
        left := left - {id};
      }
      StrippedRefs(old(refs), stripped, refs, empty, source);
    }

    /** The first loop: take the source out of every set, and note which sets that leaves empty. */
    method StripEach(source: string) returns (changed: bool, empty: set<string>)
      modifies this`refs
      ensures Stripped(old(refs), refs, empty, source, {})
      ensures changed <==> exists id :: Has(old(refs), id, source)
    {
      changed, empty := false, {};
      var rest := refs.Keys;
      while rest != {}
        invariant Stripped(old(refs), refs, empty, source, rest)
        invariant changed <==> exists i :: i !in rest && Has(old(refs), i, source)
        decreases |rest|
      {
        var id :| id in rest;
        StripOneMore(old(refs), refs, empty, source, rest, id);
        changed := changed || source in refs[id];
        refs := refs[id := refs[id] - {source}];
        if refs[id] == {} {
          empty := empty + {id};
        }
        rest := rest - {id};
      }
    }

    /**
     The record's old references go, then those its document declares come. A document
     that does not fit is refused after its old references are gone.
     */
    method RetainRecordForSchema(record: Document) returns (changed: Option<bool>)
      requires Valid()
      modifies this
      ensures Valid() && messages == Without(old(messages), record.path)
      ensures changed.Some? <==> Collectable(schema, record)
      ensures records == if changed.Some? then old(records)[record.path := record] else old(records) - {record.path}
      ensures changed == Some(false) ==> refs == old(refs)
      ensures changed.Some? ==> (changed.value <==> Touches(old(refs), schema, record))
      ensures changed.None? ==> (refs == old(refs) <==> !exists id :: Has(old(refs), id, record.path))
    {
      var removed := RemoveSource(record.path);
      ghost var between := refs;
      var ids := DeclaredRecordObjectRefIds(schema, record);
      if ids.None? {
        return None;
      }
      var inserted := InsertRecord(record, ids.value);
      assert (old(records) - {record.path})[record.path := record] == old(records)[record.path := record];
      RemovedOrInserted(old(refs), between, schema, record, removed, inserted);
      changed := Some(removed || inserted);
    }

    /** The references of a record that has none. */
    method InsertRecord(record: Document, ids: seq<string>) returns (inserted: bool)
      requires Valid() && record.path !in records && forall id :: id in ids <==> Refers(schema, record, id)
      modifies this`refs, this`records
      ensures Valid() && records == old(records)[record.path := record]
      ensures inserted <==> refs != old(refs)
      ensures inserted <==> exists id :: Refers(schema, record, id) && !Has(old(refs), id, record.path)
    {
      inserted := InsertAll(ids, record.path);
      records := records[record.path := record];
      forall i, s
        ensures Has(refs, i, s) <==> Supported(schema, messages, records, i, s)
      {
        RetainedRecordSupports(schema, messages, old(records), record, i, s);
        assert Has(old(refs), i, s) <==> Supported(schema, messages, old(records), i, s);
      }
    }

    method RetainMessages(more: seq<Message>)
      requires Valid()
      modifies this
      ensures Valid() && messages == old(messages) + MessageSet(more) && records == old(records)
    {
      for i := 0 to |more|
        invariant Valid() && messages == old(messages) + MessageSet(more[..i]) && records == old(records)
      {
        assert more[..i + 1] == more[..i] + [more[i]];
        assert MessageSet(more[..i + 1]) == MessageSet(more[..i]) + {more[i]};
        var _ := RetainMessage(more[i]);
      }
      assert more[..|more|] == more;
    }

    /** The documents up to the first misfit are retained; the misfit's own references are gone too. */
    method RetainRecords(more: seq<Document>) returns (changed: Option<bool>, ghost done: nat)
      requires Valid()
      modifies this
      ensures Valid() && (changed.Some? <==> AllCollectable(schema, more))
      ensures changed.Some? ==>
                records == RetainedAll(old(records), more) && messages == WithoutAll(old(messages), Paths(more))
      ensures changed == Some(false) ==> refs == old(refs)
      ensures changed.None? ==> StoppedAt(schema, old(messages), old(records), [], more, done, messages, records)
    {
      changed, done := Some(false), 0;
      assert Paths(more[..0]) == [];
      for i := 0 to |more|
        invariant Valid() && changed.Some? &&
                  RetainedSoFar(schema, old(messages), old(records), more, i, messages, records)
        invariant changed == Some(false) ==> refs == old(refs)
      {
        RetainedOneMore(schema, old(messages), old(records), more, i, messages, records);
        var one := RetainRecordForSchema(more[i]);
        if one.None? {
          return None, i;
        }
        changed := Some(changed.value || one.value);
      }
      assert more[..|more|] == more;
    }

    method RemoveSources(sources: seq<string>) returns (changed: bool)
      requires Valid()
      modifies this
      ensures Valid() && records == old(records) - (set p | p in sources) &&
              messages == WithoutAll(old(messages), sources)
      ensures !changed ==> refs == old(refs)
    {
      changed := false;
      for i := 0 to |sources|
        invariant Valid() && (!changed ==> refs == old(refs))
        invariant records == old(records) - (set p | p in sources[..i]) &&
                  messages == WithoutAll(old(messages), sources[..i])
      {
        assert sources[..i + 1] == sources[..i] + [sources[i]];
        WithoutOneMore(old(messages), sources[..i], sources[i]);
        var removed := RemoveSource(sources[i]);
        changed := changed || removed;
      }
      assert sources[..|sources|] == sources;
    }
  }

  /** The index built from scratch: all messages, then all records; it fails if some document does not fit. */
  method RebuildForSchema(schema: Schema, messages: seq<Message>, records: seq<Document>)
    returns (rebuilt: Option<Refs>)
    ensures rebuilt.Some? <==> AllCollectable(schema, records)
    ensures var all := set m | m in messages;
            rebuilt.Some? && Apart(all, records) ==>
              IndexOf(schema, all, RetainedAll(map[], records), rebuilt.value)
  {
    var state := new RefState(schema);
    state.RetainMessages(messages);
    if Apart(MessageSet(messages), records) {
      ApartStay(MessageSet(messages), records);
    }

    ghost var done;
    var changed;
    changed, done := state.RetainRecords(records);
    rebuilt := if changed.Some? then Some(state.refs) else None;
  }

  // ---------------------------------------------------------------- the index and its file

  class ObjectRefIndex {
    const state: RefState

    /** What the index file holds. */
    var persisted: Refs

    ghost predicate Valid()
      reads this, state
    {
      state.Valid()
    }

    /** The file holds the index. */
    predicate InStep()
      reads this, state
    {
      persisted == state.refs
    }

    constructor (schema: Schema)
      ensures Valid() && InStep() && fresh(state) && state.schema == schema && state.messages == {} &&
              state.records == map[]
    {
      state := new RefState(schema);
      persisted := map[];
    }

    method Persist()
      modifies this
      ensures persisted == state.refs
    {
      persisted := state.refs;
    }

    method RetainMessage(message: Message)
      requires Valid()
      modifies this, state
      ensures Valid() && state.records == old(state.records) && (old(InStep()) ==> InStep())
      ensures state.messages ==
                if message.attachments == [] then old(state.messages) else old(state.messages) + {message}
    {
      if message.attachments == [] {
        return;
      }
      var changed := state.RetainMessage(message);
      if changed {
        Persist();
      }
    }

    /** A refused document leaves the file behind exactly when the record had references. */
    method RetainRecordForSchema(record: Document) returns (ok: bool)
      requires Valid()
      modifies this, state
      ensures Valid() && ok == Collectable(state.schema, record) &&
              state.messages == Without(old(state.messages), record.path)
      ensures state.records ==
                if ok then old(state.records)[record.path := record] else old(state.records) - {record.path}
      ensures old(InStep()) ==> (InStep() <==> ok || !exists id :: Has(old(state.refs), id, record.path))
    {
      var changed := state.RetainRecordForSchema(record);
      if changed.None? {
        return false;
      }
      if changed.value {
        Persist();
      }
      return true;
    }

    method RemoveRecord(path: string)
      requires Valid()
      modifies this, state
      ensures Valid() && state.messages == Without(old(state.messages), path) &&
              state.records == old(state.records) - {path}
      ensures old(InStep()) ==> InStep()
    {
      var changed := state.RemoveSource(path);
      if changed {
        Persist();
      }
    }

    /**
     A batch: all removals, then all documents, then one write of the file. The first misfit
     stops it short of the write: the index is then that of the documents before it.
     */
    method ApplyRecordChangesForSchema(removedPaths: seq<string>, retained: seq<Document>) returns (ok: bool)
      requires Valid()
      modifies this, state
      ensures Valid() && (ok <==> AllCollectable(state.schema, retained))
      ensures ok ==> state.records == RetainedAll(old(state.records) - (set p | p in removedPaths), retained)
      ensures ok ==> state.messages == WithoutAll(old(state.messages), removedPaths + Paths(retained))
      ensures ok && old(InStep()) ==> InStep()
      ensures !ok ==> persisted == old(persisted)
      ensures !ok ==>
                exists k: nat ::
                  StoppedAt(state.schema, old(state.messages), old(state.records), removedPaths, retained, k,
                                                 state.messages, state.records)
      ensures forall k :: FirstMisfit(state.schema, retained, k) && old(InStep()) ==>
                (InStep() <==> LeavesAsWas(state.schema, old(state.refs), removedPaths, retained, k))
    {
      var removed := state.RemoveSources(removedPaths);
      ghost var done;
      var inserted;
      inserted, done := state.RetainRecords(retained);
      if inserted.None? {
        StoppedAfterRemoval(state.schema, old(state.messages), old(state.records), removedPaths, retained, done,
                            state.messages,
                            state.records);
        StoppedIsSameIffLeavesAsWas(state.schema, old(state.messages), old(state.records), old(state.refs),
                                    removedPaths, retained,
                                    done, state.messages, state.records, state.refs);
        forall k | FirstMisfit(state.schema, retained, k)
          ensures k == done
        {
          FirstMisfitIsUnique(state.schema, retained, k, done);
        }
        return false;
      }
      WithoutBoth(old(state.messages), removedPaths, Paths(retained));
      if removed || inserted.value {
        Persist();
      }
      return true;
    }

    /** What the references of an object are, in the index's own words. */
    method ReferencesFor(id: string) returns (sources: set<string>)
      requires Valid()
      ensures forall s :: s in sources <==> Supported(state.schema, state.messages, state.records, id, s)
    {
      sources := if id in state.refs then state.refs[id] else {};
      forall s
        ensures s in sources <==> Supported(state.schema, state.messages, state.records, id, s)
      {
        assert Has(state.refs, id, s) <==> Supported(state.schema, state.messages, state.records, id, s);
      }
    }
  }

  // ---------------------------------------------------------------- a refused document

  function Photos(): Schema {
    map["t" := TableSchema([Field("f", ObjectRef)], map[])]
  }

  function PhotoRef(): Json {
    Obj(map["id" := Str("o"), "path" := Str("p"), "contentType" := Str("c"), "sha256" := Str("h"),
            "byteSize" := Integer(1)])
  }

  function Photo(): Document {
    Document("t", "r", Obj(map["f" := PhotoRef()]))
  }

  lemma PhotoRefIsRef()
    ensures IsRef(PhotoRef())
  {
    OneLetter("o");
    OneLetter("p");
    OneLetter("c");
    OneLetter("h");
  }

  lemma OneLetter(s: string)
    requires |s| == 1 && 'a' <= s[0] <= 'z'
    ensures Trim(s) != []
  {
  }

  lemma PhotoFits()
    ensures Collectable(Photos(), Photo()) && Refers(Photos(), Photo(), "o")
  {
    PhotoRefIsRef();
    DeclarationDecides(Photos(), Photo());
    SplitsAtFirstDot("t");
    var d := DeclarationOf(Photos(), Photo()).value;
    var next := Next(d, IntoField(0)).value;
    assert next.fieldType == ObjectRef && next.value == PhotoRef();
    assert CollectFromType(next) == Some([RefAt(next.path, PhotoRef())]);
    assert CollectFromFields(d, 0) == Some([]);
    assert CollectFromFields(d, 1) == Joined(Some([]), CollectFromType(next));
    WalkFindsWhatIsDeclared(d);
    assert RefAt(next.path, PhotoRef()) in CollectFromType(d).value;
  }

  /** A stored record with a reference, written again with a document that does not fit: the file stays behind. */
  method RefusedDocumentLeavesFileBehind() returns (index: ObjectRefIndex)
    ensures index.Valid() && !index.InStep()
  {
    PhotoFits();
    index := new ObjectRefIndex(Photos());
    var stored := index.RetainRecordForSchema(Photo());
    assert Supported(Photos(), index.state.messages, index.state.records, "o", "r");
    assert Has(index.state.refs, "o", "r");
    var misfit := Photo().(value := Null);
    assert !Collectable(Photos(), misfit) by {
      assert ReadBy(Photos(), "t", Photos()["t"].fields);
    }
    var refused := index.RetainRecordForSchema(misfit);
  }
}
