/**
 A chat log bucket: an append-only data file of message lines, an offset index beside
 it, reads through the index, and the full scan that rebuilds an index that fell behind.
 */
module ChatIndex {
  import opened Lex
  import opened Lines
  import opened Messages
  import opened Options
  import opened Sorting
  import opened Words

  datatype IndexEntry = IndexEntry(lsn: nat, createdAtMs: nat, id: string, offset: nat, len: nat)

  /** The JSON encoders and decoders. */
  datatype Codec = Codec(encode: Message -> string, decode: string -> Option<Message>,
                         encodeEntry: IndexEntry -> string, decodeEntry: string -> Option<IndexEntry>)

  predicate IsAsciiSpace(c: char) {
    c == ' ' || c == '\t' || c == '\n' || c == '\U{000C}' || c == '\r'
  }

  predicate Blank(line: string) {
    forall i :: 0 <= i < |line| ==> IsAsciiSpace(line[i])
  }

  /** A line's worth of text: no newline, and something to see. */
  ghost predicate LineText(text: string) {
    Unbroken(text) && !Blank(text)
  }

  ghost predicate Faithful(c: Codec) {
    (forall m :: LineText(c.encode(m)) && c.decode(c.encode(m)) == Some(m)) &&
    (forall e :: LineText(c.encodeEntry(e)) && c.decodeEntry(c.encodeEntry(e)) == Some(e))
  }

  // ---------------------------------------------------------------- what the files hold

  function Line(c: Codec, m: Message): string {
    c.encode(m) + "\n"
  }

  /** The data file after `log` has been appended. */
  function DataOf(c: Codec, log: seq<Message>): string {
    if log == [] then [] else DataOf(c, log[..|log| - 1]) + Line(c, log[|log| - 1])
  }

  /** A message and where its line is. */
  datatype Located = Located(message: Message, offset: nat, len: nat)

  function EntryOf(l: Located): IndexEntry {
    IndexEntry(l.message.lsn, l.message.createdAtMs, l.message.id, l.offset, l.len)
  }

  function MessageOf(l: Located): Message {
    l.message
  }

  function LocatedOf(c: Codec, log: seq<Message>): seq<Located> {
    if log == [] then []
    else
      var init, last := log[..|log| - 1], log[|log| - 1];
      LocatedOf(c, init) + [Located(last, |DataOf(c, init)|, |Line(c, last)|)]
  }

  /** The index entries of `log`. */
  function EntriesOf(c: Codec, log: seq<Message>): seq<IndexEntry> {
    Map(EntryOf, LocatedOf(c, log))
  }

  function IndexText(c: Codec, entries: seq<IndexEntry>): string {
    Concat(Map(text => text + "\n", Map(c.encodeEntry, entries)))
  }

  lemma {:induction false} DataEndsLine(c: Codec, log: seq<Message>)
    ensures DataOf(c, log) == [] || EndsLine(DataOf(c, log))
  {
    if log != [] {
      var data, line := DataOf(c, log[..|log| - 1]), Line(c, log[|log| - 1]);
      assert (data + line)[|data + line| - 1] == line[|line| - 1];
    }
  }

  lemma DataSplitsOneMore(c: Codec, log: seq<Message>, m: Message)
    requires Faithful(c)
    ensures SplitInclusive(DataOf(c, log + [m])) == SplitInclusive(DataOf(c, log)) + [Line(c, m)]
  {
    DataEndsLine(c, log);
    assert LineText(c.encode(m)) && (log + [m])[..|log|] == log;
    SplitInclusiveOfLine(DataOf(c, log), c.encode(m));
  }

  lemma {:induction false} LocatedMessages(c: Codec, log: seq<Message>)
    ensures Map(MessageOf, LocatedOf(c, log)) == log
  {
    if log != [] {
      LocatedMessages(c, log[..|log| - 1]);
    }
  }

  ghost predicate PointsAt(c: Codec, data: string, e: IndexEntry, m: Message) {
    e.offset + e.len <= |data| && data[e.offset..e.offset + e.len] == Line(c, m)
  }

  /** Every entry points at the line of its message. */
  lemma {:induction false} EntriesPointAtLines(c: Codec, log: seq<Message>, l: Located)
    requires l in LocatedOf(c, log)
    ensures PointsAt(c, DataOf(c, log), EntryOf(l), l.message)
  {
    var init, last := log[..|log| - 1], log[|log| - 1];
    var data, line := DataOf(c, init), Line(c, last);
    if l == Located(last, |data|, |line|) {
      assert (data + line)[|data|..] == line;
    } else {
      EntriesPointAtLines(c, init, l);
      assert (data + line)[l.offset..l.offset + l.len] == data[l.offset..l.offset + l.len];
    }
  }

  // ---------------------------------------------------------------- tiling

  /** One entry after the other, without gap or overlap, from the start of the file up to `upTo`. */
  ghost predicate Tiles(entries: seq<IndexEntry>, upTo: int) {
    if entries == [] then upTo == 0
    else
      var last := entries[|entries| - 1];
      last.offset + last.len == upTo && Tiles(entries[..|entries| - 1], last.offset)
  }

  predicate ByOffset(a: IndexEntry, b: IndexEntry) {
    a.offset <= b.offset
  }

  predicate Owns(e: IndexEntry, position: int) {
    e.offset <= position < e.offset + e.len
  }

  lemma {:induction false} TilesBefore(entries: seq<IndexEntry>, upTo: int, i: nat)
    requires Tiles(entries, upTo) && i < |entries|
    ensures Tiles(entries[..i], entries[i].offset) && entries[i].offset + entries[i].len <= upTo
    ensures forall j :: i < j < |entries| ==> entries[i].offset + entries[i].len <= entries[j].offset
  {
    var n := |entries| - 1;
    if i < n {
      assert entries[..n][..i] == entries[..i];
      TilesBefore(entries[..n], entries[n].offset, i);
      assert forall j :: i < j < n ==> entries[..n][j] == entries[j];
    }
  }

  lemma {:induction false} TilesOnce(entries: seq<IndexEntry>, a: int, b: int)
    requires Tiles(entries, a) && Tiles(entries, b)
    ensures a == b
  {
  }

  /** When the entries tile the file, every byte belongs to exactly one of them. */
  lemma {:induction false} TileOwnsByte(entries: seq<IndexEntry>, upTo: int, position: nat) returns (i: nat)
    requires Tiles(entries, upTo) && position < upTo
    ensures i < |entries| && Owns(entries[i], position)
    ensures forall j :: 0 <= j < |entries| && Owns(entries[j], position) ==> j == i
  {
    var n := |entries| - 1;
    if entries[n].offset <= position {
      i := n;
    } else {
      i := TileOwnsByte(entries[..n], entries[n].offset, position);
      assert entries[i] == entries[..n][i];
    }
    forall j | 0 <= j < |entries| && Owns(entries[j], position)
      ensures j == i
    {
      TilesBefore(entries, upTo, i);
      TilesBefore(entries, upTo, j);
    }
  }

  /** `index_covers_data_file`. */
  method IndexCoversDataFile(entries: seq<IndexEntry>, dataLen: u64) returns (covers: bool)
    ensures covers <==> Tiles(Sort(ByOffset, entries), dataLen)
  {
    if entries == [] {
      return dataLen == 0;
    }
    var byOffset := Sort(ByOffset, entries);
    var expected := 0;
    for i := 0 to |byOffset|
      invariant Tiles(byOffset[..i], expected) && expected <= dataLen
    {
      assert byOffset[..i + 1][..i] == byOffset[..i];
      var entry := byOffset[i];
      if Tiles(byOffset, dataLen) {
        TilesBefore(byOffset, dataLen, i);
        TilesOnce(byOffset[..i], expected, entry.offset);
      }
      if entry.offset != expected {
        return false;
      }
      var end := entry.offset + entry.len;
      if end > U64_MAX || end > dataLen {
        return false;
      }
      expected := end;
    }
    assert byOffset[..|byOffset|] == byOffset;
    if Tiles(byOffset, dataLen) {
      TilesOnce(byOffset, expected, dataLen);
    }
    return expected == dataLen;
  }

  /** For non-empty lines the check succeeds exactly when the entries can be arranged to tile the file. */
  lemma CoversIffSomeArrangementTiles(entries: seq<IndexEntry>, dataLen: nat)
    requires forall e :: e in entries ==> e.len > 0
    ensures Tiles(Sort(ByOffset, entries), dataLen) <==>
              exists arranged: seq<IndexEntry> :: multiset(arranged) == multiset(entries) && Tiles(arranged, dataLen)
  {
    var sorted := Sort(ByOffset, entries);
    SortPermutes(ByOffset, entries);
    SortSorts(ByOffset, entries);
    forall arranged: seq<IndexEntry> | multiset(arranged) == multiset(entries) && Tiles(arranged, dataLen)
      ensures arranged == sorted
    {
      MembersOf(arranged, entries);
      forall i, j | 0 <= i < j < |arranged|
        ensures arranged[i].offset < arranged[j].offset
      {
        assert arranged[i] in arranged;
        TilesBefore(arranged, dataLen, i);
      }
      SortedIsUnique(ByOffset, arranged, sorted);
    }
  }

  // ---------------------------------------------------------------- an index with gaps

  predicate AllTrue(mask: seq<bool>) {
    forall i :: 0 <= i < |mask| ==> mask[i]
  }

  /** The entries of those messages whose index line was written. */
  function Kept(c: Codec, log: seq<Message>, mask: seq<bool>): seq<IndexEntry>
    requires |mask| == |log|
  {
    if log == [] then []
    else
      var n := |log| - 1;
      var before := Kept(c, log[..n], mask[..n]);
      if mask[n] then before + [EntryOf(Located(log[n], |DataOf(c, log[..n])|, |Line(c, log[n])|))] else before
  }

  lemma {:induction false} AllKept(c: Codec, log: seq<Message>, mask: seq<bool>)
    requires |mask| == |log| && AllTrue(mask)
    ensures Kept(c, log, mask) == EntriesOf(c, log) && Tiles(EntriesOf(c, log), |DataOf(c, log)|)
  {
    if log != [] {
      var n := |log| - 1;
      AllKept(c, log[..n], mask[..n]);
      MapOfAppend(EntryOf, LocatedOf(c, log[..n]), Located(log[n], |DataOf(c, log[..n])|, |Line(c, log[n])|));
      var entries := EntriesOf(c, log);
      assert entries[..|entries| - 1] == EntriesOf(c, log[..n]);
    }
  }

  lemma {:induction false} KeptInOrder(c: Codec, log: seq<Message>, mask: seq<bool>)
    requires |mask| == |log|
    ensures SortedBy(ByOffset, Kept(c, log, mask))
    ensures forall i :: 0 <= i < |Kept(c, log, mask)| ==> Kept(c, log, mask)[i].offset <= |DataOf(c, log)|
  {
    if log != [] {
      KeptInOrder(c, log[..|log| - 1], mask[..|log| - 1]);
    }
  }

  /** A missing entry leaves a gap, so what is left never reaches the end of the file. */
  lemma {:induction false} GapsShow(c: Codec, log: seq<Message>, mask: seq<bool>, upTo: int)
    requires |mask| == |log| && Tiles(Kept(c, log, mask), upTo)
    ensures upTo <= |DataOf(c, log)| && (upTo == |DataOf(c, log)| ==> AllTrue(mask))
  {
    if log != [] {
      var n := |log| - 1;
      var before := Kept(c, log[..n], mask[..n]);
      if mask[n] {
        var kept := Kept(c, log, mask);
        assert kept[..|kept| - 1] == before;
        GapsShow(c, log[..n], mask[..n], |DataOf(c, log[..n])|);
      } else {
        GapsShow(c, log[..n], mask[..n], upTo);
      }
    }
  }

  /** The index passes the check exactly when no entry is missing. */
  lemma CoversIffComplete(c: Codec, log: seq<Message>, mask: seq<bool>)
    requires |mask| == |log|
    ensures Tiles(Sort(ByOffset, Kept(c, log, mask)), |DataOf(c, log)|) <==> AllTrue(mask)
  {
    var kept := Kept(c, log, mask);
    KeptInOrder(c, log, mask);
    assert [] + kept == kept;
    InsertAllInOrder(ByOffset, [], kept);
    if AllTrue(mask) {
      AllKept(c, log, mask);
    } else if Tiles(kept, |DataOf(c, log)|) {
      GapsShow(c, log, mask, |DataOf(c, log)|);
    }
  }

  // ---------------------------------------------------------------- scanning the data file

  datatype Decoded = Decoded(messages: seq<Message>, entries: seq<IndexEntry>, offset: nat)

  function DecodePiece(c: Codec, before: Decoded, piece: string): Option<Decoded> {
    if Blank(piece) then Some(before.(offset := before.offset + |piece|))
    else
      match c.decode(TrimNewline(piece))
      case None => None
      case Some(m) =>
        Some(Decoded(before.messages + [m], before.entries + [EntryOf(Located(m, before.offset, |piece|))],
                     before.offset + |piece|))
  }

  function DecodePieces(c: Codec, pieces: seq<string>): Option<Decoded> {
    if pieces == [] then Some(Decoded([], [], 0))
    else
      match DecodePieces(c, pieces[..|pieces| - 1])
      case None => None
      case Some(before) => DecodePiece(c, before, pieces[|pieces| - 1])
  }

  lemma {:induction false} BadPieceFails(c: Codec, pieces: seq<string>, i: nat)
    requires i <= |pieces| && DecodePieces(c, pieces[..i]).None?
    ensures DecodePieces(c, pieces).None?
  {
    if i < |pieces| {
      var n := |pieces| - 1;
      assert pieces[..n][..i] == pieces[..i];
      BadPieceFails(c, pieces[..n], i);
    } else {
      assert pieces[..i] == pieces;
    }
  }

  lemma DecodeOneMore(c: Codec, pieces: seq<string>, piece: string)
    ensures DecodePieces(c, pieces + [piece]) ==
            match DecodePieces(c, pieces)
            case None => None
            case Some(before) => DecodePiece(c, before, piece)
  {
    assert (pieces + [piece])[..|pieces|] == pieces;
  }

  /** The pieces decode to the log, its index and the length of its file. */
  ghost predicate DecodesTo(c: Codec, pieces: seq<string>, log: seq<Message>) {
    DecodePieces(c, pieces) == Some(Decoded(log, EntriesOf(c, log), |DataOf(c, log)|))
  }

  /** Scanning a data file gives back the messages appended to it and their index. */
  lemma {:induction false} DecodeOfLog(c: Codec, log: seq<Message>)
    requires Faithful(c)
    ensures DecodesTo(c, SplitInclusive(DataOf(c, log)), log)
  {
    if log != [] {
      var init, last := log[..|log| - 1], log[|log| - 1];
      assert log == init + [last];
      DecodeOfLog(c, init);
      DecodeOfLongerLog(c, SplitInclusive(DataOf(c, init)), init, last);
      DataSplitsOneMore(c, init, last);
    }
  }

  lemma DecodeOfLongerLog(c: Codec, pieces: seq<string>, log: seq<Message>, m: Message)
    requires Faithful(c) && DecodesTo(c, pieces, log)
    ensures DecodesTo(c, pieces + [Line(c, m)], log + [m])
  {
    EntriesOneMore(c, log, m);
    DecodeLineMore(c, pieces, Decoded(log, EntriesOf(c, log), |DataOf(c, log)|), m);
  }

  lemma DecodeLineMore(c: Codec, pieces: seq<string>, before: Decoded, m: Message)
    requires Faithful(c) && DecodePieces(c, pieces) == Some(before)
    ensures var len := |Line(c, m)|;
            DecodePieces(c, pieces + [Line(c, m)]) ==
            Some(Decoded(before.messages + [m], before.entries + [EntryOf(Located(m, before.offset, len))],
                         before.offset + len))
  {
    DecodeOneMore(c, pieces, Line(c, m));
    DecodeOfLine(c, before, m);
  }

  lemma EntriesOneMore(c: Codec, log: seq<Message>, m: Message)
    ensures EntriesOf(c, log + [m]) == EntriesOf(c, log) + [EntryOf(Located(m, |DataOf(c, log)|, |Line(c, m)|))]
    ensures |DataOf(c, log + [m])| == |DataOf(c, log)| + |Line(c, m)|
  {
    assert (log + [m])[..|log|] == log;
    MapOfAppend(EntryOf, LocatedOf(c, log), Located(m, |DataOf(c, log)|, |Line(c, m)|));
  }

  lemma DecodeOfLine(c: Codec, before: Decoded, m: Message)
    requires Faithful(c)
    ensures var len := |Line(c, m)|;
            DecodePiece(c, before, Line(c, m)) ==
            Some(Decoded(before.messages + [m], before.entries + [EntryOf(Located(m, before.offset, len))],
                         before.offset + len))
  {
    var text := c.encode(m);
    assert LineText(text);
    assert TrimNewline(text + "\n") == text;
    var i :| 0 <= i < |text| && !IsAsciiSpace(text[i]);
    assert (text + "\n")[i] == text[i];
  }

  predicate Below(beforeLsn: Option<nat>, lsn: nat) {
    beforeLsn.None? || lsn < beforeLsn.value
  }

  function MessageBelow(beforeLsn: Option<nat>): Message -> bool {
    (m: Message) => Below(beforeLsn, m.lsn)
  }

  function EntryBelow(beforeLsn: Option<nat>): IndexEntry -> bool {
    (e: IndexEntry) => Below(beforeLsn, e.lsn)
  }

  function LocatedBelow(beforeLsn: Option<nat>): Located -> bool {
    (l: Located) => Below(beforeLsn, l.message.lsn)
  }

  method DecodeBucketData(c: Codec, contents: string, beforeLsn: Option<nat>)
    returns (result: Option<(seq<Message>, seq<IndexEntry>)>)
    ensures var decoded := DecodePieces(c, SplitInclusive(contents));
            result == if decoded.None? then None
                      else Some((Filter(MessageBelow(beforeLsn), decoded.value.messages),
                                 decoded.value.entries))
  {
    var pieces := SplitInclusive(contents);
    var messages: seq<Message>, entries: seq<IndexEntry>, offset: nat := [], [], 0;
    ghost var all: seq<Message> := [];
    for i := 0 to |pieces|
      invariant DecodePieces(c, pieces[..i]) == Some(Decoded(all, entries, offset))
      invariant messages == Filter(MessageBelow(beforeLsn), all)
    {
      var piece := pieces[i];
      assert pieces[..i + 1][..i] == pieces[..i];
      if Blank(piece) {
        offset := offset + |piece|;
        continue;
      }
      var decoded := c.decode(TrimNewline(piece));
      if decoded.None? {
        BadPieceFails(c, pieces, i + 1);
        return None;
      }
      var message := decoded.value;
      entries := entries + [IndexEntry(message.lsn, message.createdAtMs, message.id, offset, |piece|)];
      offset := offset + |piece|;
      all := all + [message];
      if beforeLsn.Some? && message.lsn >= beforeLsn.value {
        continue;
      }
      messages := messages + [message];
    }
    assert pieces[..|pieces|] == pieces;
    return Some((messages, entries));
  }

  /** A line of ASCII white space is passed over; any other is decoded, and one that does not decode fails the scan. */
  lemma LineCountsUnlessBlank(c: Codec, pieces: seq<string>, text: string, before: Decoded)
    requires Unbroken(text) && DecodePieces(c, pieces) == Some(before)
    ensures var blank := forall i :: 0 <= i < |text| ==> text[i] as int in {9, 12, 13, 32};
            var end := before.offset + |text| + 1;
            DecodePieces(c, pieces + [text + "\n"]) ==
              if blank then Some(before.(offset := end))
              else if c.decode(text).None? then None
              else
                var m := c.decode(text).value;
                Some(Decoded(before.messages + [m],
                             before.entries + [IndexEntry(m.lsn, m.createdAtMs, m.id, before.offset, |text| + 1)], end))
  {
    var line := text + "\n";
    DecodeOneMore(c, pieces, line);
    assert TrimNewline(line) == text;
    assert forall i :: 0 <= i < |text| ==> line[i] == text[i];
    assert forall i :: 0 <= i < |text| ==> (IsAsciiSpace(text[i]) <==> text[i] as int in {9, 12, 13, 32});
    if i :| 0 <= i < |text| && text[i] as int !in {9, 12, 13, 32} {
      assert !IsAsciiSpace(line[i]);
    }
  }

  // ---------------------------------------------------------------- two ways to read

  predicate NewestFirst(a: Message, b: Message) {
    MessageAtMost(b, a)
  }

  predicate IndexAtMost(a: IndexEntry, b: IndexEntry) {
    if a.lsn > 0 && b.lsn > 0 then a.lsn <= b.lsn
    else a.createdAtMs < b.createdAtMs || (a.createdAtMs == b.createdAtMs && AtMost(a.id, b.id))
  }

  predicate IndexNewestFirst(a: IndexEntry, b: IndexEntry) {
    IndexAtMost(b, a)
  }

  predicate LocatedNewestFirst(a: Located, b: Located) {
    NewestFirst(a.message, b.message)
  }

  /** Filter, sort, truncate. */
  function LatestOf(log: seq<Message>, beforeLsn: Option<nat>, limit: nat): seq<Message> {
    Take(Sort(NewestFirst, Filter(MessageBelow(beforeLsn), log)), limit)
  }

  /** The lines to read, in order. */
  function Plan(c: Codec, log: seq<Message>, beforeLsn: Option<nat>, limit: nat): seq<Located> {
    Take(Sort(LocatedNewestFirst, Filter(LocatedBelow(beforeLsn), LocatedOf(c, log))), limit)
  }

  lemma TakeOfMap<A, B>(f: A -> B, s: seq<A>, count: nat)
    ensures Take(Map(f, s), count) == Map(f, Take(s, count))
  {
  }

  /** Sorting the entries and sorting the messages picks the same lines in the same order. */
  lemma PlanShowsBoth(c: Codec, log: seq<Message>, beforeLsn: Option<nat>, limit: nat)
    ensures Map(MessageOf, Plan(c, log, beforeLsn, limit)) == LatestOf(log, beforeLsn, limit)
    ensures Map(EntryOf, Plan(c, log, beforeLsn, limit)) ==
            Take(Sort(IndexNewestFirst, Filter(EntryBelow(beforeLsn), EntriesOf(c, log))), limit)
  {
    var located := LocatedOf(c, log);
    var wanted := LocatedBelow(beforeLsn);
    var wantedMessage := MessageBelow(beforeLsn);
    var wantedEntry := EntryBelow(beforeLsn);
    var kept := Filter(wanted, located);
    var sorted := Sort(LocatedNewestFirst, kept);
    LocatedMessages(c, log);
    FilterOfMap(MessageOf, wantedMessage, wanted, located);
    FilterOfMap(EntryOf, wantedEntry, wanted, located);
    assert ComparesBy(MessageOf, NewestFirst, LocatedNewestFirst);
    assert ComparesBy(EntryOf, IndexNewestFirst, LocatedNewestFirst);
    SortOfMap(MessageOf, NewestFirst, LocatedNewestFirst, kept);
    SortOfMap(EntryOf, IndexNewestFirst, LocatedNewestFirst, kept);
    TakeOfMap(MessageOf, sorted, limit);
    TakeOfMap(EntryOf, sorted, limit);
  }

  lemma {:induction false} FilterMembers<T>(p: T -> bool, s: seq<T>, x: T)
    requires x in Filter(p, s)
    ensures x in s
  {
    if s != [] && !(p(s[|s| - 1]) && x == s[|s| - 1]) {
      FilterMembers(p, s[..|s| - 1], x);
    }
  }

  lemma PlanIsLocated(c: Codec, log: seq<Message>, beforeLsn: Option<nat>, limit: nat, i: nat)
    requires i < |Plan(c, log, beforeLsn, limit)|
    ensures Plan(c, log, beforeLsn, limit)[i] in LocatedOf(c, log)
  {
    var wanted := LocatedBelow(beforeLsn);
    var located, l := LocatedOf(c, log), Plan(c, log, beforeLsn, limit)[i];
    var kept := Filter(wanted, located);
    var sorted := Sort(LocatedNewestFirst, kept);
    assert l in sorted;
    SortPermutes(LocatedNewestFirst, kept);
    MemberOf(sorted, kept, l);
    FilterMembers(wanted, located, l);
  }

  lemma PlanPointsAtLines(c: Codec, log: seq<Message>, beforeLsn: Option<nat>, limit: nat, i: nat)
    requires i < |Plan(c, log, beforeLsn, limit)|
    ensures var l := Plan(c, log, beforeLsn, limit)[i];
            PointsAt(c, DataOf(c, log), EntryOf(l), l.message)
  {
    var l := Plan(c, log, beforeLsn, limit)[i];
    assert l in LocatedOf(c, log) by {
      PlanIsLocated(c, log, beforeLsn, limit, i);
    }
    EntriesPointAtLines(c, log, l);
  }

  /** Whatever entries are chosen through a complete index, each points at the line of the message it stands for. */
  lemma ChosenPointAtLines(c: Codec, log: seq<Message>, beforeLsn: Option<nat>, limit: nat, chosen: seq<IndexEntry>)
    requires chosen == Take(Sort(IndexNewestFirst, Filter(EntryBelow(beforeLsn), EntriesOf(c, log))), limit)
    ensures |chosen| == |LatestOf(log, beforeLsn, limit)|
    ensures forall i :: 0 <= i < |chosen| ==>
              PointsAt(c, DataOf(c, log), chosen[i], LatestOf(log, beforeLsn, limit)[i])
  {
    var plan := Plan(c, log, beforeLsn, limit);
    PlanShowsBoth(c, log, beforeLsn, limit);
    forall i | 0 <= i < |plan|
      ensures PointsAt(c, DataOf(c, log), chosen[i], LatestOf(log, beforeLsn, limit)[i])
    {
      PlanPointsAtLines(c, log, beforeLsn, limit, i);
    }
  }

  // ---------------------------------------------------------------- what a read gives

  /** `shown` holds as many of the messages below the bound as the limit allows, and `rest` the others. */
  ghost predicate Picked(log: seq<Message>, beforeLsn: Option<nat>, limit: nat, shown: seq<Message>,
                         rest: multiset<Message>)
  {
    |shown| <= limit && (|shown| < limit ==> rest == multiset{}) &&
    forall m ::
      (multiset(shown) + rest)[m] == if beforeLsn.None? || m.lsn < beforeLsn.value then multiset(log)[m] else 0
  }

  /** Newest first, and nothing newer is left out. */
  ghost predicate NewestOf(shown: seq<Message>, rest: multiset<Message>) {
    (forall i, j :: 0 <= i < j < |shown| ==> MessageAtMost(shown[j], shown[i])) &&
    forall i, m :: 0 <= i < |shown| && m in rest ==> MessageAtMost(m, shown[i])
  }

  ghost predicate HighestLsnsOf(shown: seq<Message>, rest: multiset<Message>) {
    (forall i, j :: 0 <= i < j < |shown| ==> shown[j].lsn < shown[i].lsn) &&
    forall i, m :: 0 <= i < |shown| && m in rest ==> m.lsn < shown[i].lsn
  }

  ghost predicate LsnsDiffer(log: seq<Message>) {
    Durable(log) && forall i, j :: 0 <= i < j < |log| ==> log[i].lsn != log[j].lsn
  }

  /** The newest messages below the bound, up to the limit, and no others. */
  ghost predicate ShowsNewest(log: seq<Message>, beforeLsn: Option<nat>, limit: nat, shown: seq<Message>) {
    AsManyAsThere(log, beforeLsn, limit, shown) &&
    exists rest: multiset<Message> ::
      Picked(log, beforeLsn, limit, shown, rest) && (OrdersAll(MessageAtMost, log) ==> NewestOf(shown, rest)) &&
      (LsnsDiffer(log) ==> HighestLsnsOf(shown, rest))
  }

  ghost function PositionsBelow(log: seq<Message>, beforeLsn: Option<nat>): set<nat> {
    set i: nat | i < |log| && (beforeLsn.None? || log[i].lsn < beforeLsn.value)
  }

  ghost predicate AsManyAsThere(log: seq<Message>, beforeLsn: Option<nat>, limit: nat, shown: seq<Message>) {
    var there := |PositionsBelow(log, beforeLsn)|;
    |shown| == if there < limit then there else limit
  }

  lemma LatestIsPicked(log: seq<Message>, beforeLsn: Option<nat>, limit: nat) returns (rest: seq<Message>)
    ensures var sorted := Sort(NewestFirst, Filter(MessageBelow(beforeLsn), log));
            LatestOf(log, beforeLsn, limit) + rest == sorted
    ensures Picked(log, beforeLsn, limit, LatestOf(log, beforeLsn, limit), multiset(rest))
    ensures AsManyAsThere(log, beforeLsn, limit, LatestOf(log, beforeLsn, limit))
  {
    var wanted := MessageBelow(beforeLsn);
    var sorted, shown := Sort(NewestFirst, Filter(wanted, log)), LatestOf(log, beforeLsn, limit);
    rest := sorted[|shown|..];
    assert sorted == shown + rest;
    SortPermutes(NewestFirst, Filter(wanted, log));
    forall m
      ensures multiset(sorted)[m] == if beforeLsn.None? || m.lsn < beforeLsn.value then multiset(log)[m] else 0
    {
      FilterCounts(wanted, log, m);
    }
    FilterLength(wanted, log);
    assert Positions(wanted, log) == PositionsBelow(log, beforeLsn);
  }

  lemma PickedIsLogged(log: seq<Message>, beforeLsn: Option<nat>, limit: nat, shown: seq<Message>,
                       rest: multiset<Message>, m: Message)
    requires Picked(log, beforeLsn, limit, shown, rest) && (m in shown || m in rest)
    ensures m in log && (beforeLsn.None? || m.lsn < beforeLsn.value)
  {
    assert m in multiset(shown) + rest;
    assert m in multiset(log);
  }

  lemma LatestIsNewest(log: seq<Message>, beforeLsn: Option<nat>, limit: nat, rest: seq<Message>)
    requires Picked(log, beforeLsn, limit, LatestOf(log, beforeLsn, limit), multiset(rest))
    requires var sorted := Sort(NewestFirst, Filter(MessageBelow(beforeLsn), log));
             LatestOf(log, beforeLsn, limit) + rest == sorted
    requires OrdersAll(MessageAtMost, log)
    ensures NewestOf(LatestOf(log, beforeLsn, limit), multiset(rest))
  {
    var kept, shown := Filter(MessageBelow(beforeLsn), log), LatestOf(log, beforeLsn, limit);
    var sorted := Sort(NewestFirst, kept);
    forall m | m in kept
      ensures m in log
    {
      FilterMembers(MessageBelow(beforeLsn), log, m);
    }
    assert OrdersAll(NewestFirst, kept);
    SortSorts(NewestFirst, kept);
    forall i, m | 0 <= i < |shown| && m in multiset(rest)
      ensures MessageAtMost(m, shown[i])
    {
      var j :| 0 <= j < |rest| && rest[j] == m;
      assert NewestFirst(sorted[i], sorted[|shown| + j]);
    }
    forall i, j | 0 <= i < j < |shown|
      ensures MessageAtMost(shown[j], shown[i])
    {
      assert NewestFirst(sorted[i], sorted[j]);
    }
  }

  /** Messages of a log whose LSNs differ are never shown twice, nor shown and left out. */
  lemma DifferentLsnsDescend(log: seq<Message>, beforeLsn: Option<nat>, limit: nat, shown: seq<Message>,
                             rest: multiset<Message>)
    requires LsnsDiffer(log) && Picked(log, beforeLsn, limit, shown, rest) && NewestOf(shown, rest)
    ensures HighestLsnsOf(shown, rest)
  {
    forall m
      ensures (multiset(shown) + rest)[m] <= 1
    {
      OnceCountsOne(log, m);
    }
    forall m | m in shown || m in rest
      ensures m in log && m.lsn > 0
    {
      PickedIsLogged(log, beforeLsn, limit, shown, rest, m);
    }
    forall i, j | 0 <= i < j < |shown|
      ensures shown[j].lsn < shown[i].lsn
    {
      if shown[i] == shown[j] {
        TwiceCountsTwo(shown, i, j);
      }
    }
    forall i, m | 0 <= i < |shown| && m in rest
      ensures m.lsn < shown[i].lsn
    {
      assert shown[i] in multiset(shown);
      assert multiset(shown)[m] + rest[m] <= 1;
    }
  }

  lemma LatestShowsNewest(log: seq<Message>, beforeLsn: Option<nat>, limit: nat)
    ensures ShowsNewest(log, beforeLsn, limit, LatestOf(log, beforeLsn, limit))
  {
    var shown := LatestOf(log, beforeLsn, limit);
    var rest := LatestIsPicked(log, beforeLsn, limit);
    if OrdersAll(MessageAtMost, log) {
      LatestIsNewest(log, beforeLsn, limit, rest);
    }
    if LsnsDiffer(log) {
      OneKindIsOrdered(log);
      DifferentLsnsDescend(log, beforeLsn, limit, shown, multiset(rest));
    }
    assert Picked(log, beforeLsn, limit, shown, multiset(rest));
  }

  // ---------------------------------------------------------------- the bucket

  lemma IndexTextOfAppend(c: Codec, entries: seq<IndexEntry>, e: IndexEntry)
    ensures IndexText(c, entries + [e]) == IndexText(c, entries) + (c.encodeEntry(e) + "\n")
  {
    var line := (text: string) => text + "\n";
    MapOfAppend(c.encodeEntry, entries, e);
    MapOfAppend(line, Map(c.encodeEntry, entries), c.encodeEntry(e));
    var lines := Map(line, Map(c.encodeEntry, entries));
    assert (lines + [c.encodeEntry(e) + "\n"])[..|lines|] == lines;
  }

  /** Each line is that of an entry, but for the empty rest. */
  lemma LineOfEntry(c: Codec, entries: seq<IndexEntry>, lines: seq<string>, i: nat)
    requires Faithful(c) && lines == Map(c.encodeEntry, entries) + [[]] && i < |lines|
    ensures if i < |entries| then !Blank(lines[i]) && c.decodeEntry(lines[i]) == Some(entries[i]) else Blank(lines[i])
  {
    if i < |entries| {
      assert lines[i] == c.encodeEntry(entries[i]) && LineText(c.encodeEntry(entries[i]));
    }
  }

  lemma IndexSplitsIntoEntries(c: Codec, entries: seq<IndexEntry>)
    requires Faithful(c)
    ensures Split(IndexText(c, entries)) == Map(c.encodeEntry, entries) + [[]]
  {
    forall i | 0 <= i < |entries|
      ensures Unbroken(Map(c.encodeEntry, entries)[i])
    {
      assert LineText(c.encodeEntry(entries[i]));
    }
    SplitOfLines(Map(c.encodeEntry, entries));
  }

  lemma KeptOneMore(c: Codec, log: seq<Message>, mask: seq<bool>, m: Message, written: bool)
    requires |mask| == |log|
    ensures Kept(c, log + [m], mask + [written]) ==
            Kept(c, log, mask) + (if written then [EntryOf(Located(m, |DataOf(c, log)|, |Line(c, m)|))] else [])
    ensures DataOf(c, log + [m]) == DataOf(c, log) + Line(c, m)
  {
    assert (log + [m])[..|log|] == log && (mask + [written])[..|mask|] == mask;
  }

  lemma {:induction false} WithoutIndexLines(c: Codec, log: seq<Message>, mask: seq<bool>, messages: seq<Message>)
    requires |mask| == |log|
    ensures Kept(c, log + messages, mask + Repeat(false, |messages|)) == Kept(c, log, mask)
  {
    if messages == [] {
      assert log + messages == log && mask + Repeat(false, 0) == mask;
    } else {
      var init, last := messages[..|messages| - 1], messages[|messages| - 1];
      WithoutIndexLines(c, log, mask, init);
      assert log + messages == (log + init) + [last];
      assert mask + Repeat(false, |messages|) == (mask + Repeat(false, |init|)) + [false];
      KeptOneMore(c, log + init, mask + Repeat(false, |init|), last, false);
    }
  }

  /** What the two files will hold once the buffers are written. */
  ghost predicate Buffered(c: Codec, log: seq<Message>, mask: seq<bool>, data: string, index: string) {
    |mask| == |log| && data == DataOf(c, log) && index == IndexText(c, Kept(c, log, mask))
  }

  lemma BufferOneMore(c: Codec, log: seq<Message>, mask: seq<bool>, data: string, dataBytes: string,
                      index: string, indexBytes: string, m: Message, entry: IndexEntry)
    requires Buffered(c, log, mask, data + dataBytes, index + indexBytes)
    requires entry == EntryOf(Located(m, |data + dataBytes|, |Line(c, m)|))
    ensures Buffered(c, log + [m], mask + [true], data + (dataBytes + Line(c, m)),
                     index + (indexBytes + (c.encodeEntry(entry) + "\n")))
  {
    KeptOneMore(c, log, mask, m, true);
    IndexTextOfAppend(c, Kept(c, log, mask), entry);
    assert data + (dataBytes + Line(c, m)) == (data + dataBytes) + Line(c, m);
    var line := c.encodeEntry(entry) + "\n";
    assert index + (indexBytes + line) == (index + indexBytes) + line;
  }

  function Repeat(b: bool, count: nat): seq<bool> {
    seq(count, i => b)
  }

  class ChatLogBucket {
    const codec: Codec
    var data: string
    var index: string
    var nextOffset: nat

    /** The messages appended, and for each whether its index line was written too. */
    ghost var log: seq<Message>
    ghost var indexed: seq<bool>

    ghost predicate Valid()
      reads this
    {
      Faithful(codec) && |indexed| == |log| && data == DataOf(codec, log) && nextOffset == |data| <= U64_MAX &&
      index == IndexText(codec, Kept(codec, log, indexed))
    }

    constructor (codec: Codec)
      requires Faithful(codec)
      ensures Valid() && log == [] && this.codec == codec
    {
      this.codec := codec;
      data, index, nextOffset, log, indexed := [], [], 0, [], [];
    }

    /** The data is written first; a failure to write the index leaves its lines out. */
    method AppendManyEncoded(messages: seq<Message>, indexWritten: bool) returns (ok: bool)
      requires Valid() && |DataOf(codec, log + messages)| <= U64_MAX
      modifies this
      ensures Valid() && ok == indexWritten
      ensures log == old(log) + messages && indexed == old(indexed) + Repeat(indexWritten, |messages|)
    {
      var dataBytes, indexBytes, offset := EncodeMany(messages);
      data := data + dataBytes;
      nextOffset := offset;
      WithoutIndexLines(codec, log, indexed, messages);
      log, indexed := log + messages, indexed + Repeat(indexWritten, |messages|);
      if !indexWritten {
        return false;
      }
      index := index + indexBytes;
      return true;
    }

    method EncodeMany(messages: seq<Message>) returns (dataBytes: string, indexBytes: string, offset: nat)
      requires Valid()
      ensures Buffered(codec, log + messages, indexed + Repeat(true, |messages|), data + dataBytes, index + indexBytes)
      ensures offset == |data + dataBytes|
    {
      dataBytes, indexBytes, offset := "", "", nextOffset;
      ghost var mask := indexed;
      assert log + messages[..0] == log;
      for i := 0 to |messages|
        invariant mask == indexed + Repeat(true, i)
        invariant Buffered(codec, log + messages[..i], mask, data + dataBytes, index + indexBytes)
        invariant offset == |data + dataBytes|
      {
        var m := messages[i];
        assert log + messages[..i + 1] == (log + messages[..i]) + [m];
        var encoded := Line(codec, m);
        var entry := IndexEntry(m.lsn, m.createdAtMs, m.id, offset, |encoded|);
        BufferOneMore(codec, log + messages[..i], mask, data, dataBytes, index, indexBytes, m, entry);
        offset := offset + |encoded|;
        dataBytes := dataBytes + encoded;
        indexBytes := indexBytes + (codec.encodeEntry(entry) + "\n");
        mask := mask + [true];
      }
      assert messages[..|messages|] == messages;
    }

    method ReadEntries() returns (entries: Option<seq<IndexEntry>>)
      requires Valid()
      ensures entries == Some(Kept(codec, log, indexed))
    {
      ghost var kept := Kept(codec, log, indexed);
      IndexSplitsIntoEntries(codec, kept);
      var lines := Split(index);
      var all: seq<IndexEntry> := [];
      for i := 0 to |lines|
        invariant all == if i <= |kept| then kept[..i] else kept
      {
        LineOfEntry(codec, kept, lines, i);
        if Blank(lines[i]) {
          continue;
        }
        var entry := codec.decodeEntry(lines[i]);
        if entry.None? {
          return None;
        }
        all := all + [entry.value];
      }
      assert kept[..|kept|] == kept;
      return Some(all);
    }

    /** The index is trusted exactly when it is complete, and then it gives what a full scan would. */
    method ReadLatestFromIndex(beforeLsn: Option<nat>, limit: nat) returns (result: Option<seq<Message>>)
      requires Valid()
      ensures result == if AllTrue(indexed) then Some(LatestOf(log, beforeLsn, limit)) else None
      ensures result.Some? ==> ShowsNewest(log, beforeLsn, limit, result.value)
    {
      var entries := ReadEntries();
      if entries.None? {
        return None;
      }
      var covers := IndexCoversDataFile(entries.value, |data|);
      CoversIffComplete(codec, log, indexed);
      if !covers {
        return None;
      }
      AllKept(codec, log, indexed);
      LatestShowsNewest(log, beforeLsn, limit);
      var wanted := Filter(EntryBelow(beforeLsn), entries.value);
      ChosenPointAtLines(codec, log, beforeLsn, limit, Take(Sort(IndexNewestFirst, wanted), limit));
      if wanted == [] {
        assert LatestOf(log, beforeLsn, limit) == [];
        return Some([]);
      }
      var chosen := Take(Sort(IndexNewestFirst, wanted), limit);
      result := ReadLines(chosen, LatestOf(log, beforeLsn, limit));
    }

    /** Seek to each entry in turn and decode what is there. */
    method ReadLines(entries: seq<IndexEntry>, ghost expected: seq<Message>) returns (result: Option<seq<Message>>)
      requires Faithful(codec) && |expected| == |entries|
      requires forall i :: 0 <= i < |entries| ==> PointsAt(codec, data, entries[i], expected[i])
      ensures result == Some(expected)
    {
      var messages: seq<Message> := [];
      for i := 0 to |entries|
        invariant messages == expected[..i]
      {
        var entry := entries[i];
        assert PointsAt(codec, data, entry, expected[i]);
        if entry.offset + entry.len > |data| {
          return None;
        }
        var line := TrimNewline(data[entry.offset..entry.offset + entry.len]);
        assert line == codec.encode(expected[i]);
        var message := codec.decode(line);
        if message.None? {
          return None;
        }
        messages := messages + [message.value];
      }
      assert expected[..|entries|] == expected;
      return Some(messages);
    }

    method RewriteIndex(entries: seq<IndexEntry>)
      requires Valid() && entries == EntriesOf(codec, log)
      modifies this`index, this`nextOffset, this`indexed
      ensures Valid() && AllTrue(indexed)
    {
      var encoded := "";
      for i := 0 to |entries|
        invariant encoded == IndexText(codec, entries[..i])
      {
        assert entries[..i + 1] == entries[..i] + [entries[i]];
        IndexTextOfAppend(codec, entries[..i], entries[i]);
        encoded := encoded + (codec.encodeEntry(entries[i]) + "\n");
      }
      assert entries[..|entries|] == entries;
      index := encoded;
      nextOffset := |data|;
      indexed := Repeat(true, |log|);
      AllKept(codec, log, indexed);
    }

    /** Reads are always right, and a read that finds the index behind repairs it. */
    method ReadLatest(beforeLsn: Option<nat>, limit: nat) returns (messages: seq<Message>)
      requires Valid()
      modifies this`index, this`nextOffset, this`indexed
      ensures Valid() && messages == LatestOf(log, beforeLsn, limit)
      ensures ShowsNewest(log, beforeLsn, limit, messages)
      ensures if limit == 0 then indexed == old(indexed) else AllTrue(indexed)
    {
      LatestShowsNewest(log, beforeLsn, limit);
      if limit == 0 {
        return [];
      }
      var fromIndex := ReadLatestFromIndex(beforeLsn, limit);
      if fromIndex.Some? {
        return fromIndex.value;
      }
      DecodeOfLog(codec, log);
      var decoded := DecodeBucketData(codec, data, beforeLsn);
      RewriteIndex(decoded.value.1);
      messages := Take(Sort(NewestFirst, decoded.value.0), limit);
    }
  }
}
