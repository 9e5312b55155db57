/** Client frames read line by line from a request body that arrives in chunks of any size. */
module BodyLines {
  import opened Lines
  import opened Options
  import opened Sorting

  datatype FrameRead = Frame(text: string) | Invalid(text: string) | Ignored | Closed | Failed

  /** Does the line parse as a client frame? */
  type Parser = string -> bool

  /** `decode_client_frame_line`: one carriage return at the end is not part of the frame. */
  function DecodeLine(parses: Parser, line: string): FrameRead {
    var text := if line != [] && line[|line| - 1] == '\r' then line[..|line| - 1] else line;
    if text == [] then Ignored else if parses(text) then Frame(text) else Invalid(text)
  }

  /** What arrives on the wire: a byte, or a receive error. */
  type Tape = seq<Option<char>>

  function Bytes(text: string): (tape: Tape)
    ensures |tape| == |text| && forall i :: 0 <= i < |text| ==> tape[i] == Some(text[i])
  {
    Map(c => Some(c), text)
  }

  /** The chunks still to come, byte by byte; a chunk of `None` is an error. */
  function Flat(stream: seq<Option<string>>): Tape {
    if stream == [] then []
    else (if stream[0].Some? then Bytes(stream[0].value) else [None]) + Flat(stream[1..])
  }

  /** Where a read stops: at a newline, at an error, or at the end. */
  function StopAt(tape: Tape): (n: nat)
    ensures n <= |tape|
    ensures forall i :: 0 <= i < n ==> tape[i].Some? && tape[i] != Some('\n')
    ensures n < |tape| ==> tape[n] == None || tape[n] == Some('\n')
  {
    if tape == [] || tape[0] == None || tape[0] == Some('\n') then 0 else 1 + StopAt(tape[1..])
  }

  function TextOf(tape: Tape): string
    requires forall i :: 0 <= i < |tape| ==> tape[i].Some?
  {
    seq(|tape|, i requires 0 <= i < |tape| => tape[i].value)
  }

  /** One read, told from the bytes alone: what is returned, and what is left. */
  function Read(parses: Parser, tape: Tape): (FrameRead, Tape) {
    var n := StopAt(tape);
    if n == |tape| then (if tape == [] then (Closed, []) else (DecodeLine(parses, TextOf(tape)), []))
    else if tape[n] == None then (Failed, tape[..n] + tape[n + 1..])
    else (DecodeLine(parses, TextOf(tape[..n])), tape[n + 1..])
  }

  /** All reads up to and including the one that closes. */
  function ReadAll(parses: Parser, tape: Tape): seq<FrameRead>
    decreases |tape|
  {
    var (read, rest) := Read(parses, tape);
    if tape == [] then [read] else [read] + ReadAll(parses, rest)
  }

  lemma StopIsUnique(tape: Tape, n: nat)
    requires n <= |tape| && forall i :: 0 <= i < n ==> tape[i].Some? && tape[i] != Some('\n')
    requires n < |tape| ==> tape[n] == None || tape[n] == Some('\n')
    ensures StopAt(tape) == n
  {
  }

  /** The body's lines: the pieces between newlines, the last one only if something is in it. */
  function BodyLinesOf(text: string): seq<string> {
    var pieces := Split(text);
    if pieces[|pieces| - 1] == [] then pieces[..|pieces| - 1] else pieces
  }

  lemma ReadLastLine(parses: Parser, text: string)
    requires Unbroken(text) && text != []
    ensures Read(parses, Bytes(text)) == (DecodeLine(parses, text), [])
    ensures BodyLinesOf(text) == [text]
  {
    StopIsUnique(Bytes(text), |text|);
    assert TextOf(Bytes(text)) == text;
    SplitUnbroken(text);
  }

  lemma ReadFirstLine(parses: Parser, line: string, rest: string)
    requires Unbroken(line)
    ensures Read(parses, Bytes(line + "\n" + rest)) == (DecodeLine(parses, line), Bytes(rest))
  {
    var text := line + "\n" + rest;
    assert text[..|line|] == line && text[|line| + 1..] == rest;
    LineFromBuffer(parses, text, [], |line|);
    assert Bytes(text) + [] == Bytes(text) && Bytes(rest) + [] == Bytes(rest);
  }

  lemma FirstBodyLine(line: string, rest: string)
    requires Unbroken(line)
    ensures BodyLinesOf(line + "\n" + rest) == [line] + BodyLinesOf(rest)
  {
    SplitFirstLine(line, rest);
    var pieces := Split(rest);
    assert ([line] + pieces)[..|pieces|] == [line] + pieces[..|pieces| - 1];
  }

  function Decoded(parses: Parser, lines: seq<string>): seq<FrameRead> {
    Map(line => DecodeLine(parses, line), lines)
  }

  lemma DecodedFirst(parses: Parser, line: string, lines: seq<string>)
    ensures Decoded(parses, [line] + lines) == [DecodeLine(parses, line)] + Decoded(parses, lines)
  {
  }

  lemma ReadAllStep(parses: Parser, tape: Tape, read: FrameRead, rest: Tape)
    requires tape != [] && Read(parses, tape) == (read, rest)
    ensures ReadAll(parses, tape) == [read] + ReadAll(parses, rest)
  {
  }

  lemma FirstNewline(text: string) returns (n: nat)
    ensures n <= |text| && Unbroken(text[..n]) && (n < |text| ==> text[n] == '\n')
    ensures n < |text| ==> text == text[..n] + "\n" + text[n + 1..]
  {
    n := 0;
    while n < |text| && text[n] != '\n'
      invariant n <= |text| && Unbroken(text[..n])
    {
      n := n + 1;
    }
  }

  /** The reads of a body are its lines, decoded, and then the end. */
  ghost predicate ReadsLines(parses: Parser, text: string) {
    ReadAll(parses, Bytes(text)) == Decoded(parses, BodyLinesOf(text)) + [Closed]
  }

  lemma EmptyReadsLines(parses: Parser)
    ensures ReadsLines(parses, [])
  {
    assert BodyLinesOf([]) == [];
  }

  lemma LastLineReads(parses: Parser, text: string)
    requires Unbroken(text) && text != []
    ensures ReadsLines(parses, text)
  {
    var read := DecodeLine(parses, text);
    assert ReadAll(parses, Bytes(text)) == [read] + ReadAll(parses, []) by {
      ReadLastLine(parses, text);
      ReadAllStep(parses, Bytes(text), read, []);
    }
    assert Decoded(parses, BodyLinesOf(text)) == [read] by {
      ReadLastLine(parses, text);
      DecodedFirst(parses, text, []);
      assert [text] + [] == [text];
    }
    NothingIsLeft(parses);
  }

  lemma NothingIsLeft(parses: Parser)
    ensures ReadAll(parses, []) == [Closed]
  {
  }

  lemma FirstLineReads(parses: Parser, line: string, rest: string)
    requires Unbroken(line) && ReadsLines(parses, rest)
    ensures ReadsLines(parses, line + "\n" + rest)
  {
    var tape, lines, read := Bytes(line + "\n" + rest), BodyLinesOf(rest), DecodeLine(parses, line);
    assert ReadAll(parses, tape) == [read] + ReadAll(parses, Bytes(rest)) by {
      ReadFirstLine(parses, line, rest);
      ReadAllStep(parses, tape, read, Bytes(rest));
    }
    assert Decoded(parses, BodyLinesOf(line + "\n" + rest)) == [read] + Decoded(parses, lines) by {
      FirstBodyLine(line, rest);
      DecodedFirst(parses, line, lines);
    }
  }

  /**
   A line is read as the text before its newline, less one carriage return: nothing if that is empty, a frame if it
   parses, and an error otherwise; what follows is read as if it stood alone.
   */
  lemma LineIsRead(parses: Parser, text: string, ending: string, rest: string)
    requires Unbroken(text)
    requires ending == "\r" || (ending == "" && (text == [] || text[|text| - 1] != '\r'))
    ensures ReadAll(parses, Bytes(text + ending + "\n" + rest)) ==
            [if text == [] then Ignored else if parses(text) then Frame(text) else Invalid(text)] +
            ReadAll(parses, Bytes(rest))
  {
    var line := text + ending;
    assert ending == "" ==> line == text;
    assert ending == "\r" ==> line[|line| - 1] == '\r' && line[..|line| - 1] == text;
    ReadFirstLine(parses, line, rest);
    ReadAllStep(parses, Bytes(line + "\n" + rest), DecodeLine(parses, line), Bytes(rest));
  }

  /** A receive error is reported, and what arrived before it is read on as if it had not happened. */
  lemma ErrorLosesNothing(parses: Parser, text: string, rest: Tape)
    requires Unbroken(text)
    ensures ReadAll(parses, Bytes(text) + [None] + rest) == [Failed] + ReadAll(parses, Bytes(text) + rest)
  {
    var tape := Bytes(text) + [None] + rest;
    StopIsUnique(tape, |text|);
    assert tape[..|text|] == Bytes(text) && tape[|text| + 1..] == rest;
    ReadAllStep(parses, tape, Failed, Bytes(text) + rest);
  }

  /** Reading a body without errors gives its lines, decoded, and then closes. */
  lemma {:induction false} ReadsAreTheLines(parses: Parser, text: string)
    ensures ReadsLines(parses, text)
    decreases |text|
  {
    var n := FirstNewline(text);
    if text == [] {
      EmptyReadsLines(parses);
    } else if n == |text| {
      assert text[..n] == text;
      LastLineReads(parses, text);
    } else {
      ReadsAreTheLines(parses, text[n + 1..]);
      FirstLineReads(parses, text[..n], text[n + 1..]);
    }
  }

  // ---------------------------------------------------------------- chunks do not matter

  /** A body cut into chunks. */
  function Chunks(parts: seq<string>): seq<Option<string>> {
    Map(part => Some(part), parts)
  }

  lemma {:induction false} FlatOfChunks(parts: seq<string>)
    ensures Flat(Chunks(parts)) == Bytes(Concat(parts))
  {
    if parts == [] {
    } else {
      var chunks := Chunks(parts);
      assert chunks[1..] == Chunks(parts[1..]);
      FlatOfChunks(parts[1..]);
      ConcatFirst(parts);
    }
  }

  lemma {:induction false} ConcatFirst(parts: seq<string>)
    requires parts != []
    ensures Concat(parts) == parts[0] + Concat(parts[1..])
  {
    if |parts| > 1 {
      var init := parts[..|parts| - 1];
      ConcatFirst(init);
      assert init[1..] == parts[1..][..|parts| - 2];
      assert parts[0] + (Concat(init[1..]) + parts[|parts| - 1]) == (parts[0] + Concat(init[1..])) + parts[|parts| - 1];
    }
  }

  /** However the same bytes are cut into chunks, the reads are the same. */
  lemma ChunkingDoesNotMatter(parses: Parser, parts: seq<string>, otherParts: seq<string>)
    requires Concat(parts) == Concat(otherParts)
    ensures ReadAll(parses, Flat(Chunks(parts))) == ReadAll(parses, Flat(Chunks(otherParts))) ==
            Decoded(parses, BodyLinesOf(Concat(parts))) + [Closed]
  {
    FlatOfChunks(parts);
    FlatOfChunks(otherParts);
    ReadsAreTheLines(parses, Concat(parts));
  }

  // ---------------------------------------------------------------- the source

  class BodyJsonLineFrameSource {
    const parses: Parser
    var stream: seq<Option<string>>
    var buffer: string
    var closed: bool

    ghost predicate Valid()
      reads this
    {
      closed ==> stream == []
    }

    /** What has not been returned yet. */
    ghost function Unread(): Tape
      reads this
    {
      Bytes(buffer) + Flat(stream)
    }

    constructor (parses: Parser, stream: seq<Option<string>>)
      ensures Valid() && Unread() == Flat(stream) && this.parses == parses
    {
      this.parses := parses;
      this.stream, buffer, closed := stream, [], false;
    }

    method NextBufferedFrame() returns (frame: Option<FrameRead>)
      modifies this`buffer
      ensures frame.None? ==> buffer == old(buffer) && Unbroken(buffer)
      ensures frame.Some? ==> Unread() == Read(parses, old(Unread())).1 && frame.value == Read(parses, old(Unread())).0
    {
      var newline := 0;
      while newline < |buffer| && buffer[newline] != '\n'
        invariant newline <= |buffer| && Unbroken(buffer[..newline])
      {
        newline := newline + 1;
      }
      if newline == |buffer| {
        assert buffer[..newline] == buffer;
        return None;
      }
      var line := buffer[..newline];
      LineFromBuffer(parses, buffer, Flat(stream), newline);
      buffer := buffer[newline + 1..];
      return Some(DecodeLine(parses, line));
    }

    /** Polls for chunks until a line is complete, the body ends, or receiving fails. */
    method NextClientFrame() returns (frame: FrameRead)
      requires Valid()
      modifies this
      ensures Valid() && frame == Read(parses, old(Unread())).0 && Unread() == Read(parses, old(Unread())).1
    {
      while true
        invariant Valid() && Unread() == old(Unread())
        decreases |stream|, !closed
      {
        var buffered := NextBufferedFrame();
        if buffered.Some? {
          return buffered.value;
        }
        NoLineInBuffer(buffer, Flat(stream));
        if closed {
          if buffer == [] {
            return Closed;
          }
          var line := buffer;
          LastBytes(buffer);
          buffer := [];
          return DecodeLine(parses, line);
        }
        if stream == [] {
          closed := true;
        } else if stream[0].Some? {
          ChunkMoves(buffer, stream);
          buffer := buffer + stream[0].value;
          stream := stream[1..];
        } else {
          ErrorInStream(parses, buffer, Flat(stream[1..]));
          stream := stream[1..];
          return Failed;
        }
      }
    }
  }

  /** A chunk moves from the stream to the buffer: what is unread stays the same. */
  lemma ChunkMoves(buffer: string, stream: seq<Option<string>>)
    requires stream != [] && stream[0].Some?
    ensures Bytes(buffer + stream[0].value) + Flat(stream[1..]) == Bytes(buffer) + Flat(stream)
  {
    var chunk, rest := Bytes(stream[0].value), Flat(stream[1..]);
    assert Flat(stream) == chunk + rest;
    assert Bytes(buffer + stream[0].value) == Bytes(buffer) + chunk;
    assert (Bytes(buffer) + chunk) + rest == Bytes(buffer) + (chunk + rest);
  }

  lemma LastBytes(buffer: string)
    ensures TextOf(Bytes(buffer)) == buffer && Bytes(buffer) + Flat([]) == Bytes(buffer)
  {
  }

  lemma LineFromBuffer(parses: Parser, buffer: string, more: Tape, n: nat)
    requires n < |buffer| && buffer[n] == '\n' && Unbroken(buffer[..n])
    ensures Read(parses, Bytes(buffer) + more) == (DecodeLine(parses, buffer[..n]), Bytes(buffer[n + 1..]) + more)
  {
    var tape := Bytes(buffer) + more;
    forall i | 0 <= i < n
      ensures tape[i] != Some('\n')
    {
      assert buffer[..n][i] != '\n';
    }
    StopIsUnique(tape, n);
    assert TextOf(tape[..n]) == buffer[..n];
    assert tape[n + 1..] == Bytes(buffer[n + 1..]) + more;
  }

  lemma NoLineInBuffer(buffer: string, more: Tape)
    requires Unbroken(buffer)
    ensures more == [] ==> StopAt(Bytes(buffer) + more) == |buffer|
  {
    if more == [] {
      StopIsUnique(Bytes(buffer) + more, |buffer|);
    }
  }

  lemma ErrorInStream(parses: Parser, buffer: string, more: Tape)
    requires Unbroken(buffer)
    ensures Read(parses, Bytes(buffer) + ([None] + more)) == (Failed, Bytes(buffer) + more)
  {
    var tape := Bytes(buffer) + ([None] + more);
    StopIsUnique(tape, |buffer|);
    assert tape[..|buffer|] == Bytes(buffer) && tape[|buffer| + 1..] == more;
  }
}
