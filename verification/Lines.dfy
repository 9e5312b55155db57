/** Cutting text at newlines, with and without keeping them. */
module Lines {
  import opened Sorting

  ghost predicate Unbroken(text: string) {
    forall i :: 0 <= i < |text| ==> text[i] != '\n'
  }

  predicate EndsLine(s: string) {
    s != [] && s[|s| - 1] == '\n'
  }

  /** `split_inclusive`: each piece keeps its newline. */
  function SplitInclusive(s: string): seq<string> {
    if s == [] then []
    else
      var pieces, c := SplitInclusive(s[..|s| - 1]), s[|s| - 1];
      if pieces == [] || EndsLine(pieces[|pieces| - 1]) then pieces + [[c]]
      else pieces[..|pieces| - 1] + [pieces[|pieces| - 1] + [c]]
  }

  /** `split`: the newlines themselves go, and what follows the last one is a piece too. */
  function Split(s: string): (pieces: seq<string>)
    ensures pieces != []
  {
    if s == [] then [[]]
    else
      var pieces, c := Split(s[..|s| - 1]), s[|s| - 1];
      if c == '\n' then pieces + [[]] else ExtendLast(pieces, [c])
  }

  function ExtendLast(pieces: seq<string>, text: string): (r: seq<string>)
    requires pieces != []
    ensures r != []
  {
    pieces[..|pieces| - 1] + [pieces[|pieces| - 1] + text]
  }

  function TrimNewline(line: string): string {
    if EndsLine(line) then line[..|line| - 1] else line
  }

  function Concat(lines: seq<string>): string {
    if lines == [] then [] else Concat(lines[..|lines| - 1]) + lines[|lines| - 1]
  }

  lemma {:induction false} SplitInclusiveOfText(s: string, text: string)
    requires (s == [] || EndsLine(s)) && text != [] && Unbroken(text)
    ensures SplitInclusive(s + text) == SplitInclusive(s) + [text]
  {
    var init, c := text[..|text| - 1], text[|text| - 1];
    assert text == init + [c] && (s + text)[..|s + text| - 1] == s + init;
    if init == [] {
      LastPieceEndsLine(s);
      assert s + init == s;
    } else {
      SplitInclusiveOfText(s, init);
    }
  }

  lemma {:induction false} LastPieceEndsLine(s: string)
    ensures SplitInclusive(s) == [] <==> s == []
    ensures s != [] ==> var pieces := SplitInclusive(s);
                        EndsLine(pieces[|pieces| - 1]) <==> EndsLine(s)
  {
  }

  lemma OneMoreChar(s: string, c: char)
    ensures var pieces := SplitInclusive(s);
            SplitInclusive(s + [c]) ==
            if pieces == [] || EndsLine(pieces[|pieces| - 1]) then pieces + [[c]]
            else pieces[..|pieces| - 1] + [pieces[|pieces| - 1] + [c]]
  {
    assert (s + [c])[..|s + [c]| - 1] == s;
  }

  lemma SplitInclusiveOfLine(s: string, text: string)
    requires (s == [] || EndsLine(s)) && text != [] && Unbroken(text)
    ensures SplitInclusive(s + (text + "\n")) == SplitInclusive(s) + [text + "\n"]
  {
    SplitInclusiveOfText(s, text);
    assert s + (text + "\n") == (s + text) + ['\n'];
    OneMoreChar(s + text, '\n');
  }

  lemma SplitOneMore(s: string, c: char)
    ensures Split(s + [c]) == if c == '\n' then Split(s) + [[]] else ExtendLast(Split(s), [c])
  {
    assert (s + [c])[..|s + [c]| - 1] == s;
  }

  lemma ExtendTwice(pieces: seq<string>, a: string, b: string)
    requires pieces != []
    ensures ExtendLast(ExtendLast(pieces, a), b) == ExtendLast(pieces, a + b)
    ensures ExtendLast(pieces, []) == pieces
  {
    var last := pieces[|pieces| - 1];
    assert (last + a) + b == last + (a + b) && last + [] == last;
  }

  lemma {:induction false} SplitOfText(s: string, text: string)
    requires Unbroken(text)
    ensures Split(s + text) == ExtendLast(Split(s), text)
  {
    if text == [] {
      assert s + text == s;
      ExtendTwice(Split(s), [], []);
    } else {
      var init, c := text[..|text| - 1], text[|text| - 1];
      SplitOfText(s, init);
      assert text == init + [c];
      SplitOfTextStep(s, init, c);
    }
  }

  lemma SplitOfTextStep(s: string, init: string, c: char)
    requires Split(s + init) == ExtendLast(Split(s), init) && c != '\n'
    ensures Split(s + (init + [c])) == ExtendLast(Split(s), init + [c])
  {
    SplitOneMore(s + init, c);
    assert (s + init) + [c] == s + (init + [c]);
    ExtendTwice(Split(s), init, [c]);
  }

  lemma SplitOfLine(s: string, texts: seq<string>, text: string)
    requires Split(s) == texts + [[]] && Unbroken(text)
    ensures Split(s + (text + "\n")) == texts + [text] + [[]]
  {
    SplitOfText(s, text);
    assert [] + text == text;
    SplitOneMore(s + text, '\n');
    assert s + (text + "\n") == (s + text) + ['\n'];
  }

  /** Lines written one after the other are found again, with an empty piece at the end. */
  lemma {:induction false} SplitOfLines(texts: seq<string>)
    requires forall i :: 0 <= i < |texts| ==> Unbroken(texts[i])
    ensures Split(Concat(Map(text => text + "\n", texts))) == texts + [[]]
  {
    if texts != [] {
      var n := |texts| - 1;
      var line := (text: string) => text + "\n";
      assert Map(line, texts)[..n] == Map(line, texts[..n]);
      SplitOfLines(texts[..n]);
      SplitOfLine(Concat(Map(line, texts[..n])), texts[..n], texts[n]);
      assert texts[..n] + [texts[n]] == texts;
    }
  }

  lemma {:induction false} SplitUnbroken(text: string)
    requires Unbroken(text)
    ensures Split(text) == [text]
  {
    if text != [] {
      var init, c := text[..|text| - 1], text[|text| - 1];
      SplitUnbroken(init);
      SplitOneMore(init, c);
      assert text == init + [c] && ExtendLast([init], [c]) == [init + [c]];
    }
  }

  /** The first line comes off the front. */
  lemma {:induction false} SplitFirstLine(line: string, rest: string)
    requires Unbroken(line)
    ensures Split(line + "\n" + rest) == [line] + Split(rest)
  {
    if rest == [] {
      SplitUnbroken(line);
      SplitOneMore(line, '\n');
      assert line + "\n" + rest == line + ['\n'];
    } else {
      var init, c := rest[..|rest| - 1], rest[|rest| - 1];
      assert rest == init + [c];
      SplitFirstLine(line, init);
      SplitLongerRest(line, init, c);
      assert (line + "\n" + init) + [c] == line + "\n" + rest;
    }
  }

  lemma SplitLongerRest(line: string, rest: string, c: char)
    requires Split(line + "\n" + rest) == [line] + Split(rest)
    ensures Split((line + "\n" + rest) + [c]) == [line] + Split(rest + [c])
  {
    SplitOneMore(line + "\n" + rest, c);
    SplitOneMore(rest, c);
    ExtendBehind(line, Split(rest), [c]);
    assert ([line] + Split(rest)) + [[]] == [line] + (Split(rest) + [[]]);
  }

  lemma ExtendBehind(first: string, pieces: seq<string>, text: string)
    requires pieces != []
    ensures ExtendLast([first] + pieces, text) == [first] + ExtendLast(pieces, text)
  {
    assert ([first] + pieces)[..|pieces|] == [first] + pieces[..|pieces| - 1];
  }
}
