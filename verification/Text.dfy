/** White space as `trim` sees it, and numbers in decimal. */
module Text {

  /** Unicode White_Space, which `trim` strips. */
  predicate White(c: char) {
    '\U{0009}' <= c <= '\U{000D}' || c == ' ' || c == '\U{0085}' || c == '\U{00A0}' || c == '\U{1680}' ||
    '\U{2000}' <= c <= '\U{200A}' || c == '\U{2028}' || c == '\U{2029}' || c == '\U{202F}' || c == '\U{205F}' ||
    c == '\U{3000}'
  }

  lemma WhiteCodePoints(c: char)
    ensures White(c) <==>
            var n := c as int;
            9 <= n <= 13 || 8192 <= n <= 8202 || n in {32, 133, 160, 5760, 8232, 8233, 8239, 8287, 12288}
  {
  }

  function TrimStart(s: string): string {
    if s != [] && White(s[0]) then TrimStart(s[1..]) else s
  }

  function TrimEnd(s: string): string {
    if s != [] && White(s[|s| - 1]) then TrimEnd(s[..|s| - 1]) else s
  }

  function Trim(s: string): string {
    TrimEnd(TrimStart(s))
  }

  predicate AllWhite(s: string) {
    forall c :: c in s ==> White(c)
  }

  lemma {:induction false} TrimStartStrips(s: string) returns (lead: string)
    ensures s == lead + TrimStart(s) && AllWhite(lead)
    ensures TrimStart(s) != [] ==> !White(TrimStart(s)[0])
  {
    if s != [] && White(s[0]) {
      var more := TrimStartStrips(s[1..]);
      lead := [s[0]] + more;
      assert s == [s[0]] + s[1..];
    } else {
      lead := [];
    }
  }

  lemma {:induction false} TrimEndStrips(s: string) returns (trail: string)
    ensures s == TrimEnd(s) + trail && AllWhite(trail)
    ensures TrimEnd(s) != [] ==> !White(TrimEnd(s)[|TrimEnd(s)| - 1])
  {
    if s != [] && White(s[|s| - 1]) {
      var more := TrimEndStrips(s[..|s| - 1]);
      trail := more + [s[|s| - 1]];
      assert s == s[..|s| - 1] + [s[|s| - 1]];
    } else {
      trail := [];
    }
  }

  /** Trimming removes white space from both ends and nothing else. */
  lemma TrimStrips(s: string) returns (lead: string, trail: string)
    ensures s == lead + Trim(s) + trail && AllWhite(lead) && AllWhite(trail)
    ensures Trim(s) != [] ==> !White(Trim(s)[0]) && !White(Trim(s)[|Trim(s)| - 1])
  {
    lead := TrimStartStrips(s);
    trail := TrimEndStrips(TrimStart(s));
    assert TrimStart(s) == Trim(s) + trail;
  }

  /** Nothing is left exactly of white space. */
  lemma TrimmedAwayIffWhite(s: string)
    ensures Trim(s) == [] <==> AllWhite(s)
  {
    var lead, trail := TrimStrips(s);
    assert Trim(s) != [] ==> Trim(s)[0] in s && !White(Trim(s)[0]);
  }

  lemma TrimmedStays(s: string)
    requires s != [] && !White(s[0]) && !White(s[|s| - 1])
    ensures Trim(s) == s
  {
  }

  function Digit(d: nat): char
    requires d < 10
  {
    ('0' as int + d) as char
  }

  function Decimal(n: nat): string {
    if n < 10 then [Digit(n)] else Decimal(n / 10) + [Digit(n % 10)]
  }
}
