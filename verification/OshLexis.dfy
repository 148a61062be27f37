/** The character level of osh: what counts as blank, a comment, a keyword, a name.
    A position in the source is the text that remains to be read. */
module OshLexis {
  import opened Decimal

  predicate IsAlpha(c: char) { 'a' <= c <= 'z' || 'A' <= c <= 'Z' || c == '_' }
  predicate IsAlnum(c: char) { IsAlpha(c) || IsDigit(c) }

  /** `*src` and `src[1]`: the text is NUL-terminated. */
  function Peek(s: string): char { if s == "" then '\0' else s[0] }
  function Peek2(s: string): char { if |s| < 2 then '\0' else s[1] }

  const BLANK: set<char> := {' ', '\t', '\r'}
  const BLANK_NL: set<char> := {' ', '\t', '\r', '\n'}
  const GAP: set<char> := {' ', '\t', '\r', '\n', ';'}

  /** Drop the rest of the line; the newline itself stays. */
  function DropLine(s: string): (r: string)
    ensures |r| <= |s|
    ensures Peek(r) == '\0' || Peek(r) == '\n'
  {
    if Peek(s) == '\0' || Peek(s) == '\n' then s else DropLine(s[1..])
  }

  /** Drop leading characters of `ws` and comments. */
  function Skip(s: string, ws: set<char>): (r: string)
    ensures |r| <= |s|
    ensures Peek(r) != '#' && (r != "" ==> r[0] !in ws)
    decreases |s|
  {
    if s == "" then s
    else if s[0] in ws then Skip(s[1..], ws)
    else if s[0] == '#' then Skip(DropLine(s[1..]), ws)
    else s
  }

  /** Layout text: characters of `ws` and whole comment lines. */
  predicate Layout(b: string, ws: set<char>)
    decreases |b|
  {
    if b == "" then true
    else if b[0] in ws then Layout(b[1..], ws)
    else b[0] == '#' && DropLine(b[1..]) != "" && Layout(DropLine(b[1..]), ws)
  }

  /** Layout that ends the text: the last comment needs no newline. */
  predicate LastLayout(b: string, ws: set<char>)
    decreases |b|
  {
    if b == "" then true
    else if b[0] in ws then LastLayout(b[1..], ws)
    else b[0] == '#' && LastLayout(DropLine(b[1..]), ws)
  }

  predicate Blank(b: string) { forall i | 0 <= i < |b| :: b[i] in BLANK }

  const KEYWORDS: set<string> := {"print", "if", "while", "else"}

  predicate IsIdent(x: string) {
    0 < |x| <= 15 && IsAlpha(x[0]) && forall i | 0 <= i < |x| :: IsAlnum(x[i])
  }
  predicate IsName(x: string) { IsIdent(x) && x !in KEYWORDS }

  /** A keyword match: the literal, not followed by a letter or digit. */
  predicate KwAt(kw: string, s: string) {
    kw <= s && !IsAlnum(Peek(s[|kw|..]))
  }

  // ----- skipping -----

  lemma {:induction false} DropLineConcat(b: string, t: string)
    requires DropLine(b) != ""
    ensures DropLine(b + t) == DropLine(b) + t
  {
    if Peek(b) == '\0' || Peek(b) == '\n' {
      assert (b + t)[0] == b[0];
    } else {
      DropLineConcat(b[1..], t);
      assert (b + t)[1..] == b[1..] + t;
    }
  }

  /** Skipping passes exactly over layout. */
  lemma {:induction false} SkipLayout(b: string, t: string, ws: set<char>)
    requires Layout(b, ws)
    ensures Skip(b + t, ws) == Skip(t, ws)
    decreases |b|
  {
    if b == "" {
      assert b + t == t;
    } else if b[0] in ws {
      SkipLayout(b[1..], t, ws);
      assert (b + t)[1..] == b[1..] + t;
    } else {
      DropLineConcat(b[1..], t);
      SkipLayout(DropLine(b[1..]), t, ws);
      assert (b + t)[1..] == b[1..] + t;
    }
  }

  lemma {:induction false} SkipLastLayout(b: string, ws: set<char>)
    requires LastLayout(b, ws)
    ensures Skip(b, ws) == ""
    decreases |b|
  {
    if b != "" {
      SkipLastLayout(if b[0] in ws then b[1..] else DropLine(b[1..]), ws);
    }
  }

  /** A wider skip makes a narrower one before it pointless. */
  lemma {:induction false} SkipSkip(s: string, ws: set<char>, wider: set<char>)
    requires ws <= wider && '#' !in wider
    ensures Skip(Skip(s, ws), wider) == Skip(s, wider)
    decreases |s|
  {
    if s != "" && s[0] in ws {
      SkipSkip(s[1..], ws, wider);
    } else if s != "" && s[0] == '#' {
      SkipSkip(DropLine(s[1..]), ws, wider);
    }
  }

  lemma SkipTwice(s: string)
    ensures Skip(Skip(s, BLANK), BLANK) == Skip(s, BLANK)
  {
    SkipSkip(s, BLANK, BLANK);
  }

  lemma {:induction false} SkipStays(s: string, ws: set<char>)
    requires s == "" || (s[0] !in ws && s[0] != '#')
    ensures Skip(s, ws) == s
  {
  }

  lemma {:induction false} SkipBlank(b: string, t: string)
    requires Blank(b)
    ensures Skip(b + t, BLANK) == Skip(t, BLANK)
  {
    if b == "" {
      assert b + t == t;
    } else {
      SkipBlank(b[1..], t);
      assert (b + t)[1..] == b[1..] + t;
    }
  }

  lemma PrefixCases(kw: string, x: string, t: string)
    requires kw <= x + t
    ensures |x| == |kw| ==> x == kw
    ensures |x| < |kw| ==> t != "" && t[0] == kw[|x|]
    ensures |x| > |kw| ==> Peek((x + t)[|kw|..]) == x[|kw|]
  {
    var s := x + t;
    assert kw == s[..|kw|];
    if |x| == |kw| {
      assert s[..|kw|] == x;
    } else if |x| < |kw| {
      assert kw[|x|] == s[|x|];
    }
  }

  /** A name followed by something else than a letter or digit is not a keyword match. */
  lemma NameIsNoKeyword(x: string, t: string, kw: string)
    requires IsName(x) && kw in KEYWORDS && !IsAlnum(Peek(t))
    ensures !KwAt(kw, x + t)
  {
    assert forall i | 0 <= i < |kw| :: IsAlnum(kw[i]);
    if KwAt(kw, x + t) {
      PrefixCases(kw, x, t);
      assert false;
    }
  }

  /** Reading letters and digits up to the cap finds the name that is there. */
  lemma IdentUnique(x: string, s: string, name: string, rest: string)
    requires x + s == name + rest && IsIdent(x) && IsIdent(name)
    requires |x| == 15 || !IsAlnum(Peek(s))
    requires !IsAlnum(Peek(rest))
    ensures x == name && s == rest
  {
    assert (x + s)[..|x|] == x && (x + s)[|x|..] == s && (name + rest)[|name|..] == rest;
    PrefixCases(x, name, rest);
    if |x| != |name| {
      assert false;
    }
  }
}
