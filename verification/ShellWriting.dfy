/** Command lines as people write them: every argument in pieces, each piece bare, after backslashes, or in either
    kind of quotes, with blanks between the arguments. Splitting such a line gives the arguments back. */
module ShellWriting {
  import opened ShellArgs
  import opened Strings

  /** `Double` escapes what needs it; `Verbatim` is double quotes around text that needs no escapes. */
  datatype Way = Bare | Slashed | Single | Double | Verbatim

  datatype Piece = Piece(way: Way, text: string)

  predicate Plain(c: char) { c !in {' ', '\t', '\'', '"', '\\'} }

  /** In double quotes a backslash before anything but a quote or a backslash is just a backslash. */
  predicate NeedsNoEscape(s: string) {
    s == "" ||
    (s[0] != '"' && (s[0] == '\\' ==> |s| > 1 && s[1] !in {'"', '\\'}) && NeedsNoEscape(s[1..]))
  }

  /** What can be written this way: bare text has nothing special in it, and single quotes no single quote. */
  predicate Writable(p: Piece) {
    match p.way
    case Bare => forall i | 0 <= i < |p.text| :: Plain(p.text[i])
    case Single => '\'' !in p.text
    case Verbatim => NeedsNoEscape(p.text)
    case _ => true
  }

  /** A backslash before every character. */
  function Slashes(s: string): string { if s == "" then "" else ['\\', s[0]] + Slashes(s[1..]) }

  function Written(p: Piece): string {
    match p.way
    case Bare => p.text
    case Slashed => Slashes(p.text)
    case Single => "'" + (p.text + "'")
    case Double => Quoted(p.text)
    case Verbatim => "\"" + (p.text + "\"")
  }

  function AllWritten(pieces: seq<Piece>): string {
    if pieces == [] then "" else Written(pieces[0]) + AllWritten(pieces[1..])
  }

  /** The argument the pieces stand for. */
  function Whole(pieces: seq<Piece>): string {
    if pieces == [] then "" else pieces[0].text + Whole(pieces[1..])
  }

  datatype Line = End(gap: string) | Word(gap: string, pieces: seq<Piece>, more: Line)

  predicate Blanks(gap: string) { forall i | 0 <= i < |gap| :: gap[i] == ' ' || gap[i] == '\t' }

  /** Something is written for every argument, and arguments are kept apart. */
  predicate Ok(l: Line) {
    match l
    case End(gap) => Blanks(gap)
    case Word(gap, pieces, more) =>
      && Blanks(gap) && AllWritten(pieces) != "" && (forall i | 0 <= i < |pieces| :: Writable(pieces[i]))
      && Ok(more) && (more.Word? ==> more.gap != "")
  }

  function Text(l: Line): string {
    match l
    case End(gap) => gap
    case Word(gap, pieces, more) => gap + (AllWritten(pieces) + Text(more))
  }

  function Args(l: Line): seq<string> {
    match l
    case End(_) => []
    case Word(_, pieces, more) => [Whole(pieces)] + Args(more)
  }

  // ----- one piece -----

  /** Reading `text` outside quotes yields `s` and goes on with `rest`. */
  ghost predicate Yields(text: string, s: string, rest: string) {
    Token(text + rest, false, false) == (s + Token(rest, false, false).0, Token(rest, false, false).1)
  }

  lemma BareStep(c: char, rest: string)
    requires Plain(c)
    ensures Yields([c], [c], rest)
  {
    assert ([c] + rest)[1..] == rest;
  }

  lemma SlashStep(c: char, rest: string)
    ensures Yields(['\\', c], [c], rest)
  {
    assert (['\\', c] + rest)[2..] == rest;
  }

  lemma Chained(a: string, s: string, b: string, t: string, rest: string)
    requires Yields(a, s, b + rest) && Yields(b, t, rest)
    ensures Yields(a + b, s + t, rest)
  {
    Regroup(a, b, rest);
    Regroup(s, t, Token(rest, false, false).0);
  }

  lemma {:induction false} BareYields(s: string, rest: string)
    requires forall i | 0 <= i < |s| :: Plain(s[i])
    ensures Yields(s, s, rest)
  {
    hide Token;
    if s == "" {
      assert "" + rest == rest && "" + Token(rest, false, false).0 == Token(rest, false, false).0;
    } else {
      BareYields(s[1..], rest);
      BareStep(s[0], s[1..] + rest);
      Chained([s[0]], [s[0]], s[1..], s[1..], rest);
      assert s == [s[0]] + s[1..];
    }
  }

  lemma {:induction false} SlashesYield(s: string, rest: string)
    ensures Yields(Slashes(s), s, rest)
  {
    hide Token;
    if s == "" {
      assert "" + rest == rest && "" + Token(rest, false, false).0 == Token(rest, false, false).0;
    } else {
      SlashesYield(s[1..], rest);
      SlashStep(s[0], Slashes(s[1..]) + rest);
      Chained(['\\', s[0]], [s[0]], Slashes(s[1..]), s[1..], rest);
      assert s == [s[0]] + s[1..];
    }
  }

  lemma InSingleStep(c: char, rest: string)
    requires c != '\''
    ensures Token([c] + rest, true, false) == ([c] + Token(rest, true, false).0, Token(rest, true, false).1)
  {
    assert ([c] + rest)[1..] == rest;
  }

  lemma SingleOpens(rest: string)
    ensures Token("'" + rest, false, false) == Token(rest, true, false)
    ensures Token("'" + rest, true, false) == Token(rest, false, false)
  {
    assert ("'" + rest)[1..] == rest;
  }

  lemma {:induction false} InSingle(s: string, rest: string)
    requires '\'' !in s
    ensures Token(s + ("'" + rest), true, false) == (s + Token(rest, false, false).0, Token(rest, false, false).1)
  {
    hide Token;
    if s == "" {
      SingleOpens(rest);
      assert "" + ("'" + rest) == "'" + rest && "" + Token(rest, false, false).0 == Token(rest, false, false).0;
    } else {
      InSingle(s[1..], rest);
      InSingleStep(s[0], s[1..] + ("'" + rest));
      Regroup([s[0]], s[1..], "'" + rest);
      Regroup([s[0]], s[1..], Token(rest, false, false).0);
      assert s == [s[0]] + s[1..];
    }
  }

  lemma InDoubleStep(c: char, rest: string)
    requires c != '"' && (c == '\\' ==> rest != "" && rest[0] !in {'"', '\\'})
    ensures Token([c] + rest, false, true) == ([c] + Token(rest, false, true).0, Token(rest, false, true).1)
  {
    assert ([c] + rest)[1..] == rest;
  }

  lemma {:induction false} InDouble(s: string, rest: string)
    requires NeedsNoEscape(s)
    ensures Token(s + ("\"" + rest), false, true) == (s + Token(rest, false, false).0, Token(rest, false, false).1)
  {
    hide Token;
    if s == "" {
      TokenCloses(rest);
      assert "" + ("\"" + rest) == "\"" + rest && "" + Token(rest, false, false).0 == Token(rest, false, false).0;
    } else {
      var after := s[1..] + ("\"" + rest);
      InDouble(s[1..], rest);
      assert |s| > 1 ==> after[0] == s[1];
      InDoubleStep(s[0], after);
      Regroup([s[0]], s[1..], "\"" + rest);
      Regroup([s[0]], s[1..], Token(rest, false, false).0);
      assert s == [s[0]] + s[1..];
    }
  }

  /** A quote that is not closed runs to the end, and a backslash at the end is one. */
  lemma {:induction false} UnclosedSingle(s: string)
    requires '\'' !in s
    ensures Token(s, true, false) == (s, "")
  {
    if s != "" {
      UnclosedSingle(s[1..]);
      InSingleStep(s[0], s[1..]);
      assert s == [s[0]] + s[1..];
    }
  }

  lemma {:induction false} UnclosedDouble(s: string)
    requires NeedsNoEscape(s)
    ensures Token(s, false, true) == (s, "")
  {
    if s != "" {
      UnclosedDouble(s[1..]);
      InDoubleStep(s[0], s[1..]);
      assert s == [s[0]] + s[1..];
    }
  }

  lemma LastBackslash(s: string)
    requires s == "\\"
    ensures Token(s, false, false) == (s, "")
  {
    assert s[1..] == "" && [s[0]] + "" == s;
  }

  lemma PieceYields(p: Piece, rest: string)
    requires Writable(p)
    ensures Yields(Written(p), p.text, rest)
  {
    hide Token, Slashes, Escaped;
    match p.way
    case Bare => BareYields(p.text, rest);
    case Slashed => SlashesYield(p.text, rest);
    case Single =>
      InSingle(p.text, rest);
      SingleOpens(p.text + ("'" + rest));
      Regroup("'", p.text + "'", rest);
      Regroup(p.text, "'", rest);
    case Double =>
      TokenOfEscaped(p.text, rest);
      TokenOpens(Escaped(p.text) + ("\"" + rest));
      Regroup("\"", Escaped(p.text), "\"");
      Regroup("\"", Escaped(p.text) + "\"", rest);
      Regroup(Escaped(p.text), "\"", rest);
    case Verbatim =>
      InDouble(p.text, rest);
      TokenOpens(p.text + ("\"" + rest));
      Regroup("\"", p.text + "\"", rest);
      Regroup(p.text, "\"", rest);
  }

  lemma {:induction false} AllYield(pieces: seq<Piece>, rest: string)
    requires forall i | 0 <= i < |pieces| :: Writable(pieces[i])
    ensures Yields(AllWritten(pieces), Whole(pieces), rest)
  {
    hide Token, Written, Writable;
    if pieces == [] {
      assert "" + rest == rest && "" + Token(rest, false, false).0 == Token(rest, false, false).0;
    } else {
      AllYield(pieces[1..], rest);
      PieceYields(pieces[0], AllWritten(pieces[1..]) + rest);
      Chained(Written(pieces[0]), pieces[0].text, AllWritten(pieces[1..]), Whole(pieces[1..]), rest);
    }
  }

  // ----- a line -----

  lemma {:induction false} StartsVisibly(pieces: seq<Piece>)
    requires AllWritten(pieces) != "" && forall i | 0 <= i < |pieces| :: Writable(pieces[i])
    ensures !IsBlank(AllWritten(pieces)[0])
  {
    var w := Written(pieces[0]);
    assert Writable(pieces[0]);
    if w == "" {
      StartsVisibly(pieces[1..]);
      assert w + AllWritten(pieces[1..]) == AllWritten(pieces[1..]);
    } else {
      assert AllWritten(pieces)[0] == w[0];
      if pieces[0].way.Bare? { assert Plain(w[0]); }
    }
  }

  lemma {:induction false} BlanksGo(gap: string, rest: string)
    requires Blanks(gap) && (rest == "" || !IsBlank(rest[0]))
    ensures SkipBlanks(gap + rest) == rest
  {
    if gap == "" {
      assert gap + rest == rest;
    } else {
      BlanksGo(gap[1..], rest);
      assert (gap + rest)[1..] == gap[1..] + rest;
    }
  }

  lemma WordEnds(s: string)
    requires s == "" || IsBlank(s[0])
    ensures Token(s, false, false) == ("", if s == "" then "" else s[1..])
  {
  }

  /** The line without the blank after a word. */
  function Rest(l: Line): Line {
    if l.gap == "" then l else if l.End? then End(l.gap[1..]) else l.(gap := l.gap[1..])
  }

  lemma RestIs(l: Line)
    requires Ok(l) && (l.Word? ==> l.gap != "")
    ensures Text(l) == "" || IsBlank(Text(l)[0])
    ensures Text(Rest(l)) == (if Text(l) == "" then "" else Text(l)[1..])
    ensures Ok(Rest(l)) && Args(Rest(l)) == Args(l)
  {
    hide AllWritten, Whole, Writable;
    if l.gap != "" {
      var tail := if l.Word? then AllWritten(l.pieces) + Text(l.more) else "";
      assert l.gap[0] == ' ' || l.gap[0] == '\t';
      Regroup([l.gap[0]], l.gap[1..], tail);
      assert l.gap == [l.gap[0]] + l.gap[1..];
      assert l.End? ==> l.gap + tail == l.gap;
      assert Text(l) == [l.gap[0]] + (l.gap[1..] + tail);
      assert l.End? ==> l.gap[1..] + tail == l.gap[1..];
    }
  }

  function Words(l: Line): nat { if l.End? then 0 else 1 + Words(l.more) }

  lemma {:induction false} RestWords(l: Line)
    ensures Words(Rest(l)) == Words(l)
  {
  }

  /** A line splits into the arguments its pieces stand for, or the first `limit` of them. */
  lemma {:induction false} SplitWritten(l: Line, limit: nat)
    requires Ok(l)
    ensures Split(Text(l), limit) == if |Args(l)| <= limit then Args(l) else Args(l)[..limit]
    decreases Words(l)
  {
    match l
    case End(gap) =>
      BlanksGo(gap, "");
      assert gap + "" == gap;
    case Word(gap, pieces, more) =>
      OneWord(gap, pieces, more, limit);
      if limit > 0 {
        RestIs(more);
        RestWords(more);
        SplitWritten(Rest(more), limit - 1);
        hide Split, Text, Whole, Rest;
        if |Args(l)| > limit {
          assert Args(l)[..limit] == [Whole(pieces)] + Args(more)[..limit - 1];
        }
      }
  }

  lemma OneWord(gap: string, pieces: seq<Piece>, more: Line, limit: nat)
    requires Ok(Word(gap, pieces, more))
    ensures Split(Text(Word(gap, pieces, more)), limit) ==
            if limit == 0 then [] else [Whole(pieces)] + Split(Text(Rest(more)), limit - 1)
  {
    var w, t := AllWritten(pieces), Text(more);
    StartsVisibly(pieces);
    hide Token, SkipBlanks, AllWritten, Whole;
    BlanksGo(gap, w + t);
    AllYield(pieces, t);
    RestIs(more);
    WordEnds(t);
    assert Whole(pieces) + "" == Whole(pieces);
  }

  /** The same in the line buffer. */
  method SplitLine(ghost l: Line, line: array<char>, ghost len: nat, max: nat) returns (argv: seq<nat>)
    requires Ok(l) && CString(line[..], len) && line[..len] == Text(l) && |Args(l)| < max
    modifies line
    ensures |Joined(Args(l))| <= line.Length && line[..|Joined(Args(l))|] == Joined(Args(l))
    ensures StartsAt(argv, Args(l))
  {
    hide Split, Joined, StartsAt, Text, Args, Ok;
    SplitWritten(l, max - 1);
    argv := SplitArgs(line, len, max);
  }
}
