/** Colouring a JavaScript text. The colouring is given byte by byte, by the mode the scan of everything before
    it leaves it in; the editor colours token by token, looking ahead for the end of each. */
module Highlight {
  import opened BracketMatch

  const KEYWORDS: seq<string> := [
    "function", "var", "let", "const", "if", "else", "for", "while", "do", "return", "break", "continue", "new",
    "this", "typeof", "delete", "in", "of", "instanceof", "try", "catch", "finally", "throw", "switch", "case",
    "default", "null", "undefined", "true", "false", "void", "yield", "async", "await", "class", "extends", "super",
    "import", "export"]

  const WORD_MAX: nat := 24

  predicate IsKeyword(w: string) { 0 < |w| < WORD_MAX && w in KEYWORDS }

  predicate Digit(c: char) { '0' <= c <= '9' }
  predicate NumChar(c: char) { Digit(c) || c == '.' || c == 'x' || c == 'X' || 'a' <= c <= 'f' || 'A' <= c <= 'F' }
  predicate IdStart(c: char) { 'a' <= c <= 'z' || 'A' <= c <= 'Z' || c == '_' || c == '$' }
  predicate IdCont(c: char) { IdStart(c) || Digit(c) }
  predicate Quote(c: char) { c == '"' || c == '\'' || c == '`' }

  predicate At(buf: string, i: int, c: char) { 0 <= i < |buf| && buf[i] == c }

  /** What a byte is part of. `Opened` is the star that opens a block comment, `Closed` the slash that closes it,
      `Escaped` a byte after a backslash. */
  datatype Mode = Code | Num | Word | Line | Opened | Block | Closed | Str(q: char) | Escaped(q: char)

  /** The mode of a byte, given the mode the text before it asks for: some tokens end before it. */
  function Meets(m: Mode, c: char): Mode {
    match m
    case Num => if NumChar(c) then m else Code
    case Word => if IdCont(c) then m else Code
    case Line => if c == '\n' then Code else m
    case Str(q) => if c == '\n' && q != '`' then Code else m
    case _ => m
  }

  /** The mode asked for after byte `i`, which has mode `m`. */
  function Next(buf: string, i: nat, m: Mode): Mode
    requires i < |buf|
  {
    var c := buf[i];
    match m
    case Code =>
      if c == '/' && At(buf, i + 1, '/') then Line
      else if c == '/' && At(buf, i + 1, '*') then Opened
      else if Quote(c) then Str(c)
      else if Digit(c) then Num
      else if IdStart(c) then Word
      else Code
    case Opened => Block
    case Block => if c == '*' && At(buf, i + 1, '/') then Closed else Block
    case Closed => Code
    case Str(q) => if c == '\\' && i + 1 < |buf| then Escaped(q) else if c == q then Code else m
    case Escaped(q) => Str(q)
    case _ => m
  }

  function Before(buf: string, i: nat): Mode
    requires i <= |buf|
  {
    if i == 0 then Code else Next(buf, i - 1, Meets(Before(buf, i - 1), buf[i - 1]))
  }

  function Kind(buf: string, i: nat): Mode
    requires i < |buf|
  {
    Meets(Before(buf, i), buf[i])
  }

  lemma Follows(buf: string, i: nat)
    requires i < |buf|
    ensures Before(buf, i + 1) == Next(buf, i, Kind(buf, i))
  {
  }

  /** A token begins here, or the text ends. */
  predicate Fresh(buf: string, i: nat)
    requires i <= |buf|
  {
    i < |buf| ==> Kind(buf, i) == Code
  }

  /** The word around a byte of one. */
  function WordStart(buf: string, i: nat): nat
    requires i < |buf|
  {
    if i > 0 && Kind(buf, i) == Word then WordStart(buf, i - 1) else i
  }

  function WordEnd(buf: string, i: nat): nat
    requires i <= |buf|
    ensures i <= WordEnd(buf, i) <= |buf|
    decreases |buf| - i
  {
    if i < |buf| && IdCont(buf[i]) then WordEnd(buf, i + 1) else i
  }

  lemma WordBegins(buf: string, i: nat)
    requires i < |buf|
    ensures WordStart(buf, i) <= i
  {
  }

  function Colour(buf: string, i: nat): Tok
    requires i < |buf|
  {
    var m := Kind(buf, i);
    match (if m == Code then Next(buf, i, m) else m)
    case Code => Text
    case Num => Number
    case Word =>
      WordBegins(buf, i);
      if IsKeyword(buf[WordStart(buf, i)..WordEnd(buf, i)]) then Keyword else Text
    case Str(_) => String
    case Escaped(_) => String
    case _ => Comment
  }

  // ----- what the modes mean -----

  /** A line comment runs to the end of the line. */
  lemma {:induction false} LineIs(buf: string, i: nat, j: nat)
    requires i + 2 <= j <= |buf| && Kind(buf, i) == Code && buf[i] == '/' && buf[i + 1] == '/'
    requires forall k | i <= k < j :: buf[k] != '\n'
    ensures Before(buf, j) == Line && Colour(buf, j - 1) == Comment == Colour(buf, i)
    ensures j < |buf| ==> (Kind(buf, j) == Code <==> buf[j] == '\n')
    decreases j
  {
    hide Before;
    Follows(buf, i);
    Follows(buf, j - 1);
    if j > i + 2 { LineIs(buf, i, j - 1); }
  }

  /** A block comment runs to the first star and slash after its opening, and past them. */
  lemma {:induction false} BlockIs(buf: string, i: nat, j: nat)
    requires i + 2 <= j <= |buf| && Kind(buf, i) == Code && buf[i] == '/' && buf[i + 1] == '*'
    requires forall k | i + 2 <= k < j :: !(buf[k] == '*' && At(buf, k + 1, '/'))
    ensures Before(buf, j) == Block && Colour(buf, j - 1) == Comment && Colour(buf, i) == Comment
    ensures j + 1 < |buf| && buf[j] == '*' && buf[j + 1] == '/' ==>
              Colour(buf, j) == Comment == Colour(buf, j + 1) && Before(buf, j + 2) == Code
    decreases j
  {
    hide Before;
    Follows(buf, i);
    Follows(buf, j - 1);
    if j > i + 2 { BlockIs(buf, i, j - 1); }
    if j + 1 < |buf| {
      Follows(buf, j);
      Follows(buf, j + 1);
    }
  }

  /** How many backslashes stand right before `j`, counting back to `i` at most. */
  function Slashes(buf: string, i: nat, j: nat): nat
    requires i <= j <= |buf|
    decreases j
  {
    if j > i && buf[j - 1] == '\\' then 1 + Slashes(buf, i, j - 1) else 0
  }

  /** `j` ends the string whose quote is at `i`: the quote again, or the end of the line, after an even number
      of backslashes. */
  predicate Ends(buf: string, i: nat, j: nat)
    requires i < j < |buf|
  {
    Slashes(buf, i + 1, j) % 2 == 0 && (buf[j] == buf[i] || (buf[j] == '\n' && buf[i] != '`'))
  }

  /** A string runs to the first such byte; a quote belongs to it, the end of the line does not. */
  lemma {:induction false} StringIs(buf: string, i: nat, j: nat)
    requires i < j < |buf| && Kind(buf, i) == Code && buf[i] in {'"', '\'', '`'}
    requires forall k | i < k < j :: !Ends(buf, i, k)
    ensures Before(buf, j) == if Slashes(buf, i + 1, j) % 2 == 0 then Str(buf[i]) else Escaped(buf[i])
    ensures Colour(buf, j - 1) == String
    ensures Ends(buf, i, j) ==>
              if buf[j] == '\n' then Kind(buf, j) == Code && Colour(buf, j) == Text
              else Colour(buf, j) == String && Before(buf, j + 1) == Code
    decreases j
  {
    hide Before;
    Follows(buf, j - 1);
    Follows(buf, j);
    if j > i + 1 {
      StringIs(buf, i, j - 1);
      assert !Ends(buf, i, j - 1);
    }
  }

  /** Between two quotes of any kind on one line, without that quote or a backslash between them, everything is
      coloured as a string, brackets included; then comes code. */
  lemma {:induction false} QuotedIsString(buf: string, i: nat, j: nat, k: nat)
    requires i < j < |buf| && Kind(buf, i) == Code && buf[i] in {'"', '\'', '`'} && buf[j] == buf[i]
    requires forall n | i < n < j :: buf[n] != buf[i] && buf[n] != '\\' && buf[n] != '\n'
    requires i <= k <= j
    ensures Colour(buf, k) == String && Before(buf, j + 1) == Code
  {
    forall n | i < n < j ensures !Ends(buf, i, n) {}
    NoSlashes(buf, i, j);
    StringIs(buf, i, j);
    if k < j { StringIs(buf, i, k + 1); }
  }

  lemma NoSlashes(buf: string, i: nat, n: nat)
    requires i < n <= |buf| && (n > i + 1 ==> buf[n - 1] != '\\')
    ensures Slashes(buf, i + 1, n) == 0
  {
  }

  predicate Numeric(c: char) { c in "0123456789.xXabcdefABCDEF" }

  /** A digit where a token begins starts a number, which goes on over digits, hexadecimal ones too, points and the
      x of a prefix. */
  lemma {:induction false} NumberIs(buf: string, i: nat, k: nat)
    requires i <= k < |buf| && Kind(buf, i) == Code && '0' <= buf[i] <= '9' && forall n | i <= n <= k :: Numeric(buf[n])
    ensures Colour(buf, k) == Number && Before(buf, k + 1) == Num
    ensures k + 1 < |buf| && !Numeric(buf[k + 1]) ==> Kind(buf, k + 1) == Code
    decreases k
  {
    hide Before, Numeric;
    SameNumeric(buf[k]);
    if k + 1 < |buf| { SameNumeric(buf[k + 1]); }
    Follows(buf, k);
    if k > i { NumberIs(buf, i, k - 1); }
  }

  lemma SameNumeric(c: char)
    ensures NumChar(c) <==> Numeric(c)
  {
  }

  /** Letters, digits, `_` and `$` that do not begin with a digit are a word, a keyword or plain text as a whole. */
  predicate Wordy(c: char) { 'a' <= c <= 'z' || 'A' <= c <= 'Z' || '0' <= c <= '9' || c in {'_', '$'} }

  lemma WordIs(buf: string, i: nat, k: nat, j: nat)
    requires i <= k < j <= |buf| && Kind(buf, i) == Code && Wordy(buf[i]) && !('0' <= buf[i] <= '9')
    requires (forall n | i <= n < j :: Wordy(buf[n])) && (j < |buf| ==> !Wordy(buf[j]))
    ensures Colour(buf, k) == if buf[i..j] in KEYWORDS then Keyword else Text
    ensures Fresh(buf, j)
  {
    hide Before;
    WordRuns(buf, i, k, j);
    WordStops(buf, k, j);
    WordRuns(buf, i, j - 1, j);
    KeywordsShort(buf[i..j]);
  }

  lemma KeywordsShort(w: string)
    ensures w in KEYWORDS ==> 0 < |w| < 24
  {
  }

  // ----- locality -----

  lemma NextOfRest(buf: string, i: nat, k: nat)
    requires i + k < |buf|
    ensures forall m :: Next(buf, i + k, m) == Next(buf[i..], k, m)
  {
    assert buf[i..][k] == buf[i + k];
  }

  lemma {:induction false} ModeOfRest(buf: string, i: nat, k: nat)
    requires i + k < |buf| && Kind(buf, i) == Code
    ensures Kind(buf, i + k) == Kind(buf[i..], k)
  {
    assert buf[i..][k] == buf[i + k];
    if k > 0 {
      hide Before;
      ModeOfRest(buf, i, k - 1);
      NextOfRest(buf, i, k - 1);
      Follows(buf, i + k - 1);
      Follows(buf[i..], k - 1);
    }
  }

  lemma {:induction false} WordStartOfRest(buf: string, i: nat, k: nat)
    requires i + k < |buf| && Kind(buf, i) == Code
    ensures WordStart(buf, i + k) == i + WordStart(buf[i..], k)
  {
    ModeOfRest(buf, i, k);
    if k > 0 { WordStartOfRest(buf, i, k - 1); }
  }

  lemma {:induction false} WordEndOfRest(buf: string, i: nat, k: nat)
    requires i + k <= |buf|
    ensures WordEnd(buf, i + k) == i + WordEnd(buf[i..], k)
    decreases |buf| - k
  {
    if i + k < |buf| {
      assert buf[i..][k] == buf[i + k];
      WordEndOfRest(buf, i, k + 1);
    }
  }

  /** From where a token begins on, the colours depend on the text from there on only. */
  lemma ColourOfRest(buf: string, i: nat, k: nat)
    requires i + k < |buf| && Kind(buf, i) == Code
    ensures Colour(buf, i + k) == Colour(buf[i..], k)
  {
    hide Before, Next, IsKeyword, WordStart, WordEnd;
    ModeOfRest(buf, i, k);
    NextOfRest(buf, i, k);
    WordStartOfRest(buf, i, k);
    WordEndOfRest(buf, i, k);
    WordBegins(buf, i + k);
    WordBegins(buf[i..], k);
    var a, b := WordStart(buf[i..], k), WordEnd(buf[i..], k);
    assert buf[i..][a..b] == buf[i + a..i + b];
  }

  // ----- token by token -----

  /** The first `n` bytes have their colours. */
  ghost predicate Done(buf: string, color: array<Tok>, n: nat)
    requires n <= |buf| <= color.Length
    reads color
  {
    forall k | 0 <= k < n :: color[k] == Colour(buf, k)
  }

  method LineComment(buf: string, color: array<Tok>, i: nat) returns (j: nat)
    requires i < |buf| <= color.Length && Kind(buf, i) == Code && Next(buf, i, Code) == Line
    requires Done(buf, color, i)
    modifies color
    ensures i < j <= |buf| && Fresh(buf, j) && Done(buf, color, j)
    ensures forall k | |buf| <= k < color.Length :: color[k] == old(color[k])
  {
    hide Before;
    j := i;
    while j < |buf| && buf[j] != '\n'
      invariant i <= j <= |buf| && Done(buf, color, j) && (j > i ==> Before(buf, j) == Line)
      invariant forall k | |buf| <= k < color.Length :: color[k] == old(color[k])
    {
      color[j] := Comment;
      Follows(buf, j);
      j := j + 1;
    }
  }

  method BlockComment(buf: string, color: array<Tok>, i: nat) returns (j: nat)
    requires i < |buf| <= color.Length && Kind(buf, i) == Code && Next(buf, i, Code) == Opened
    requires Done(buf, color, i)
    modifies color
    ensures i < j <= |buf| && Fresh(buf, j) && Done(buf, color, j)
    ensures forall k | |buf| <= k < color.Length :: color[k] == old(color[k])
  {
    hide Before;
    Follows(buf, i);
    Follows(buf, i + 1);
    color[i] := Comment;
    color[i + 1] := Comment;
    j := i + 2;
    while j < |buf|
      invariant i < j <= |buf| && Done(buf, color, j) && Before(buf, j) == Block
      invariant forall k | |buf| <= k < color.Length :: color[k] == old(color[k])
    {
      color[j] := Comment;
      Follows(buf, j);
      if buf[j] == '*' && j + 1 < |buf| && buf[j + 1] == '/' {
        color[j + 1] := Comment;
        Follows(buf, j + 1);
        j := j + 2;
        return;
      }
      j := j + 1;
    }
  }

  method StringToken(buf: string, color: array<Tok>, i: nat) returns (j: nat)
    requires i < |buf| <= color.Length && Kind(buf, i) == Code && Quote(buf[i])
    requires Done(buf, color, i)
    modifies color
    ensures i < j <= |buf| && Fresh(buf, j) && Done(buf, color, j)
    ensures forall k | |buf| <= k < color.Length :: color[k] == old(color[k])
  {
    hide Before;
    Follows(buf, i);
    var q := buf[i];
    color[i] := String;
    j := i + 1;
    while j < |buf|
      invariant i < j <= |buf| && Done(buf, color, j) && Before(buf, j) == Str(q)
      invariant forall k | |buf| <= k < color.Length :: color[k] == old(color[k])
    {
      color[j] := String;
      Follows(buf, j);
      if buf[j] == '\\' && j + 1 < |buf| {
        color[j + 1] := String;
        Follows(buf, j + 1);
        j := j + 2;
        continue;
      }
      if buf[j] == q {
        j := j + 1;
        return;
      }
      if buf[j] == '\n' && q != '`' { return; }
      j := j + 1;
    }
  }

  method NumberToken(buf: string, color: array<Tok>, i: nat) returns (j: nat)
    requires i < |buf| <= color.Length && Kind(buf, i) == Code && Digit(buf[i])
    requires Done(buf, color, i)
    modifies color
    ensures i < j <= |buf| && Fresh(buf, j) && Done(buf, color, j)
    ensures forall k | |buf| <= k < color.Length :: color[k] == old(color[k])
  {
    hide Before;
    j := i;
    while j < |buf| && NumChar(buf[j])
      invariant i <= j <= |buf| && Done(buf, color, j) && (j > i ==> Before(buf, j) == Num)
      invariant forall k | |buf| <= k < color.Length :: color[k] == old(color[k])
    {
      color[j] := Number;
      Follows(buf, j);
      j := j + 1;
    }
  }

  lemma {:induction false} WordRuns(buf: string, i: nat, k: nat, j: nat)
    requires i <= k < j <= |buf| && Kind(buf, i) == Code && IdStart(buf[i])
    requires (forall n | i <= n < j :: IdCont(buf[n])) && (j < |buf| ==> !IdCont(buf[j]))
    ensures Before(buf, k + 1) == Word && WordStart(buf, k) == i && (k > i ==> Kind(buf, k) == Word)
    decreases k
  {
    hide Before;
    Follows(buf, k);
    if k > i { WordRuns(buf, i, k - 1, j); }
  }

  lemma {:induction false} WordStops(buf: string, k: nat, j: nat)
    requires k <= j <= |buf|
    requires (forall n | k <= n < j :: IdCont(buf[n])) && (j < |buf| ==> !IdCont(buf[j]))
    ensures WordEnd(buf, k) == j
    decreases j - k
  {
    if k < j { WordStops(buf, k + 1, j); }
  }

  method WordToken(buf: string, color: array<Tok>, i: nat) returns (j: nat)
    requires i < |buf| <= color.Length && Kind(buf, i) == Code && IdStart(buf[i])
    requires Done(buf, color, i)
    modifies color
    ensures i < j <= |buf| && Fresh(buf, j) && Done(buf, color, j)
    ensures forall k | |buf| <= k < color.Length :: color[k] == old(color[k])
  {
    hide Before, IsKeyword, WordStart, WordEnd;
    j := i;
    while j < |buf| && IdCont(buf[j])
      invariant i <= j <= |buf| && forall n | i <= n < j :: IdCont(buf[n])
    {
      j := j + 1;
    }
    var klass := if IsKeyword(buf[i..j]) then Keyword else Text;
    for k := i to j
      invariant Done(buf, color, k)
      invariant forall n | |buf| <= n < color.Length :: color[n] == old(color[n])
    {
      WordRuns(buf, i, k, j);
      WordStops(buf, k, j);
      color[k] := klass;
    }
    WordRuns(buf, i, j - 1, j);
  }

  /** Every byte gets its colour; what lies behind the text is left alone. */
  method Retokenize(buf: string, color: array<Tok>)
    requires |buf| <= color.Length
    modifies color
    ensures forall i | 0 <= i < |buf| :: color[i] == Colour(buf, i)
    ensures forall k | |buf| <= k < color.Length :: color[k] == old(color[k])
  {
    var i := 0;
    assert Fresh(buf, 0);
    hide Before;
    while i < |buf|
      invariant i <= |buf| && Fresh(buf, i) && Done(buf, color, i)
      invariant forall k | |buf| <= k < color.Length :: color[k] == old(color[k])
    {
      var c := buf[i];
      if c == '/' && i + 1 < |buf| && buf[i + 1] == '/' {
        i := LineComment(buf, color, i);
      } else if c == '/' && i + 1 < |buf| && buf[i + 1] == '*' {
        i := BlockComment(buf, color, i);
      } else if Quote(c) {
        i := StringToken(buf, color, i);
      } else if Digit(c) {
        i := NumberToken(buf, color, i);
      } else if IdStart(c) {
        i := WordToken(buf, color, i);
      } else {
        color[i] := Text;
        Follows(buf, i);
        i := i + 1;
      }
    }
  }

  function Highlighted(buf: string): (s: Source)
    ensures s.buf == buf && Coloured(s) && forall i | 0 <= i < |buf| :: s.color[i] == Colour(buf, i)
  {
    Source(buf, seq(|buf|, i requires 0 <= i < |buf| => Colour(buf, i)))
  }

  lemma PairIsCode(buf: string, a: int, b: int)
    requires 0 <= a < |buf| && 0 <= b < |buf|
    requires Partner(Highlighted(buf), a, b) && Partner(Highlighted(buf), b, a)
    ensures Colour(buf, a) == Text == Colour(buf, b)
  {
    BracketIsText(buf, a);
    BracketIsText(buf, b);
    hide Colour, Highlighted;
    var s := Highlighted(buf);
    PartnersMutual(s, a, b);
    PartnersMutual(s, b, a);
  }

  /** A bracket is coloured as text unless it is in a string or a comment. */
  lemma BracketIsText(buf: string, i: nat)
    requires i < |buf| && (IsOpen(buf[i]) || IsClose(buf[i]))
    ensures Colour(buf, i) in {Text, String, Comment}
  {
    hide Before;
  }

  /** Before a repaint: colour the text, then pair the bracket at the cursor. The ends of the pair are code,
      whatever the colours were before. */
  method Refresh(buf: string, color: array<Tok>, cur: int) returns (a: int, b: int)
    requires |buf| <= color.Length
    modifies color
    ensures color[..|buf|] == Highlighted(buf).color
    ensures a != -1 ==>
      && (a == cur - 1 || a == cur) && 0 <= a < |buf| && 0 <= b < |buf|
      && Partner(Highlighted(buf), a, b) && Partner(Highlighted(buf), b, a)
      && Colour(buf, a) == Text == Colour(buf, b)
    ensures a == -1 ==> b == -1
    ensures Candidate(Highlighted(buf), cur - 1) && a != cur - 1 ==> Alone(Highlighted(buf), cur - 1)
    ensures Candidate(Highlighted(buf), cur) && a == -1 ==> Alone(Highlighted(buf), cur)
  {
    Retokenize(buf, color);
    hide Partner, Alone, Colour, Highlighted;
    var s := Source(buf, color[..|buf|]);
    assert s.color == Highlighted(buf).color;
    a, b := UpdateBracketMatch(s, cur);
    if a != -1 {
      PairIsCode(buf, a, b);
    }
  }
}
