/** Particular script texts, spelled out, and what running them does: operators and their precedence, printed
    numbers, comments and separators. */
module OshTexts {
  import opened Decimal
  import opened OshLaws
  import opened OshLexis
  import opened OshPrinter
  import opened OshSteps
  import opened OshSyntax
  import S = OshSemantics
  import I = OshInterp

  // ----- printed values -----

  lemma PrintsOne(e: S.Ast, st: S.State) returns (text: string)
    requires !st.err
    ensures Canonical(text) && IntValue(text) == S.Eval(e, st.env).v
    ensures S.ExecProg(S.Seq(S.Print(S.Items(S.Expr(e), S.NoItems)), S.Skip), st)
            == S.State(st.env, st.out + text + "\n", S.Eval(e, st.env).err)
  {
    var items := S.Items(S.Expr(e), S.NoItems);
    var texts := PrintShows(items, st);
    text := texts[0];
    assert Shows(S.NoItems, st.env, texts[1..]);
    assert Spaced(texts) == text;
    assert S.ExecItems(S.NoItems, S.PrintItem(S.Expr(e), st), false).err == S.Eval(e, st.env).err;
    assert S.ExecItems(items, st, true).err == S.Eval(e, st.env).err;
    assert S.Exec(S.Print(items), st).err == S.Eval(e, st.env).err;
  }

  /** Run the text of `print` and an expression, and read the number it has written: it is the value of the
      expression, negative or not. */
  method PrintAndRead(e: S.Ast, interp: I.Interp) returns (text: string)
    requires Legal(e)
    modifies interp
    ensures interp.out == old(interp.out) + text + "\n"
    ensures Canonical(text) && IntValue(text) == S.Eval(e, map[]).v
    ensures interp.hadError == S.Eval(e, map[]).err
  {
    var p := S.Seq(S.Print(S.Items(S.Expr(e), S.NoItems)), S.Skip);
    var before := |interp.out|;
    assert LegalItems(S.NoItems) && LegalItems(S.Items(S.Expr(e), S.NoItems));
    RunPrinted(p, interp);
    ghost var shown := PrintsOne(e, S.State(map[], old(interp.out), false));
    text := Written(interp, before, shown);
  }

  /** What an interpreter has written after its first `n` characters, without the newline. */
  method Written(interp: I.Interp, n: nat, ghost shown: string) returns (text: string)
    requires n <= |interp.out| && interp.out == interp.out[..n] + shown + "\n"
    ensures text == shown
  {
    text := interp.out[n..|interp.out| - 1];
  }

  /** The same for an expression as it is written. */
  method RunPrint(code: string, ghost e: Expr, interp: I.Interp) returns (text: string)
    requires Wf(e) && code == "print" + Text(e, "") && !IsAlnum(Peek(Text(e, ""))) && Ends(e, OR, "")
    requires InStep(e, map[])
    modifies interp
    ensures interp.out == old(interp.out) + text + "\n"
    ensures Canonical(text) && IntValue(text) == S.Eval(Abs(e), map[]).v
    ensures interp.hadError == S.Eval(Abs(e), map[]).err
  {
    ghost var args := ExprArg(e, NoArgs);
    ghost var b := Then("", Print(args), End(""));
    ghost var st := S.State(map[], interp.out, false);
    PrintTree(e, st);
    var before := |interp.out|;
    interp.Run(code, b);
    ghost var shown := PrintsOne(Abs(e), st);
    text := Written(interp, before, shown);
  }

  lemma PrintTree(e: Expr, st: S.State)
    requires Wf(e) && !IsAlnum(Peek(Text(e, ""))) && Ends(e, OR, "") && InStep(e, st.env)
    ensures var b := Then("", Print(ExprArg(e, NoArgs)), End(""));
      && WfBlock(b, "") && BlockText(b, "") == "print" + Text(e, "") && InStepBlock(b, "", st)
      && AbsBlock(b, "") == S.Seq(S.Print(S.Items(S.Expr(Abs(e)), S.NoItems)), S.Skip)
  {
    var args := ExprArg(e, NoArgs);
    assert BlockText(End(""), "") == "";
    assert WfArgs(NoArgs, "");
    assert WfArgs(args, "") && AbsArgs(args, "") == S.Items(S.Expr(Abs(e)), S.NoItems);
    assert WfStmt(Print(args), "");
    assert InStepArgs(NoArgs, "", st.env) && InStepArgs(args, "", st.env);
    assert InStepStmt(Print(args), "", st);
    assert WfBlock(End(""), "");
  }

  // ----- names -----

  const LOWER: set<char> := {
    'a', 'b', 'c', 'd', 'e', 'f', 'g', 'h', 'i', 'j', 'k', 'l', 'm',
    'n', 'o', 'p', 'q', 'r', 's', 't', 'u', 'v', 'w', 'x', 'y', 'z'}
  const UPPER: set<char> := {
    'A', 'B', 'C', 'D', 'E', 'F', 'G', 'H', 'I', 'J', 'K', 'L', 'M',
    'N', 'O', 'P', 'Q', 'R', 'S', 'T', 'U', 'V', 'W', 'X', 'Y', 'Z'}

  predicate Letter(c: char) { c in LOWER || c in UPPER || c == '_' }

  lemma SameLetters(c: char)
    ensures IsAlpha(c) <==> Letter(c)
    ensures IsAlnum(c) <==> Letter(c) || c in "0123456789"
  {
    assert 'a' <= c <= 'z' <==> c in LOWER;
    assert 'A' <= c <= 'Z' <==> c in UPPER;
  }

  /** A name is a letter or `_`, then up to 14 letters, digits or `_`, and none of the four keywords. */
  lemma NameIff(x: string)
    ensures IsName(x) <==>
      && 1 <= |x| <= 15 && Letter(x[0]) && (forall i | 0 <= i < |x| :: Letter(x[i]) || x[i] in "0123456789")
      && x != "print" && x != "if" && x != "while" && x != "else"
  {
    if x != "" { SameLetters(x[0]); }
    forall i | 0 <= i < |x| ensures IsAlnum(x[i]) <==> Letter(x[i]) || x[i] in "0123456789" { SameLetters(x[i]); }
  }

  // ----- operators -----

  const OPERATORS := {"*", "/", "%", "+", "-", "==", "!=", "<", ">", "<=", ">=", "&&", "||"}

  function Truth(b: bool): int { if b then 1 else 0 }

  predicate Divides(sym: string) { sym == "/" || sym == "%" }

  /** What an operator makes of two numbers; division only of naturals by positive ones. */
  function Meaning(sym: string, l: int, r: int): int
    requires sym in OPERATORS && (Divides(sym) ==> l >= 0 && r > 0)
  {
    match sym
    case "*" => l * r
    case "/" => l / r
    case "%" => l % r
    case "+" => l + r
    case "-" => l - r
    case "==" => Truth(l == r)
    case "!=" => Truth(l != r)
    case "<" => Truth(l < r)
    case ">" => Truth(r < l)
    case "<=" => Truth(l <= r)
    case ">=" => Truth(r <= l)
    case "&&" => Truth(l != 0 && r != 0)
    case _ => Truth(l != 0 || r != 0)
  }

  /** How tightly an operator binds. */
  function Binds(sym: string): nat
    requires sym in OPERATORS
  {
    match sym
    case "*" => 5 case "/" => 5 case "%" => 5
    case "+" => 4 case "-" => 4
    case "&&" => 2
    case "||" => 1
    case _ => 3
  }

  function OpOf(sym: string): S.Op
    requires sym in OPERATORS
  {
    match sym
    case "*" => S.Mul
    case "/" => S.Div
    case "%" => S.Mod
    case "+" => S.Add
    case "-" => S.Sub
    case "==" => S.Eq
    case "!=" => S.Ne
    case "<" => S.Lt
    case ">" => S.Gt
    case "<=" => S.Le
    case ">=" => S.Ge
    case "&&" => S.And
    case _ => S.Or
  }

  lemma Spelling(sym: string)
    requires sym in OPERATORS
    ensures Sym(OpOf(sym)) == sym && LevelOf(OpOf(sym)) == Binds(sym)
    ensures Divides(sym) <==> OpOf(sym).Div? || OpOf(sym).Mod?
  {
  }

  lemma Applied(sym: string, l: int, r: int)
    requires sym in OPERATORS && (Divides(sym) ==> l >= 0 && r > 0)
    ensures S.Apply(OpOf(sym), l, r) == Meaning(sym, l, r)
  {
    if Divides(sym) {
      assert l == r * (l / r) + l % r;
    }
  }

  lemma MeansValue(sym: string, a: S.Ast, b: S.Ast, env: S.Env)
    requires sym in OPERATORS && !S.Eval(a, env).err && !S.Eval(b, env).err
    requires Divides(sym) ==> S.Eval(a, env).v >= 0 && S.Eval(b, env).v > 0
    ensures S.Eval(S.Bin(OpOf(sym), a, b), env) == S.Value(Meaning(sym, S.Eval(a, env).v, S.Eval(b, env).v), false)
  {
    Spelling(sym);
    Applied(sym, S.Eval(a, env).v, S.Eval(b, env).v);
    S.EvalBin(OpOf(sym), a, b, env);
    hide S.Eval;
  }

  /** Three numbers and two operators. */
  function Grouped(a: nat, s: string, b: nat, t: string, c: nat): int
    requires s in OPERATORS && t in OPERATORS && (Divides(s) ==> b > 0) && (Divides(t) ==> c > 0)
  {
    if Binds(t) > Binds(s) then Meaning(s, a, Meaning(t, b, c))
    else
      Nonnegative(s, a, b);
      Meaning(t, Meaning(s, a, b), c)
  }

  lemma Nonnegative(t: string, b: nat, c: nat)
    requires t in OPERATORS && (Divides(t) ==> c > 0)
    ensures Binds(t) == 5 ==> Meaning(t, b, c) >= 0
  {
  }

  /** The tree of `a s b t c`, by precedence and from the left. */
  function Tree(a: nat, s: string, b: nat, t: string, c: nat): Expr
    requires s in OPERATORS && t in OPERATORS
  {
    var x, y, z := Num(" ", ShowNat(a)), Num("", ShowNat(b)), Num("", ShowNat(c));
    var m, n := Binds(s), Binds(t);
    if n > m then Chain(m, x, Link("", OpOf(s), Chain(n, y, Link("", OpOf(t), z, Done)), Done))
    else if n == m then Chain(m, x, Link("", OpOf(s), y, Link("", OpOf(t), z, Done)))
    else Chain(n, Chain(m, x, Link("", OpOf(s), y, Done)), Link("", OpOf(t), z, Done))
  }

  /** A number among blanks. */
  lemma NumberOk(pre: string, n: nat, rest: string, env: S.Env)
    requires Blank(pre)
    ensures var e := Num(pre, ShowNat(n));
      && Wf(e) && Rank(e) == UNARY && Abs(e) == S.Num(n) && InStep(e, env) && NoGlue(e, "")
      && Text(e, rest) == pre + (ShowNat(n) + rest)
  {
    ValueOfShow(n);
  }

  lemma OneLink(x: Expr, op: S.Op, y: Expr, rest: string, env: S.Env)
    requires Wf(x) && Wf(y) && Rank(x) > LevelOf(op) && Rank(y) > LevelOf(op)
    requires InStep(x, env) && InStep(y, env) && NoGlue(y, "")
    ensures var e := Chain(LevelOf(op), x, Link("", op, y, Done));
      && Wf(e) && Rank(e) == LevelOf(op) && Abs(e) == S.Bin(op, Abs(x), Abs(y)) && InStep(e, env) && NoGlue(e, "")
      && Text(e, rest) == Text(x, Sym(op) + Text(y, rest))
  {
    var last := Link("", op, y, Done);
    hide Sym, S.Eval, Text;
    assert WfTail(Done, LevelOf(op)) && WfTail(last, LevelOf(op));
    assert AbsTail(Abs(x), last, LevelOf(op)) == S.Bin(op, Abs(x), Abs(y));
    assert InStepTail(S.Bin(op, Abs(x), Abs(y)), Done, LevelOf(op), env);
    LinkText(op, y, Done, rest);
    ChainText(LevelOf(op), x, last, rest);
  }

  lemma LinkText(op: S.Op, y: Expr, more: Tail, rest: string)
    ensures TailText(Link("", op, y, more), rest) == Sym(op) + Text(y, TailText(more, rest))
    ensures TailText(Done, rest) == rest
  {
  }

  lemma ChainText(level: nat, x: Expr, tail: Tail, rest: string)
    ensures Text(Chain(level, x, tail), rest) == Text(x, TailText(tail, rest))
  {
  }

  lemma TwoLinks(x: Expr, op: S.Op, y: Expr, next: S.Op, z: Expr, rest: string, env: S.Env)
    requires LevelOf(op) == LevelOf(next) != CMP && Wf(x) && Wf(y) && Wf(z)
    requires Rank(x) > LevelOf(op) && Rank(y) > LevelOf(op) && Rank(z) > LevelOf(op)
    requires InStep(x, env) && InStep(y, env) && InStep(z, env) && NoGlue(z, "")
    requires !S.ByZero(op, S.Eval(Abs(y), env).v)
    ensures var e := Chain(LevelOf(op), x, Link("", op, y, Link("", next, z, Done)));
      && Wf(e) && Abs(e) == S.Bin(next, S.Bin(op, Abs(x), Abs(y)), Abs(z)) && InStep(e, env) && NoGlue(e, "")
      && Text(e, rest) == Text(x, Sym(op) + Text(y, Sym(next) + Text(z, rest)))
  {
    TwoLinksText(x, op, y, next, z, rest);
    TwoLinksTail(Abs(x), op, y, next, z, env);
    Loosest(op);
    hide Sym, S.Eval, Text, Wf, Abs, InStep, NoGlue, WfTail, AbsTail, InStepTail, NoGlueTail, LevelOf;
    ChainIs(LevelOf(op), x, Link("", op, y, Link("", next, z, Done)), env);
  }

  lemma ChainIs(level: nat, x: Expr, tail: Tail, env: S.Env)
    requires OR <= level <= MUL && Wf(x) && Rank(x) > level && tail.Link? && WfTail(tail, level)
    requires (level == CMP ==> tail.more.Done?) && NoGlueTail(tail, "")
    requires InStep(x, env) && InStepTail(Abs(x), tail, level, env)
    ensures var e := Chain(level, x, tail);
      Wf(e) && Abs(e) == AbsTail(Abs(x), tail, level) && InStep(e, env) && NoGlue(e, "")
  {
  }

  lemma Loosest(op: S.Op)
    ensures OR <= LevelOf(op) <= MUL
  {
  }

  lemma TwoLinksText(x: Expr, op: S.Op, y: Expr, next: S.Op, z: Expr, rest: string)
    ensures Text(Chain(LevelOf(op), x, Link("", op, y, Link("", next, z, Done))), rest)
            == Text(x, Sym(op) + Text(y, Sym(next) + Text(z, rest)))
  {
    hide Sym, Text;
    var last := Link("", next, z, Done);
    LinkText(op, y, last, rest);
    LinkText(next, z, Done, rest);
    ChainText(LevelOf(op), x, Link("", op, y, last), rest);
  }

  lemma TwoLinksTail(a: S.Ast, op: S.Op, y: Expr, next: S.Op, z: Expr, env: S.Env)
    requires LevelOf(op) == LevelOf(next) && Wf(y) && Wf(z) && Rank(y) > LevelOf(op) && Rank(z) > LevelOf(op)
    requires InStep(y, env) && InStep(z, env) && NoGlue(z, "") && !S.ByZero(op, S.Eval(Abs(y), env).v)
    ensures var level, links := LevelOf(op), Link("", op, y, Link("", next, z, Done));
      && WfTail(links, level) && AbsTail(a, links, level) == S.Bin(next, S.Bin(op, a, Abs(y)), Abs(z))
      && InStepTail(a, links, level, env) && NoGlueTail(links, "")
  {
    var level, last := LevelOf(op), Link("", next, z, Done);
    var acc := S.Bin(op, a, Abs(y));
    hide S.Eval, LevelOf, InStep, Wf, Abs, NoGlue;
    assert WfTail(Done, level) && WfTail(last, level) && WfTail(Link("", op, y, last), level);
    assert AbsTail(acc, last, level) == S.Bin(next, acc, Abs(z));
    assert InStepTail(S.Bin(next, acc, Abs(z)), Done, level, env) && InStepTail(acc, last, level, env);
    assert NoGlueTail(last, "");
  }

  lemma TreeOk(a: nat, s: string, b: nat, t: string, c: nat)
    requires s in OPERATORS && t in OPERATORS && !(Binds(s) == 3 == Binds(t))
    requires (Divides(s) ==> b > 0) && (Divides(t) ==> c > 0)
    ensures var e := Tree(a, s, b, t, c);
      && Wf(e) && Ends(e, OR, "") && InStep(e, map[])
      && Text(e, "") == " " + (ShowNat(a) + (s + (ShowNat(b) + (t + ShowNat(c)))))
      && Abs(e) == var x, y, z := S.Num(a), S.Num(b), S.Num(c);
        if Binds(t) > Binds(s) then S.Bin(OpOf(s), x, S.Bin(OpOf(t), y, z))
        else S.Bin(OpOf(t), S.Bin(OpOf(s), x, y), z)
  {
    Spelling(s);
    Spelling(t);
    Levels(s);
    Levels(t);
    var x, y, z := Num(" ", ShowNat(a)), Num("", ShowNat(b)), Num("", ShowNat(c));
    var op, next := OpOf(s), OpOf(t);
    assert S.Eval(S.Num(b), map[]).v == b;
    QuietEnd();
    hide OpOf, Binds, Sym, LevelOf, ShowNat, Wf, Abs, InStep, NoGlue, Text, S.Eval, Stops;
    assert ShowNat(c) + "" == ShowNat(c);
    NumberOk("", c, "", map[]);
    assert "" + (ShowNat(c) + "") == ShowNat(c);
    var tc := t + ShowNat(c);
    NumberOk("", b, tc, map[]);
    NumberOk("", b, "", map[]);
    assert "" + (ShowNat(b) + tc) == ShowNat(b) + tc;
    var right := s + (ShowNat(b) + tc);
    NumberOk(" ", a, right, map[]);
    if Binds(t) > Binds(s) {
      OneLink(y, next, z, "", map[]);
      OneLink(x, op, Chain(Binds(t), y, Link("", next, z, Done)), "", map[]);
    } else if Binds(t) == Binds(s) {
      TwoLinks(x, op, y, next, z, "", map[]);
    } else {
      OneLink(x, op, y, tc, map[]);
      OneLink(Chain(Binds(s), x, Link("", op, y, Done)), next, z, "", map[]);
    }
  }

  lemma Levels(sym: string)
    requires sym in OPERATORS
    ensures 1 <= Binds(sym) <= 5
  {
  }

  lemma QuietEnd()
    ensures Stops(OR, "")
  {
  }

  /** Numbers and operators as they are written: `*`, `/` and `%` before `+` and `-`, those before comparisons,
      those before `&&`, that before `||`; operators of one kind from the left. */
  method RunOperators(a: nat, s: string, b: nat, t: string, c: nat, interp: I.Interp) returns (text: string)
    requires s in OPERATORS && t in OPERATORS && !(Binds(s) == 3 == Binds(t))
    requires (Divides(s) ==> b > 0) && (Divides(t) ==> c > 0)
    modifies interp
    ensures interp.out == old(interp.out) + text + "\n" && !interp.hadError
    ensures Canonical(text) && IntValue(text) == Grouped(a, s, b, t, c)
  {
    hide Tree, Grouped, ShowNat, Wf, Abs, Ends, InStep, Text, Canonical, S.Eval, Meaning;
    var code := "print " + ShowNat(a) + s + ShowNat(b) + t + ShowNat(c);
    ghost var e := Tree(a, s, b, t, c);
    TreeOk(a, s, b, t, c);
    TreeMeans(a, s, b, t, c);
    Spell("print", ShowNat(a), s, ShowNat(b), t, ShowNat(c));
    text := RunPrint(code, e, interp);
  }

  lemma Spell(word: string, a: string, s: string, b: string, t: string, c: string)
    ensures word + " " + a + s + b + t + c == word + (" " + (a + (s + (b + (t + c)))))
  {
  }

  lemma TreeMeans(a: nat, s: string, b: nat, t: string, c: nat)
    requires s in OPERATORS && t in OPERATORS && !(Binds(s) == 3 == Binds(t))
    requires (Divides(s) ==> b > 0) && (Divides(t) ==> c > 0) && Wf(Tree(a, s, b, t, c))
    ensures S.Eval(Abs(Tree(a, s, b, t, c)), map[]) == S.Value(Grouped(a, s, b, t, c), false)
  {
    TreeOk(a, s, b, t, c);
    Levels(s);
    var x, y, z := S.Num(a), S.Num(b), S.Num(c);
    assert S.Eval(x, map[]).v == a && S.Eval(y, map[]).v == b && S.Eval(z, map[]).v == c;
    if Binds(t) > Binds(s) {
      MeansValue(t, y, z, map[]);
      MeansValue(s, x, S.Bin(OpOf(t), y, z), map[]);
    } else {
      Nonnegative(s, a, b);
      MeansValue(s, x, y, map[]);
      MeansValue(t, S.Bin(OpOf(s), x, y), z, map[]);
    }
  }

  // ----- comments and separators -----

  /** A comment line, then blanks and separators. */
  function Preamble(note: string, gap: string): string { "#" + note + "\n" + gap }

  lemma {:induction false} LineGoes(note: string, rest: string)
    requires '\n' !in note && '\0' !in note
    ensures DropLine(note + ("\n" + rest)) == "\n" + rest
  {
    var s := note + ("\n" + rest);
    if note != "" {
      LineGoes(note[1..], rest);
      assert s[0] == note[0] && s[1..] == note[1..] + ("\n" + rest);
    } else {
      assert s == "\n" + rest;
    }
  }

  lemma {:induction false} GapIsLayout(gap: string)
    requires forall i | 0 <= i < |gap| :: gap[i] in " \t\r\n;"
    ensures Layout(gap, GAP)
  {
    if gap != "" {
      assert gap[0] in " \t\r\n;";
      GapIsLayout(gap[1..]);
    }
  }

  lemma PreambleIsLayout(note: string, gap: string)
    requires '\n' !in note && '\0' !in note && forall i | 0 <= i < |gap| :: gap[i] in " \t\r\n;"
    ensures Layout(Preamble(note, gap), GAP)
  {
    var text := Preamble(note, gap);
    LineGoes(note, gap);
    assert text[1..] == note + ("\n" + gap);
    GapIsLayout(gap);
    assert ("\n" + gap)[1..] == gap;
    assert Layout("\n" + gap, GAP);
  }

  /** A comment, blanks, newlines and semicolons in front of a program do not matter. */
  method RunCommented(note: string, gap: string, p: S.Prog, interp: I.Interp)
    requires LegalProg(p) && '\n' !in note && '\0' !in note && forall i | 0 <= i < |gap| :: gap[i] in " \t\r\n;"
    modifies interp
    ensures interp.St() == S.ExecProg(p, S.State(map[], old(interp.out), false))
  {
    hide DropLine, Skip, Layout, LastLayout, StmtText, WfStmt, AbsStmt, S.ExecProg;
    ghost var b := ShowProg(p);
    var code := "#" + note + "\n" + gap + BlockText(ShowProg(p), "");
    ghost var pre := Preamble(note, gap + "\n");
    ghost var longer := if b.End? then End(pre) else b.(gap := pre);
    PreambleIsLayout(note, gap + "\n");
    ProgOk(p, "");
    ProgSturdy(p);
    Lasts(pre);
    assert b.gap == "\n";
    assert code == BlockText(longer, "");
    assert WfBlock(longer, "") && AbsBlock(longer, "") == AbsBlock(b, "");
    SturdyBlockInStep(longer, "", S.State(map[], interp.out, false));
    interp.Run(code, longer);
  }

  lemma {:induction false} Lasts(b: string)
    requires Layout(b, GAP)
    ensures LastLayout(b, GAP)
    decreases |b|
  {
    if b != "" { Lasts(if b[0] in GAP then b[1..] else DropLine(b[1..])); }
  }
}
