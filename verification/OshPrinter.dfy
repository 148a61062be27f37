/** Every program has a text: a printer from abstract syntax to concrete syntax that adds the parentheses
    precedence needs, and some around divisions that would not be the last of their chain. Its output means
    what was printed and keeps the interpreter in step. Together with `Interp.Run` this says that running a
    program's text is running the program. */
module OshPrinter {
  import opened Decimal
  import opened OshLexis
  import opened OshSteps
  import opened OshSyntax
  import S = OshSemantics
  import I = OshInterp

  /** Names fit the table and are no keywords; strings have no quotes in them. */
  predicate Legal(a: S.Ast) {
    match a
    case Num(_) => true
    case Var(x) => IsName(x)
    case Neg(b) => Legal(b)
    case Not(b) => Legal(b)
    case Bin(_, l, r) => Legal(l) && Legal(r)
  }

  predicate LegalItems(items: S.Items) {
    match items
    case NoItems => true
    case Items(Str(text), more) => Quotable(text) && LegalItems(more)
    case Items(Expr(e), more) => Legal(e) && LegalItems(more)
  }

  predicate LegalStmt(s: S.Stmt) {
    match s
    case Assign(x, e) => IsName(x) && Legal(e)
    case Discard(e) => Legal(e)
    case Print(items) => LegalItems(items)
    case If(c, t, f) => Legal(c) && LegalProg(t) && LegalProg(f)
    case While(c, body) => Legal(c) && LegalProg(body)
  }

  predicate LegalProg(p: S.Prog) {
    match p
    case Skip => true
    case Seq(s, more) => LegalStmt(s) && LegalProg(more)
  }

  // ----- expressions -----

  function Append(t: Tail, op: S.Op, right: Expr): (r: Tail)
    ensures r.Link?
  {
    match t
    case Done => Link(" ", op, right, Done)
    case Link(pre, o, e, more) => Link(pre, o, e, Append(more, op, right))
  }

  function Join(left: Expr, op: S.Op, right: Expr): Expr {
    if left.Chain? && left.level == LevelOf(op)
    then Chain(left.level, left.first, Append(left.tail, op, right))
    else Chain(LevelOf(op), left, Link(" ", op, right, Done))
  }

  /** How tightly the left operand of `op` has to bind: a division in a longer chain gets parentheses. */
  function LeftMin(op: S.Op, l: S.Ast): nat {
    if LevelOf(op) == CMP then ADD
    else if LevelOf(op) == MUL && l.Bin? && (l.op.Div? || l.op.Mod?) then UNARY
    else LevelOf(op)
  }

  /** `a` after the blanks `pre`, in parentheses if it binds looser than `min`. */
  function Show(a: S.Ast, pre: string, min: nat): Expr {
    match a
    case Num(n) => Num(pre, ShowNat(n))
    case Var(x) => Var(pre, x)
    case Neg(b) => Neg(pre, Show(b, "", UNARY))
    case Not(b) => Not(pre, Show(b, "", UNARY))
    case Bin(op, l, r) =>
      var level := LevelOf(op);
      var inner := Join(Show(l, if level < min then "" else pre, LeftMin(op, l)), op, Show(r, " ", level + 1));
      if level < min then Paren(pre, inner, "") else inner
  }

  lemma {:induction false} AppendOk(acc: S.Ast, t: Tail, op: S.Op, right: Expr)
    requires WfTail(t, LevelOf(op)) && Wf(right) && Rank(right) > LevelOf(op)
    ensures WfTail(Append(t, op, right), LevelOf(op))
    ensures AbsTail(acc, Append(t, op, right), LevelOf(op)) == S.Bin(op, AbsTail(acc, t, LevelOf(op)), Abs(right))
    decreases t
  {
    if t.Link? { AppendOk(S.Bin(t.op, acc, Abs(t.right)), t.more, op, right); }
  }

  lemma JoinOk(left: Expr, op: S.Op, right: Expr)
    requires Wf(left) && Rank(left) >= (if LevelOf(op) == CMP then ADD else LevelOf(op))
    requires Wf(right) && Rank(right) > LevelOf(op)
    ensures var e := Join(left, op, right);
      Wf(e) && Rank(e) == LevelOf(op) && Abs(e) == S.Bin(op, Abs(left), Abs(right)) && Lead(e) == Lead(left)
  {
    if left.Chain? && left.level == LevelOf(op) {
      AppendOk(Abs(left.first), left.tail, op, right);
    } else {
      AppendOk(Abs(left), Done, op, right);
    }
  }

  /** The printed expression is well formed, binds tightly enough, and means `a`. */
  lemma {:induction false} ShowOk(a: S.Ast, pre: string, min: nat)
    requires Legal(a) && Blank(pre) && min <= UNARY
    ensures var e := Show(a, pre, min); Wf(e) && Rank(e) >= min && Abs(e) == a && Lead(e) == pre
    decreases a
  {
    match a
    case Num(n) => ValueOfShow(n);
    case Var(x) =>
    case Neg(b) => ShowOk(b, "", UNARY);
    case Not(b) => ShowOk(b, "", UNARY);
    case Bin(op, l, r) =>
      var level := LevelOf(op);
      var left, lmin := if level < min then "" else pre, LeftMin(op, l);
      ShowOk(l, left, lmin);
      ShowOk(r, " ", level + 1);
      JoinOk(Show(l, left, lmin), op, Show(r, " ", level + 1));
  }

  // ----- statements -----

  function ShowItems(items: S.Items): Args {
    match items
    case NoItems => NoArgs
    case Items(Str(text), more) => StrArg(" ", text, ShowItems(more))
    case Items(Expr(e), more) => ExprArg(Paren(" ", Show(e, "", OR), ""), ShowItems(more))
  }

  function ShowStmt(s: S.Stmt): Stmt {
    match s
    case Assign(x, e) => Assign(x, " ", Show(e, " ", OR))
    case Discard(e) => Discard(Show(e, "", OR))
    case Print(items) => Print(ShowItems(items))
    case If(c, t, f) => If(Show(c, " ", OR), " ", ShowProg(t), if f.Skip? then NoElse else Else(" ", " ", ShowProg(f)))
    case While(c, body) => While(Show(c, " ", OR), " ", ShowProg(body))
  }

  /** One statement to a line. */
  function ShowProg(p: S.Prog): Block {
    match p
    case Skip => End("\n")
    case Seq(s, more) => Then("\n", ShowStmt(s), ShowProg(more))
  }

  /** A new line ends any expression. */
  lemma LineEnds(e: Expr, rest: string)
    requires Peek(rest) == '\n'
    ensures Ends(e, OR, rest) && !AssignAt(rest) && Skip(rest, BLANK) == rest
  {
    SkipStays(rest, BLANK);
    NoGlueSafe(e, rest);
  }

  lemma QuietStart(t: string)
    requires Peek(Skip(t, BLANK)) in {'"', '(', '\n'}
    ensures Stops(OR, t)
  {
  }

  lemma {:induction false} ItemsOk(items: S.Items, rest: string)
    requires LegalItems(items) && Peek(rest) == '\n'
    ensures WfArgs(ShowItems(items), rest) && AbsArgs(ShowItems(items), rest) == items
    ensures Peek(ArgsText(ShowItems(items), rest)) in {' ', '\n'}
    ensures Stops(OR, ArgsText(ShowItems(items), rest))
  {
    hide Stops, Show, Text, Wf, Abs, Skip;
    var t := ArgsText(ShowItems(items), rest);
    match items
    case NoItems =>
      SkipStays(rest, BLANK);
      QuietStart(t);
    case Items(item, more) =>
      ItemsOk(more, rest);
      var after := ArgsText(ShowItems(more), rest);
      if item.Expr? {
        ShowOk(item.e, "", OR);
        ParenOk(Show(item.e, "", OR));
        ParenStarts(Show(item.e, "", OR), after);
      } else {
        StringStarts(item.text, after);
      }
      QuietStart(t);
  }

  lemma ParenOk(e: Expr)
    requires Wf(e)
    ensures Wf(Paren(" ", e, "")) && Abs(Paren(" ", e, "")) == Abs(e)
  {
  }

  lemma ParenStarts(e: Expr, after: string)
    ensures var t := Text(Paren(" ", e, ""), after); Peek(t) == ' ' && Peek(Skip(t, BLANK)) == '('
  {
    var inner := "(" + Text(e, "" + (")" + after));
    SkipLayout(" ", inner, BLANK);
    SkipStays(inner, BLANK);
  }

  lemma StringStarts(text: string, after: string)
    ensures var t := " " + ("\"" + (text + ("\"" + after))); Peek(t) == ' ' && Peek(Skip(t, BLANK)) == '"'
  {
    var quoted := "\"" + (text + ("\"" + after));
    SkipLayout(" ", quoted, BLANK);
    SkipStays(quoted, BLANK);
  }

  lemma {:induction false} StmtOk(s: S.Stmt, rest: string)
    requires LegalStmt(s) && Peek(rest) == '\n' && !KwAt("else", Skip(rest, BLANK_NL))
    ensures WfStmt(ShowStmt(s), rest) && AbsStmt(ShowStmt(s), rest) == s
    decreases s
  {
    hide Show, Skip, Stops, NoGlue, Wf, Abs, Text;
    match s
    case Assign(x, e) => ShowOk(e, " ", OR); LineEnds(Show(e, " ", OR), rest);
    case Discard(e) => ShowOk(e, "", OR); LineEnds(Show(e, "", OR), rest);
    case Print(items) => ItemsOk(items, rest);
    case If(c, t, f) =>
      ShowOk(c, " ", OR);
      var st := ShowStmt(s);
      Starts(st.cond, BodyText(" ", st.body, ElseText(st.els, rest)));
      ProgOk(t, "}" + ElseText(st.els, rest));
      ProgOk(f, "}" + rest);
    case While(c, body) =>
      ShowOk(c, " ", OR);
      Starts(Show(c, " ", OR), BodyText(" ", ShowProg(body), rest));
      ProgOk(body, "}" + rest);
  }

  /** The printed program is well formed and means `p`. */
  lemma {:induction false} ProgOk(p: S.Prog, rest: string)
    requires LegalProg(p) && (rest == "" || rest[0] == '}')
    ensures WfBlock(ShowProg(p), rest) && AbsBlock(ShowProg(p), rest) == p
    ensures Peek(BlockText(ShowProg(p), rest)) == '\n'
    ensures !KwAt("else", Skip(BlockText(ShowProg(p), rest), BLANK_NL))
    decreases p
  {
    var b := ShowProg(p);
    match p
    case Skip =>
      SkipLayout("\n", rest, BLANK_NL);
      SkipStays(rest, BLANK_NL);
    case Seq(s, more) =>
      ProgOk(more, rest);
      var after := BlockText(b.tail, rest);
      StmtOk(s, after);
      StmtStarts(b.head, after);
      StmtKeyword(b.head, after);
      SkipLayout("\n", StmtText(b.head, after), BLANK_NL);
      SkipStays(StmtText(b.head, after), BLANK_NL);
  }

  // ----- in step -----

  function LastOp(t: Tail): S.Op
    requires t.Link?
  {
    if t.more.Done? then t.op else LastOp(t.more)
  }

  lemma {:induction false} AppendSturdy(t: Tail, op: S.Op, right: Expr)
    requires SturdyTail(t) && Sturdy(right) && (t.Link? ==> !LastOp(t).Div? && !LastOp(t).Mod?)
    ensures SturdyTail(Append(t, op, right)) && LastOp(Append(t, op, right)) == op
  {
    if t.Link? { AppendSturdy(t.more, op, right); }
  }

  /** The printed expression has no division in the middle of a chain. */
  lemma {:induction false} ShowSturdy(a: S.Ast, pre: string, min: nat)
    ensures var e := Show(a, pre, min);
      Sturdy(e) && (e.Chain? ==> a.Bin? && e.level == LevelOf(a.op) && e.tail.Link? && LastOp(e.tail) == a.op)
    decreases a
  {
    match a
    case Num(n) =>
    case Var(x) =>
    case Neg(b) => ShowSturdy(b, "", UNARY);
    case Not(b) => ShowSturdy(b, "", UNARY);
    case Bin(op, l, r) =>
      var lead := if LevelOf(op) < min then "" else pre;
      var left, right := Show(l, lead, LeftMin(op, l)), Show(r, " ", LevelOf(op) + 1);
      ShowSturdy(l, lead, LeftMin(op, l));
      ShowSturdy(r, " ", LevelOf(op) + 1);
      if left.Chain? && left.level == LevelOf(op) { DivInParens(op, l, lead); }
      JoinSturdy(left, op, right);
  }

  lemma JoinSturdy(left: Expr, op: S.Op, right: Expr)
    requires Sturdy(left) && Sturdy(right)
    requires left.Chain? && left.level == LevelOf(op) ==>
      left.tail.Link? && !LastOp(left.tail).Div? && !LastOp(left.tail).Mod?
    ensures var e := Join(left, op, right);
      Sturdy(e) && e.Chain? && e.level == LevelOf(op) && e.tail.Link? && LastOp(e.tail) == op
  {
    if left.Chain? && left.level == LevelOf(op) {
      AppendSturdy(left.tail, op, right);
    } else {
      AppendSturdy(Done, op, right);
      assert Append(Done, op, right) == Link(" ", op, right, Done);
    }
  }

  lemma DivInParens(op: S.Op, l: S.Ast, pre: string)
    requires l.Bin? && LevelOf(l.op) == LevelOf(op) && Show(l, pre, LeftMin(op, l)).Chain?
    ensures !l.op.Div? && !l.op.Mod?
  {
  }

  lemma {:induction false} ItemsSturdy(items: S.Items)
    ensures SturdyArgs(ShowItems(items))
  {
    match items
    case NoItems =>
    case Items(item, more) =>
      ItemsSturdy(more);
      if item.Expr? { ShowSturdy(item.e, "", OR); }
  }

  lemma {:induction false} StmtSturdy(s: S.Stmt)
    ensures SturdyStmt(ShowStmt(s))
  {
    match s
    case Assign(x, e) => ShowSturdy(e, " ", OR);
    case Discard(e) => ShowSturdy(e, "", OR);
    case Print(items) => ItemsSturdy(items);
    case If(c, t, f) => ShowSturdy(c, " ", OR); ProgSturdy(t); ProgSturdy(f);
    case While(c, body) => ShowSturdy(c, " ", OR); ProgSturdy(body);
  }

  lemma {:induction false} ProgSturdy(p: S.Prog)
    ensures SturdyBlock(ShowProg(p))
  {
    match p
    case Skip =>
    case Seq(s, more) => StmtSturdy(s); ProgSturdy(more);
  }

  /** Every program: interpreting its text gives exactly the variables, the output and the error flag of
      its big-step semantics. */
  method RunPrinted(p: S.Prog, interp: I.Interp)
    requires LegalProg(p)
    modifies interp
    ensures interp.St() == S.ExecProg(p, S.State(map[], old(interp.out), false))
  {
    ProgOk(p, "");
    ProgSturdy(p);
    SturdyBlockInStep(ShowProg(p), "", S.State(map[], interp.out, false));
    interp.Run(BlockText(ShowProg(p), ""), ShowProg(p));
  }
}
