/** Concrete syntax of osh: trees that carry their own layout, the text they stand for, the
    abstract syntax they mean, and when such a text is well formed.

    `Text(e, rest)` is the text of `e` followed by `rest`; the conditions on `rest` say that the
    text ends where the tree ends. */
module OshSyntax {
  import opened Decimal
  import opened OshLexis
  import S = OshSemantics

  // Binding strength, loosest first: || && comparison +- */% and unary.
  const OR := 1
  const AND := 2
  const CMP := 3
  const ADD := 4
  const MUL := 5
  const UNARY := 6

  datatype Expr =
    | Num(pre: string, digits: string)
    | Var(pre: string, name: string)
    | Paren(pre: string, inner: Expr, post: string)
    | Neg(pre: string, arg: Expr)
    | Not(pre: string, arg: Expr)
    | Chain(level: nat, first: Expr, tail: Tail)

  /** The `(op operand)*` part of one grammar rule. */
  datatype Tail = Done | Link(pre: string, op: S.Op, right: Expr, more: Tail)

  datatype Args = NoArgs | StrArg(pre: string, text: string, more: Args) | ExprArg(e: Expr, more: Args)

  datatype Stmt =
    | Assign(name: string, pre: string, e: Expr)
    | Discard(e: Expr)
    | Print(args: Args)
    | If(cond: Expr, open: string, body: Block, els: Else)
    | While(cond: Expr, open: string, body: Block)
  datatype Else = NoElse | Else(pre: string, open: string, body: Block)
  datatype Block = End(gap: string) | Then(gap: string, head: Stmt, tail: Block)

  function LevelOf(op: S.Op): nat {
    match op
    case Mul | Div | Mod => MUL
    case Add | Sub => ADD
    case Eq | Ne | Lt | Gt | Le | Ge => CMP
    case And => AND
    case Or => OR
  }

  function Sym(op: S.Op): (s: string)
    ensures 1 <= |s| <= 2
  {
    match op
    case Mul => "*"
    case Div => "/"
    case Mod => "%"
    case Add => "+"
    case Sub => "-"
    case Eq => "=="
    case Ne => "!="
    case Lt => "<"
    case Gt => ">"
    case Le => "<="
    case Ge => ">="
    case And => "&&"
    case Or => "||"
  }

  // ----- text -----

  function Text(e: Expr, rest: string): string {
    match e
    case Num(pre, digits) => pre + (digits + rest)
    case Var(pre, name) => pre + (name + rest)
    case Paren(pre, inner, post) => pre + ("(" + Text(inner, post + (")" + rest)))
    case Neg(pre, arg) => pre + ("-" + Text(arg, rest))
    case Not(pre, arg) => pre + ("!" + Text(arg, rest))
    case Chain(_, first, tail) => Text(first, TailText(tail, rest))
  }

  function TailText(t: Tail, rest: string): string {
    match t
    case Done => rest
    case Link(pre, op, right, more) => pre + (Sym(op) + Text(right, TailText(more, rest)))
  }

  function ArgsText(a: Args, rest: string): string {
    match a
    case NoArgs => rest
    case StrArg(pre, text, more) => pre + ("\"" + (text + ("\"" + ArgsText(more, rest))))
    case ExprArg(e, more) => Text(e, ArgsText(more, rest))
  }

  function StmtText(s: Stmt, rest: string): string
    decreases s, 0
  {
    match s
    case Assign(x, pre, e) => x + (pre + ("=" + Text(e, rest)))
    case Discard(e) => Text(e, rest)
    case Print(args) => "print" + ArgsText(args, rest)
    case If(c, open, body, els) => "if" + Text(c, BodyText(open, body, ElseText(els, rest)))
    case While(c, open, body) => "while" + Text(c, BodyText(open, body, rest))
  }

  function BodyText(open: string, body: Block, rest: string): string
    decreases body, 1
  {
    open + ("{" + BlockText(body, "}" + rest))
  }

  function ElseText(els: Else, rest: string): string
    decreases els, 0
  {
    match els
    case NoElse => rest
    case Else(pre, open, body) => pre + ("else" + BodyText(open, body, rest))
  }

  function BlockText(b: Block, rest: string): string
    decreases b, 0
  {
    match b
    case End(gap) => gap + rest
    case Then(gap, s, more) => gap + StmtText(s, BlockText(more, rest))
  }

  // ----- meaning -----

  function Abs(e: Expr): S.Ast
    requires Wf(e)
    decreases e
  {
    match e
    case Num(_, digits) => S.Num(Value(digits))
    case Var(_, x) => S.Var(x)
    case Paren(_, inner, _) => Abs(inner)
    case Neg(_, arg) => S.Neg(Abs(arg))
    case Not(_, arg) => S.Not(Abs(arg))
    case Chain(level, first, tail) => AbsTail(Abs(first), tail, level)
  }

  /** Operators of one level associate to the left. */
  function AbsTail(acc: S.Ast, t: Tail, level: nat): S.Ast
    requires WfTail(t, level)
    decreases t
  {
    match t
    case Done => acc
    case Link(_, op, right, more) => AbsTail(S.Bin(op, acc, Abs(right)), more, level)
  }

  function AbsArgs(a: Args, rest: string): S.Items
    requires WfArgs(a, rest)
  {
    match a
    case NoArgs => S.NoItems
    case StrArg(_, text, more) => S.Items(S.Str(text), AbsArgs(more, rest))
    case ExprArg(e, more) => S.Items(S.Expr(Abs(e)), AbsArgs(more, rest))
  }

  function AbsStmt(s: Stmt, rest: string): S.Stmt
    requires WfStmt(s, rest)
  {
    match s
    case Assign(x, _, e) => S.Assign(x, Abs(e))
    case Discard(e) => S.Discard(Abs(e))
    case Print(args) => S.Print(AbsArgs(args, rest))
    case If(c, _, body, els) =>
      S.If(Abs(c), AbsBlock(body, "}" + ElseText(els, rest)), AbsElse(els, rest))
    case While(c, _, body) => S.While(Abs(c), AbsBlock(body, "}" + rest))
  }

  function AbsElse(els: Else, rest: string): S.Prog
    requires WfElse(els, rest)
  {
    match els
    case NoElse => S.Skip
    case Else(_, _, body) => AbsBlock(body, "}" + rest)
  }

  function AbsBlock(b: Block, rest: string): S.Prog
    requires WfBlock(b, rest)
  {
    match b
    case End(_) => S.Skip
    case Then(_, s, more) => S.Seq(AbsStmt(s, BlockText(more, rest)), AbsBlock(more, rest))
  }

  // ----- well-formedness -----

  function Rank(e: Expr): nat { if e.Chain? then e.level else UNARY }

  predicate Wf(e: Expr) {
    match e
    case Num(pre, digits) => Blank(pre) && digits != "" && AllDigits(digits)
    case Var(pre, x) => Blank(pre) && IsName(x)
    case Paren(pre, inner, post) => Blank(pre) && Wf(inner) && Layout(post, BLANK_NL)
    case Neg(pre, arg) => Blank(pre) && Wf(arg) && !arg.Chain?
    case Not(pre, arg) => Blank(pre) && Wf(arg) && !arg.Chain?
    case Chain(level, first, tail) =>
      && OR <= level <= MUL
      && Wf(first) && Rank(first) > level
      && tail.Link? && WfTail(tail, level)
      && (level == CMP ==> tail.more.Done?)
  }

  predicate WfTail(t: Tail, level: nat) {
    match t
    case Done => true
    case Link(pre, op, right, more) =>
      Blank(pre) && LevelOf(op) == level && Wf(right) && Rank(right) > level && WfTail(more, level)
  }

  /** An operator of this level is next, as the parser recognises it. */
  predicate OpAt(level: nat, t: string) {
    if level == MUL then Peek(t) in {'*', '/', '%'}
    else if level == ADD then Peek(t) in {'+', '-'}
    else if level == CMP then
      "==" <= t || "!=" <= t || "<=" <= t || ">=" <= t ||
      (Peek(t) == '<' && Peek2(t) != '<') || (Peek(t) == '>' && Peek2(t) != '>')
    else if level == AND then "&&" <= t
    else level == OR && "||" <= t
  }

  /** After blanks, no operator of this level or a tighter one comes next. */
  predicate Stops(level: nat, s: string) {
    forall l | level <= l <= MUL :: !OpAt(l, Skip(s, BLANK))
  }

  /** The last token of `e` does not run on into `rest`. */
  predicate NoGlue(e: Expr, rest: string) {
    match e
    case Num(_, _) => !IsDigit(Peek(rest))
    case Var(_, _) => !IsAlnum(Peek(rest))
    case Paren(_, _, _) => true
    case Neg(_, arg) => NoGlue(arg, rest)
    case Not(_, arg) => NoGlue(arg, rest)
    case Chain(_, first, tail) => if tail.Done? then NoGlue(first, rest) else NoGlueTail(tail, rest)
  }

  predicate NoGlueTail(t: Tail, rest: string)
    requires t.Link?
  {
    if t.more.Done? then NoGlue(t.right, rest) else NoGlueTail(t.more, rest)
  }

  /** `rest` neither continues the expression `e` nor its last token. */
  predicate Ends(e: Expr, level: nat, rest: string) {
    Stops(level, rest) && NoGlue(e, rest)
  }

  /** The layout in front of the first token. */
  function Lead(e: Expr): string {
    match e
    case Chain(_, first, _) => Lead(first)
    case _ => e.pre
  }

  /** An assignment sign comes next. */
  predicate AssignAt(s: string) {
    Peek(Skip(s, BLANK)) == '=' && Peek2(Skip(s, BLANK)) != '='
  }

  const STMT_END: set<char> := {'\0', '\n', ';', '}'}

  /** Strings have no escapes: everything up to the closing quote. */
  predicate Quotable(text: string) { forall i | 0 <= i < |text| :: text[i] != '"' && text[i] != '\0' }

  predicate WfArgs(a: Args, rest: string) {
    match a
    case NoArgs => Peek(Skip(rest, BLANK)) in STMT_END
    case StrArg(pre, text, more) => Blank(pre) && Quotable(text) && WfArgs(more, rest)
    case ExprArg(e, more) => Wf(e) && Ends(e, OR, ArgsText(more, rest)) && WfArgs(more, rest)
  }

  predicate WfStmt(s: Stmt, rest: string) {
    match s
    case Assign(x, pre, e) => IsName(x) && Blank(pre) && Wf(e) && Ends(e, OR, rest)
    case Discard(e) => Wf(e) && Lead(e) == "" && Ends(e, OR, rest) && !AssignAt(rest)
    case Print(args) => !IsAlnum(Peek(ArgsText(args, rest))) && WfArgs(args, rest)
    case If(c, open, body, els) =>
      && Wf(c) && !IsAlnum(Peek(Text(c, BodyText(open, body, ElseText(els, rest)))))
      && Layout(open, BLANK_NL) && WfBlock(body, "}" + ElseText(els, rest)) && WfElse(els, rest)
    case While(c, open, body) =>
      && Wf(c) && !IsAlnum(Peek(Text(c, BodyText(open, body, rest))))
      && Layout(open, BLANK_NL) && WfBlock(body, "}" + rest)
  }

  predicate WfElse(els: Else, rest: string) {
    match els
    case NoElse => !KwAt("else", Skip(rest, BLANK_NL))
    case Else(pre, open, body) =>
      Layout(pre, BLANK_NL) && Layout(open, BLANK_NL) && WfBlock(body, "}" + rest)
  }

  /** Statements with gaps around them; a block that ends the text may end in a bare comment. */
  predicate WfBlock(b: Block, rest: string) {
    match b
    case End(gap) => if rest == "" then LastLayout(gap, GAP) else Layout(gap, GAP)
    case Then(gap, s, more) =>
      Layout(gap, GAP) && WfStmt(s, BlockText(more, rest)) && WfBlock(more, rest)
  }

  // ----- how texts begin and where they stop -----

  predicate StartChar(c: char) { IsAlnum(c) || c in {'(', '-', '!'} }

  /** The text of an operand after its leading blanks. */
  function Bare(e: Expr, rest: string): string
    requires !e.Chain?
  {
    match e
    case Num(_, digits) => digits + rest
    case Var(_, x) => x + rest
    case Paren(_, inner, post) => "(" + Text(inner, post + (")" + rest))
    case Neg(_, arg) => "-" + Text(arg, rest)
    case Not(_, arg) => "!" + Text(arg, rest)
  }

  /** The first token tells the constructor. */
  lemma Lexeme(e: Expr, rest: string)
    requires Wf(e) && !e.Chain?
    ensures Text(e, rest) == e.pre + Bare(e, rest)
    ensures Skip(Text(e, rest), BLANK) == Bare(e, rest)
    ensures e.Num? <==> IsDigit(Peek(Bare(e, rest)))
    ensures e.Var? <==> IsAlpha(Peek(Bare(e, rest)))
    ensures e.Paren? <==> Peek(Bare(e, rest)) == '('
    ensures e.Neg? <==> Peek(Bare(e, rest)) == '-'
    ensures e.Not? <==> Peek(Bare(e, rest)) == '!'
  {
    SkipBlank(e.pre, Bare(e, rest));
    SkipStays(Bare(e, rest), BLANK);
  }

  /** An expression's text is its leading blanks and then a character only expressions start with. */
  lemma {:induction false} Starts(e: Expr, rest: string)
    requires Wf(e)
    ensures Text(e, rest) == Lead(e) + Skip(Text(e, rest), BLANK)
    ensures StartChar(Peek(Skip(Text(e, rest), BLANK)))
    ensures Blank(Lead(e))
  {
    if e.Chain? {
      Starts(e.first, TailText(e.tail, rest));
    } else {
      Lexeme(e, rest);
    }
  }

  lemma FirstChar(e: Expr, rest: string)
    requires Wf(e)
    ensures Peek(Text(e, rest)) in BLANK || StartChar(Peek(Text(e, rest)))
    ensures Lead(e) == "" ==> StartChar(Peek(Text(e, rest)))
  {
    Starts(e, rest);
    if Lead(e) == "" {
      assert Text(e, rest) == Skip(Text(e, rest), BLANK);
    }
  }

  /** An operator in front of an operand is seen at its own level and at no other. */
  lemma OpShape(op: S.Op, x: string, l: nat)
    requires Peek(x) in BLANK || StartChar(Peek(x))
    requires OR <= l <= MUL
    ensures OpAt(l, Sym(op) + x) <==> l == LevelOf(op)
    ensures !IsAlnum(Peek(Sym(op) + x)) && Peek(Sym(op) + x) !in BLANK && Peek(Sym(op) + x) != '#'
  {
    var t := Sym(op) + x;
    assert t[0] == Sym(op)[0];
    assert |Sym(op)| == 2 ==> t[1] == Sym(op)[1];
    assert |Sym(op)| == 1 && x != "" ==> t[1] == x[0];
  }

  /** After the operand before it, a link's text is its operator and right operand. */
  lemma LinkText(t: Tail, level: nat, rest: string)
    requires t.Link? && WfTail(t, level)
    ensures Skip(TailText(t, rest), BLANK) == Sym(t.op) + Text(t.right, TailText(t.more, rest))
    ensures !IsAlnum(Peek(TailText(t, rest)))
    ensures forall l | OR <= l <= MUL :: OpAt(l, Skip(TailText(t, rest), BLANK)) <==> l == level
  {
    var x := Text(t.right, TailText(t.more, rest));
    FirstChar(t.right, TailText(t.more, rest));
    forall l: nat | OR <= l <= MUL
      ensures OpAt(l, Sym(t.op) + x) <==> l == level
    {
      OpShape(t.op, x, l);
    }
    OpShape(t.op, x, level);
    SkipBlank(t.pre, Sym(t.op) + x);
    SkipStays(Sym(t.op) + x, BLANK);
    if t.pre == "" {
      assert TailText(t, rest) == Sym(t.op) + x;
    }
  }

  lemma {:induction false} NoGlueSafe(e: Expr, s: string)
    requires !IsAlnum(Peek(s))
    ensures NoGlue(e, s)
  {
    match e
    case Neg(_, arg) => NoGlueSafe(arg, s);
    case Not(_, arg) => NoGlueSafe(arg, s);
    case Chain(_, first, tail) => if tail.Done? { NoGlueSafe(first, s); } else { NoGlueTailSafe(tail, s); }
    case _ =>
  }

  lemma {:induction false} NoGlueTailSafe(t: Tail, s: string)
    requires t.Link? && !IsAlnum(Peek(s))
    ensures NoGlueTail(t, s)
  {
    if t.more.Done? { NoGlueSafe(t.right, s); } else { NoGlueTailSafe(t.more, s); }
  }

  /** An operand of a chain ends where the next link, or the text after the chain, begins. */
  lemma LinkEnds(e: Expr, t: Tail, level: nat, rest: string)
    requires OR <= level <= MUL && WfTail(t, level)
    requires Stops(level, rest)
    requires if t.Done? then NoGlue(e, rest) else NoGlueTail(t, rest)
    ensures Ends(e, level + 1, TailText(t, rest))
  {
    if t.Link? {
      LinkText(t, level, rest);
      NoGlueSafe(e, TailText(t, rest));
    }
  }

  /** Layout before a closing or opening bracket ends an expression. */
  lemma LayoutEnds(e: Expr, b: string, c: char, rest: string)
    requires Layout(b, BLANK_NL) && c in {')', '{'}
    ensures Ends(e, OR, b + ([c] + rest))
    ensures Skip(b + ([c] + rest), BLANK_NL) == [c] + rest
  {
    LayoutStops(b, c, rest);
    SkipLayout(b, [c] + rest, BLANK_NL);
    SkipStays([c] + rest, BLANK_NL);
    if b == "" { assert b + ([c] + rest) == [c] + rest; }
    NoGlueSafe(e, b + ([c] + rest));
  }

  lemma {:induction false} LayoutStops(b: string, c: char, rest: string)
    requires Layout(b, BLANK_NL) && c in {')', '{'}
    ensures Peek(Skip(b + ([c] + rest), BLANK)) in {'\n', c}
    decreases |b|
  {
    var s := b + ([c] + rest);
    if b == "" {
      assert s == [c] + rest;
      SkipStays(s, BLANK);
    } else if b[0] in BLANK {
      LayoutStops(b[1..], c, rest);
      assert s[1..] == b[1..] + ([c] + rest);
    } else if b[0] == '#' {
      DropLineConcat(b[1..], [c] + rest);
      assert s[1..] == b[1..] + ([c] + rest);
      LayoutStops(DropLine(b[1..]), c, rest);
    }
  }

  // ----- taking trees apart along the grammar -----

  function Size(e: Expr): nat {
    match e
    case Num(_, _) | Var(_, _) => 1
    case Paren(_, inner, _) => 1 + Size(inner)
    case Neg(_, arg) => 1 + Size(arg)
    case Not(_, arg) => 1 + Size(arg)
    case Chain(_, first, tail) => 1 + Size(first) + TailSize(tail)
  }

  function TailSize(t: Tail): nat {
    match t
    case Done => 0
    case Link(_, _, right, more) => 1 + Size(right) + TailSize(more)
  }

  /** What the rule of one level reads first, and the links it reads after that. */
  function Head(e: Expr, level: nat): Expr { if e.Chain? && e.level == level then e.first else e }
  function Links(e: Expr, level: nat): Tail { if e.Chain? && e.level == level then e.tail else Done }

  /** The rule of `level` has read the part of `e` that means `acc`; `links` is what it has yet to
      read of `e`, and `prev` the operand it read last. */
  ghost predicate Upto(e: Expr, level: nat, rest: string, acc: S.Ast, prev: Expr, links: Tail)
    requires Wf(e)
  {
    && OR <= level <= MUL
    && WfTail(links, level) && AbsTail(acc, links, level) == Abs(e)
    && (links.Link? ==> TailSize(links) < Size(e))
    && Stops(level, rest) && (if links.Done? then NoGlue(prev, rest) else NoGlueTail(links, rest))
  }

  lemma Parts(e: Expr, level: nat, rest: string)
    requires Wf(e) && OR <= level <= MUL && Rank(e) >= level && Ends(e, level, rest)
    ensures var h, t := Head(e, level), Links(e, level);
      && Wf(h) && Rank(h) >= level + 1 && Size(h) <= Size(e)
      && Text(e, rest) == Text(h, TailText(t, rest))
      && Ends(h, level + 1, TailText(t, rest))
      && Upto(e, level, rest, Abs(h), h, t)
  {
    LinkEnds(Head(e, level), Links(e, level), level, rest);
  }

  /** An operator of the level comes next exactly when a link does. */
  lemma OpNext(e: Expr, level: nat, rest: string, acc: S.Ast, prev: Expr, links: Tail)
    requires Wf(e) && Upto(e, level, rest, acc, prev, links)
    ensures OpAt(level, Skip(TailText(links, rest), BLANK)) <==> links.Link?
    ensures links.Done? ==> acc == Abs(e) && TailText(links, rest) == rest
  {
    if links.Link? { LinkText(links, level, rest); }
  }

  /** Two readings of one text as a comparison operator and what follows it agree. */
  lemma SameComparison(a: S.Op, x: string, b: S.Op, y: string)
    requires LevelOf(a) == CMP && LevelOf(b) == CMP
    requires Sym(a) + x == Sym(b) + y
    requires |Sym(a)| == 2 || Peek(x) != '='
    requires |Sym(b)| == 2 || Peek(y) != '='
    ensures a == b && x == y
  {
    var t := Sym(a) + x;
    assert t[0] == Sym(a)[0] == Sym(b)[0];
    assert |Sym(a)| == 2 ==> t[1] == Sym(a)[1];
    assert |Sym(b)| == 2 ==> t[1] == Sym(b)[1];
    assert |Sym(a)| == 1 && x != "" ==> t[1] == x[0];
    assert |Sym(b)| == 1 && y != "" ==> t[1] == y[0];
    if |Sym(a)| == |Sym(b)| {
      assert t[..|Sym(a)|] == Sym(a) == Sym(b);
      assert t[|Sym(a)|..] == x == y;
    } else {
      assert false;
    }
  }

  /** Comparisons do not chain. */
  lemma OneComparison(e: Expr)
    requires Wf(e) && Links(e, CMP).Link?
    ensures Links(e, CMP).more == Done
  {
  }

  /** Reading one more link. */
  lemma NextLink(e: Expr, level: nat, rest: string, acc: S.Ast, prev: Expr, links: Tail)
    requires Wf(e) && Upto(e, level, rest, acc, prev, links) && links.Link?
    ensures var after := TailText(links.more, rest);
      && Wf(links.right) && Rank(links.right) >= level + 1 && Size(links.right) < Size(e)
      && TailSize(links.more) < TailSize(links)
      && Sym(links.op) <= Skip(TailText(links, rest), BLANK)
      && Skip(TailText(links, rest), BLANK)[|Sym(links.op)|..] == Text(links.right, after)
      && LevelOf(links.op) == level && Ends(links.right, level + 1, after)
      && Upto(e, level, rest, S.Bin(links.op, acc, Abs(links.right)), links.right, links.more)
  {
    LinkText(links, level, rest);
    LinkEnds(links.right, links.more, level, rest);
  }

  /** The operators of one character: which one it is shows at once. */
  lemma OneCharOp(level: nat, links: Tail, t: string)
    requires level == MUL || level == ADD
    requires OpAt(level, t) <==> links.Link?
    requires links.Link? ==> LevelOf(links.op) == level && Sym(links.op) <= t
    ensures links.Link? <==> (if level == MUL then Peek(t) in {'*', '/', '%'} else Peek(t) in {'+', '-'})
    ensures links.Link? ==> Sym(links.op) == [Peek(t)] && !links.op.And? && !links.op.Or?
  {
  }

  lemma LogicalOp(level: nat, links: Tail, t: string)
    requires level == AND || level == OR
    requires OpAt(level, t) <==> links.Link?
    requires links.Link? ==> LevelOf(links.op) == level && Sym(links.op) <= t
    ensures links.Link? <==> (if level == AND then "&&" <= t else "||" <= t)
    ensures links.Link? ==> |Sym(links.op)| == 2 && (if level == AND then links.op.And? else links.op.Or?)
  {
  }

  /** The comparison operator that was read is the one of the tree, and its operand comes next. */
  lemma ComparisonRead(e: Expr, rest: string, acc: S.Ast, prev: Expr, links: Tail, op: S.Op, t: string)
    requires Wf(e) && Upto(e, CMP, rest, acc, prev, links) && links.Link? && links == Links(e, CMP)
    requires LevelOf(op) == CMP && Skip(TailText(links, rest), BLANK) == Sym(op) + t
    requires |Sym(op)| == 2 || Peek(t) != '='
    ensures op == links.op && t == Text(links.right, rest) && TailText(links.more, rest) == rest
    ensures Abs(e) == S.Bin(op, acc, Abs(links.right))
    ensures op.Eq? || op.Ne? || op.Lt? || op.Gt? || op.Le? || op.Ge?
  {
    hide Text, TailText, Wf, WfTail, Abs, AbsTail, Upto, Stops, NoGlue, Skip, Size, TailSize;
    NextLink(e, CMP, rest, acc, prev, links);
    OneComparison(e);
    OpNext(e, CMP, rest, S.Bin(links.op, acc, Abs(links.right)), links.right, links.more);
    FirstChar(links.right, rest);
    var text := Skip(TailText(links, rest), BLANK);
    assert text == Sym(links.op) + text[|Sym(links.op)|..];
    SameComparison(op, t, links.op, Text(links.right, rest));
  }

  // ----- statements -----

  function StmtSize(s: Stmt): nat {
    match s
    case Assign(_, _, _) | Discard(_) | Print(_) => 1
    case If(_, _, body, els) => 1 + BlockSize(body) + ElseSize(els)
    case While(_, _, body) => 1 + BlockSize(body)
  }

  function ElseSize(els: Else): nat {
    match els
    case NoElse => 0
    case Else(_, _, body) => 1 + BlockSize(body)
  }

  function BlockSize(b: Block): nat {
    match b
    case End(_) => 0
    case Then(_, s, more) => 1 + StmtSize(s) + BlockSize(more)
  }

  /** The first operand of an expression, and the text after that operand. */
  function LeadAtom(e: Expr): (a: Expr)
    ensures !a.Chain?
    ensures Wf(e) ==> Wf(a)
  {
    if e.Chain? then LeadAtom(e.first) else e
  }
  function AfterLead(e: Expr, rest: string): string {
    if e.Chain? then AfterLead(e.first, TailText(e.tail, rest)) else rest
  }

  lemma {:induction false} LeadText(e: Expr, rest: string)
    ensures Text(e, rest) == Text(LeadAtom(e), AfterLead(e, rest))
    ensures Lead(e) == LeadAtom(e).pre
  {
    if e.Chain? { LeadText(e.first, TailText(e.tail, rest)); }
  }

  /** An expression that begins with a name does not look like an assignment. */
  lemma {:induction false} LeadName(e: Expr, rest: string)
    requires Wf(e) && LeadAtom(e).Var? && NoGlue(e, rest) && !AssignAt(rest)
    ensures !IsAlnum(Peek(AfterLead(e, rest))) && !AssignAt(AfterLead(e, rest))
  {
    if e.Chain? {
      var t := TailText(e.tail, rest);
      LinkText(e.tail, e.level, rest);
      OpIsNoAssign(e.tail, e.level, rest);
      NoGlueSafe(e.first, t);
      LeadName(e.first, t);
    }
  }

  lemma OpIsNoAssign(t: Tail, level: nat, rest: string)
    requires t.Link? && WfTail(t, level)
    ensures !AssignAt(TailText(t, rest))
  {
    LinkText(t, level, rest);
    var x := Text(t.right, TailText(t.more, rest));
    var s := Sym(t.op) + x;
    assert s[0] == Sym(t.op)[0];
    assert |Sym(t.op)| == 2 ==> s[1] == Sym(t.op)[1];
  }

  /** A statement's text starts with a character no gap contains and no block ends with. */
  lemma StmtStarts(s: Stmt, rest: string)
    requires WfStmt(s, rest)
    ensures var c := Peek(StmtText(s, rest)); c !in GAP && c != '#' && c !in STMT_END
  {
    match s
    case Discard(e) => FirstChar(e, rest);
    case Assign(x, pre, e) =>
    case Print(args) =>
    case If(c, open, body, els) =>
    case While(c, open, body) =>
  }

  /** The keyword at the start of a statement's text tells its kind. */
  lemma StmtKeyword(s: Stmt, rest: string)
    requires WfStmt(s, rest)
    ensures KwAt("print", StmtText(s, rest)) <==> s.Print?
    ensures KwAt("if", StmtText(s, rest)) <==> s.If?
    ensures KwAt("while", StmtText(s, rest)) <==> s.While?
    ensures !KwAt("else", StmtText(s, rest))
  {
    var t := StmtText(s, rest);
    match s
    case Assign(x, pre, e) => NamedStmtKeyword(x, pre + ("=" + Text(e, rest)));
    case Discard(e) =>
      LeadText(e, rest);
      var a := LeadAtom(e);
      Lexeme(a, AfterLead(e, rest));
      assert t == Bare(a, AfterLead(e, rest));
      if a.Var? {
        LeadName(e, rest);
        NamedStmtKeyword(a.name, AfterLead(e, rest));
      }
    case Print(args) => KeywordText("print", ArgsText(args, rest));
    case If(c, open, body, els) => KeywordText("if", Text(c, BodyText(open, body, ElseText(els, rest))));
    case While(c, open, body) => KeywordText("while", Text(c, BodyText(open, body, rest)));
  }

  lemma NamedStmtKeyword(x: string, t: string)
    requires IsName(x) && !IsAlnum(Peek(t))
    ensures forall kw | kw in KEYWORDS :: !KwAt(kw, x + t)
  {
    forall kw | kw in KEYWORDS ensures !KwAt(kw, x + t) { NameIsNoKeyword(x, t, kw); }
  }

  lemma KeywordText(kw: string, t: string)
    requires kw in {"print", "if", "while"} && !IsAlnum(Peek(t))
    ensures KwAt(kw, kw + t) && (kw + t)[|kw|..] == t
    ensures forall k | k in KEYWORDS && k != kw :: !KwAt(k, kw + t)
  {
    assert (kw + t)[|kw|..] == t;
    assert (kw + t)[0] == kw[0];
  }

  lemma LastArg(a: Args, rest: string)
    requires a.NoArgs?
    ensures ArgsText(a, rest) == rest
  {
  }

  /** What the next printed item is shows in its first character. */
  lemma ArgStarts(a: Args, rest: string)
    requires WfArgs(a, rest)
    ensures var t := Skip(ArgsText(a, rest), BLANK);
      && (Peek(t) in STMT_END <==> a.NoArgs?)
      && (Peek(t) == '"' <==> a.StrArg?)
      && (a.StrArg? ==> t[1..] == a.text + ("\"" + ArgsText(a.more, rest)))
  {
    match a
    case NoArgs =>
    case StrArg(pre, text, more) =>
      var t := "\"" + (text + ("\"" + ArgsText(more, rest)));
      SkipBlank(pre, t);
      SkipStays(t, BLANK);
    case ExprArg(e, more) => Starts(e, ArgsText(more, rest));
  }

  /** Past the gap, a block goes on with a statement's text or with what comes after the block. */
  lemma BlockStarts(b: Block, rest: string)
    requires WfBlock(b, rest) && (rest == "" || rest[0] == '}')
    ensures var t := Skip(BlockText(b, rest), GAP);
      && t == (if b.End? then rest else StmtText(b.head, BlockText(b.tail, rest)))
      && Skip(t, BLANK_NL) == t
      && (b.Then? ==> Peek(t) !in STMT_END)
  {
    match b
    case End(gap) =>
      if rest == "" {
        assert gap + rest == gap;
        SkipLastLayout(gap, GAP);
      } else {
        SkipLayout(gap, rest, GAP);
        SkipStays(rest, GAP);
      }
    case Then(gap, s, more) =>
      var t := StmtText(s, BlockText(more, rest));
      SkipLayout(gap, t, GAP);
      StmtStarts(s, BlockText(more, rest));
      SkipStays(t, GAP);
      SkipStays(t, BLANK_NL);
  }

  /** After a condition comes its block. */
  lemma BodyStarts(c: Expr, open: string, body: Block, rest: string)
    requires Layout(open, BLANK_NL)
    ensures Ends(c, OR, BodyText(open, body, rest))
    ensures Skip(Skip(BodyText(open, body, rest), BLANK), BLANK_NL) == "{" + BlockText(body, "}" + rest)
  {
    var t := BlockText(body, "}" + rest);
    assert "{" + t == ['{'] + t;
    LayoutEnds(c, open, '{', t);
    SkipSkip(BodyText(open, body, rest), BLANK, BLANK_NL);
  }

  /** After a block, `else` is seen exactly when there is an else branch. */
  lemma ElseStarts(els: Else, rest: string)
    requires WfElse(els, rest)
    ensures var t := Skip(ElseText(els, rest), BLANK_NL);
      && (KwAt("else", t) <==> els.Else?)
      && (els.Else? ==> Skip(t[4..], BLANK_NL) == "{" + BlockText(els.body, "}" + rest))
      && (els.NoElse? ==> Skip(t, GAP) == Skip(rest, GAP))
  {
    match els
    case NoElse => SkipSkip(rest, BLANK_NL, GAP);
    case Else(pre, open, body) =>
      var b := BodyText(open, body, rest);
      SkipLayout(pre, "else" + b, BLANK_NL);
      SkipStays("else" + b, BLANK_NL);
      assert ("else" + b)[4..] == b;
      BodyStarts(Num("", "0"), open, body, rest);
      SkipSkip(b, BLANK, BLANK_NL);
      LayoutHead(open, "{" + BlockText(body, "}" + rest));
  }

  lemma LayoutHead(b: string, t: string)
    requires Layout(b, BLANK_NL) && !IsAlnum(Peek(t))
    ensures !IsAlnum(Peek(b + t))
  {
    if b == "" { assert b + t == t; }
  }

  /** What the look-ahead for an assignment finds after the name it has read. */
  lemma NamedStart(s: Stmt, rest: string, name: string, after: string)
    requires WfStmt(s, rest) && (s.Assign? || s.Discard?)
    requires StmtText(s, rest) == name + after && IsIdent(name)
    requires |name| == 15 || !IsAlnum(Peek(after))
    ensures AssignAt(after) <==> s.Assign?
    ensures s.Assign? ==> name == s.name && Skip(after, BLANK)[1..] == Text(s.e, rest)
  {
    match s
    case Assign(x, pre, e) =>
      var t := "=" + Text(e, rest);
      IdentUnique(name, after, x, pre + t);
      SkipBlank(pre, t);
      FirstChar(e, rest);
      SkipStays(t, BLANK);
    case Discard(e) =>
      LeadText(e, rest);
      var a := LeadAtom(e);
      Lexeme(a, AfterLead(e, rest));
      LeadName(e, rest);
      IdentUnique(name, after, a.name, AfterLead(e, rest));
  }
}
