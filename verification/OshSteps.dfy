/** Where the single-pass interpreter keeps its place in the text. On a division by zero it leaves the
    chain of `*`, `/` and `%` at once; if the chain goes on, what it reads next is no expression any more. So a
    run stays in step as long as every division by zero it executes is the last link of its chain. Code
    that is skipped does not matter, and neither do parentheses around a division. */
module OshSteps {
  import opened OshLexis
  import opened OshSyntax
  import S = OshSemantics

  // ----- expressions -----

  predicate InStep(e: Expr, env: S.Env)
    requires Wf(e)
    decreases e
  {
    match e
    case Num(_, _) | Var(_, _) => true
    case Paren(_, inner, _) => InStep(inner, env)
    case Neg(_, arg) => InStep(arg, env)
    case Not(_, arg) => InStep(arg, env)
    case Chain(level, first, tail) => InStep(first, env) && InStepTail(Abs(first), tail, level, env)
  }

  /** The rest of a chain whose beginning means `acc`. */
  predicate InStepTail(acc: S.Ast, t: Tail, level: nat, env: S.Env)
    requires WfTail(t, level)
    decreases t
  {
    match t
    case Done => true
    case Link(_, op, right, more) =>
      && (S.Decides(op, S.Eval(acc, env).v) || InStep(right, env))
      && (S.ByZero(op, S.Eval(Abs(right), env).v) ==> more.Done?)
      && InStepTail(S.Bin(op, acc, Abs(right)), more, level, env)
  }

  predicate Steady(acc: S.Ast, t: Tail, level: nat, env: S.Env) { WfTail(t, level) && InStepTail(acc, t, level, env) }

  /** What the rule of a level reads first. */
  lemma First(e: Expr, level: nat, rest: string, runs: bool, env: S.Env)
    requires Wf(e) && OR <= level <= MUL && Rank(e) >= level && Ends(e, level, rest)
    requires runs ==> InStep(e, env)
    ensures var h, t := Head(e, level), Links(e, level);
      && Wf(h) && Rank(h) >= level + 1 && Size(h) <= Size(e)
      && Text(e, rest) == Text(h, TailText(t, rest))
      && Ends(h, level + 1, TailText(t, rest))
      && Upto(e, level, rest, Abs(h), h, t)
      && (runs ==> InStep(h, env) && Steady(Abs(h), t, level, env))
  {
    Parts(e, level, rest);
  }

  /** What the rule of a level meets next: the end of its chain, or an operator and an operand. With
      execution on (`runs`), the operand is in step unless the left side decides, and after a division by
      zero the chain is over. */
  lemma Ahead(e: Expr, level: nat, rest: string, acc: S.Ast, prev: Expr, links: Tail, runs: bool, env: S.Env)
    requires Wf(e) && Upto(e, level, rest, acc, prev, links) && (runs ==> Steady(acc, links, level, env))
    ensures var t := Skip(TailText(links, rest), BLANK);
      && (OpAt(level, t) <==> links.Link?)
      && (level == MUL ==> (links.Link? <==> Peek(t) in {'*', '/', '%'}))
      && (level == ADD ==> (links.Link? <==> Peek(t) in {'+', '-'}))
      && (level == AND ==> (links.Link? <==> "&&" <= t))
      && (level == OR ==> (links.Link? <==> "||" <= t))
      && ((level == MUL || level == ADD) && links.Link? ==>
            Sym(links.op) == [Peek(t)] && !links.op.And? && !links.op.Or?)
      && (level == AND && links.Link? ==> links.op.And? && |Sym(links.op)| == 2)
      && (level == OR && links.Link? ==> links.op.Or? && |Sym(links.op)| == 2)
    ensures links.Done? ==> acc == Abs(e) && TailText(links, rest) == rest
    ensures links.Link? ==>
      var after := TailText(links.more, rest);
      && Wf(links.right) && Rank(links.right) >= level + 1 && Size(links.right) < Size(e)
      && TailSize(links.more) < TailSize(links)
      && Sym(links.op) <= Skip(TailText(links, rest), BLANK)
      && Skip(TailText(links, rest), BLANK)[|Sym(links.op)|..] == Text(links.right, after)
      && LevelOf(links.op) == level && Ends(links.right, level + 1, after)
      && Upto(e, level, rest, S.Bin(links.op, acc, Abs(links.right)), links.right, links.more)
    ensures links.Link? && runs ==>
      && (S.Decides(links.op, S.Eval(acc, env).v) || InStep(links.right, env))
      && Steady(S.Bin(links.op, acc, Abs(links.right)), links.more, level, env)
    ensures links.Link? && runs && S.ByZero(links.op, S.Eval(Abs(links.right), env).v) ==>
      Abs(e) == S.Bin(links.op, acc, Abs(links.right)) && TailText(links.more, rest) == rest
  {
    OpNext(e, level, rest, acc, prev, links);
    if links.Link? {
      NextLink(e, level, rest, acc, prev, links);
      OpNext(e, level, rest, S.Bin(links.op, acc, Abs(links.right)), links.right, links.more);
    }
    var t := Skip(TailText(links, rest), BLANK);
    if level == MUL || level == ADD { OneCharOp(level, links, t); }
    if level == AND || level == OR { LogicalOp(level, links, t); }
  }

  // ----- statements -----

  predicate InStepArgs(a: Args, rest: string, env: S.Env)
    requires WfArgs(a, rest)
  {
    match a
    case NoArgs => true
    case StrArg(_, _, more) => InStepArgs(more, rest, env)
    case ExprArg(e, more) => InStep(e, env) && InStepArgs(more, rest, env)
  }

  predicate InStepStmt(s: Stmt, rest: string, st: S.State)
    requires WfStmt(s, rest)
    decreases s, 0
  {
    match s
    case Assign(_, _, e) => InStep(e, st.env)
    case Discard(e) => InStep(e, st.env)
    case Print(args) => InStepArgs(args, rest, st.env)
    case If(c, _, body, els) =>
      var r := S.Eval(Abs(c), st.env);
      var st1 := S.After(st, r);
      && InStep(c, st.env)
      && if r.v != 0 then InStepBlock(body, "}" + ElseText(els, rest), st1) else st1.err || InStepElse(els, rest, st1)
    case While(c, _, body) => InStepLoop(c, body, "}" + rest, st, 0)
  }

  predicate InStepElse(els: Else, rest: string, st: S.State)
    requires WfElse(els, rest)
    decreases els, 0
  {
    els.Else? ==> InStepBlock(els.body, "}" + rest, st)
  }

  predicate InStepLoop(c: Expr, body: Block, rest: string, st: S.State, iter: nat)
    requires Wf(c) && WfBlock(body, rest) && iter <= S.ITER_LIMIT
    decreases body, 1 + S.ITER_LIMIT - iter
  {
    var r := S.Eval(Abs(c), st.env);
    var st1 := S.After(st, r);
    && InStep(c, st.env)
    && (r.v != 0 ==>
          && InStepBlock(body, rest, st1)
          && var st2 := S.ExecProg(AbsBlock(body, rest), st1);
            st2.err || iter == S.ITER_LIMIT || InStepLoop(c, body, rest, st2, iter + 1))
  }

  /** Every statement that is executed is in step. */
  predicate InStepBlock(b: Block, rest: string, st: S.State)
    requires WfBlock(b, rest)
    decreases b, 0
  {
    match b
    case End(_) => true
    case Then(_, s, more) =>
      && InStepStmt(s, BlockText(more, rest), st)
      && var st1 := S.Exec(AbsStmt(s, BlockText(more, rest)), st);
        st1.err || InStepBlock(more, rest, st1)
  }

  // ----- texts that are always in step -----

  /** No division is followed by another link of its chain. */
  predicate Sturdy(e: Expr) {
    match e
    case Num(_, _) | Var(_, _) => true
    case Paren(_, inner, _) => Sturdy(inner)
    case Neg(_, arg) => Sturdy(arg)
    case Not(_, arg) => Sturdy(arg)
    case Chain(_, first, tail) => Sturdy(first) && SturdyTail(tail)
  }

  predicate SturdyTail(t: Tail) {
    match t
    case Done => true
    case Link(_, op, right, more) => Sturdy(right) && (op.Div? || op.Mod? ==> more.Done?) && SturdyTail(more)
  }

  predicate SturdyArgs(a: Args) {
    match a
    case NoArgs => true
    case StrArg(_, _, more) => SturdyArgs(more)
    case ExprArg(e, more) => Sturdy(e) && SturdyArgs(more)
  }

  predicate SturdyStmt(s: Stmt) {
    match s
    case Assign(_, _, e) => Sturdy(e)
    case Discard(e) => Sturdy(e)
    case Print(args) => SturdyArgs(args)
    case If(c, _, body, els) => Sturdy(c) && SturdyBlock(body) && (els.Else? ==> SturdyBlock(els.body))
    case While(c, _, body) => Sturdy(c) && SturdyBlock(body)
  }

  predicate SturdyBlock(b: Block) {
    match b
    case End(_) => true
    case Then(_, s, more) => SturdyStmt(s) && SturdyBlock(more)
  }

  lemma {:induction false} SturdyInStep(e: Expr, env: S.Env)
    requires Wf(e) && Sturdy(e)
    ensures InStep(e, env)
    decreases e
  {
    match e
    case Paren(_, inner, _) => SturdyInStep(inner, env);
    case Neg(_, arg) => SturdyInStep(arg, env);
    case Not(_, arg) => SturdyInStep(arg, env);
    case Chain(level, first, tail) => SturdyInStep(first, env); SturdyTailInStep(Abs(first), tail, level, env);
    case _ =>
  }

  lemma {:induction false} SturdyTailInStep(acc: S.Ast, t: Tail, level: nat, env: S.Env)
    requires WfTail(t, level) && SturdyTail(t)
    ensures InStepTail(acc, t, level, env)
    decreases t
  {
    if t.Link? {
      SturdyInStep(t.right, env);
      SturdyTailInStep(S.Bin(t.op, acc, Abs(t.right)), t.more, level, env);
    }
  }

  lemma {:induction false} SturdyArgsInStep(a: Args, rest: string, env: S.Env)
    requires WfArgs(a, rest) && SturdyArgs(a)
    ensures InStepArgs(a, rest, env)
  {
    match a
    case NoArgs =>
    case StrArg(_, _, more) => SturdyArgsInStep(more, rest, env);
    case ExprArg(e, more) => SturdyInStep(e, env); SturdyArgsInStep(more, rest, env);
  }

  lemma {:induction false} SturdyStmtInStep(s: Stmt, rest: string, st: S.State)
    requires WfStmt(s, rest) && SturdyStmt(s)
    ensures InStepStmt(s, rest, st)
    decreases s, 0
  {
    match s
    case Assign(_, _, e) => SturdyInStep(e, st.env);
    case Discard(e) => SturdyInStep(e, st.env);
    case Print(args) => SturdyArgsInStep(args, rest, st.env);
    case If(c, _, body, els) =>
      SturdyInStep(c, st.env);
      var st1 := S.After(st, S.Eval(Abs(c), st.env));
      SturdyBlockInStep(body, "}" + ElseText(els, rest), st1);
      if els.Else? { SturdyBlockInStep(els.body, "}" + rest, st1); }
    case While(c, _, body) => SturdyLoopInStep(c, body, "}" + rest, st, 0);
  }

  lemma {:induction false} SturdyLoopInStep(c: Expr, body: Block, rest: string, st: S.State, iter: nat)
    requires Wf(c) && WfBlock(body, rest) && iter <= S.ITER_LIMIT && Sturdy(c) && SturdyBlock(body)
    ensures InStepLoop(c, body, rest, st, iter)
    decreases body, 1 + S.ITER_LIMIT - iter
  {
    SturdyInStep(c, st.env);
    var st1 := S.After(st, S.Eval(Abs(c), st.env));
    SturdyBlockInStep(body, rest, st1);
    if iter < S.ITER_LIMIT { SturdyLoopInStep(c, body, rest, S.ExecProg(AbsBlock(body, rest), st1), iter + 1); }
  }

  /** A text without such chains is in step whatever the state. */
  lemma {:induction false} SturdyBlockInStep(b: Block, rest: string, st: S.State)
    requires WfBlock(b, rest) && SturdyBlock(b)
    ensures InStepBlock(b, rest, st)
    decreases b, 0
  {
    if b.Then? {
      SturdyStmtInStep(b.head, BlockText(b.tail, rest), st);
      SturdyBlockInStep(b.tail, rest, S.Exec(AbsStmt(b.head, BlockText(b.tail, rest)), st));
    }
  }
}
