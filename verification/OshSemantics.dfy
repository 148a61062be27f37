/** The osh script language as abstract syntax, with an ordinary big-step semantics.
    Nothing here knows about source text, the parser or its execution flag. */
module OshSemantics {
  import opened Decimal

  const MAX_VARS: nat := 32
  const ITER_LIMIT: nat := 1000000

  datatype Op = Mul | Div | Mod | Add | Sub | Eq | Ne | Lt | Gt | Le | Ge | And | Or

  datatype Ast =
    | Num(n: nat)
    | Var(name: string)
    | Neg(arg: Ast)
    | Not(arg: Ast)
    | Bin(op: Op, left: Ast, right: Ast)

  datatype Item = Str(text: string) | Expr(e: Ast)
  datatype Items = NoItems | Items(head: Item, tail: Items)

  datatype Stmt =
    | Assign(name: string, e: Ast)
    | Discard(e: Ast)
    | Print(items: Items)
    | If(cond: Ast, thn: Prog, els: Prog)
    | While(cond: Ast, body: Prog)
  datatype Prog = Skip | Seq(head: Stmt, tail: Prog)

  type Env = map<string, int>

  /** The value of an expression, and whether an unset variable was read or a division by zero met on
      the way; either counts as 0. */
  datatype Value = Value(v: int, err: bool)

  function Bool(b: bool): int { if b then 1 else 0 }

  /** Division as C defines it: the quotient is truncated toward zero. */
  function Quot(a: int, b: int): (q: int)
    requires b != 0
  {
    if a >= 0 then a / b else -((-a) / b)
  }

  function Rem(a: int, b: int): (r: int)
    requires b != 0
  {
    a - b * Quot(a, b)
  }

  /** Together they are C's `/` and `%`: the remainder is smaller than the divisor and takes
      the dividend's sign. */
  lemma QuotRemTruncate(a: int, b: int)
    requires b != 0
    ensures a == b * Quot(a, b) + Rem(a, b)
    ensures -Abs(b) < Rem(a, b) < Abs(b)
    ensures a >= 0 ==> Rem(a, b) >= 0
    ensures a <= 0 ==> Rem(a, b) <= 0
  {
    var m := Abs(a);
    Euclid(m, b);
    var q := m / b;
    Opposite(b, q);
  }

  lemma Euclid(m: nat, b: int)
    requires b != 0
    ensures 0 <= m - b * (m / b) < Abs(b)
  {
  }

  lemma Opposite(b: int, q: int)
    ensures b * -q == -(b * q)
  {
  }

  function Abs(n: int): int { if n < 0 then -n else n }

  function Apply(op: Op, l: int, r: int): int
    requires op.Div? || op.Mod? ==> r != 0
  {
    match op
    case Mul => l * r
    case Div => Quot(l, r)
    case Mod => Rem(l, r)
    case Add => l + r
    case Sub => l - r
    case Eq => Bool(l == r)
    case Ne => Bool(l != r)
    case Lt => Bool(l < r)
    case Gt => Bool(l > r)
    case Le => Bool(l <= r)
    case Ge => Bool(l >= r)
    case And => Bool(l != 0 && r != 0)
    case Or => Bool(l != 0 || r != 0)
  }

  /** Does the left operand alone decide the result? */
  predicate Decides(op: Op, l: int) {
    (op.And? && l == 0) || (op.Or? && l != 0)
  }

  function Eval(a: Ast, env: Env): Value {
    match a
    case Num(n) => Value(n, false)
    case Var(x) =>
      if x == "true" then Value(1, false)
      else if x == "false" then Value(0, false)
      else if x in env then Value(env[x], false)
      else Value(0, true)
    case Neg(b) => var r := Eval(b, env); Value(-r.v, r.err)
    case Not(b) => var r := Eval(b, env); Value(Bool(r.v == 0), r.err)
    case Bin(op, b, c) =>
      var l := Eval(b, env);
      if Decides(op, l.v) then Value(Bool(op.Or?), l.err)
      else
        var r := Eval(c, env);
        if ByZero(op, r.v) then Value(0, true) else Value(Apply(op, l.v, r.v), l.err || r.err)
  }

  predicate ByZero(op: Op, r: int) { (op.Div? || op.Mod?) && r == 0 }

  lemma EvalBin(op: Op, a: Ast, b: Ast, env: Env)
    ensures var l, r, both := Eval(a, env), Eval(b, env), Eval(Bin(op, a, b), env);
      if Decides(op, l.v) then both == Value(Bool(op.Or?), l.err)
      else if ByZero(op, r.v) then both == Value(0, true)
      else both == Value(Apply(op, l.v, r.v), l.err || r.err)
  {
  }

  /** What a script can observe: its variables, its output, and whether an error stopped it. */
  datatype State = State(env: Env, out: string, err: bool)

  function Store(env: Env, x: string, v: int): (r: (Env, bool)) {
    if x in env || |env| < MAX_VARS then (env[x := v], false) else (env, true)
  }

  /** The state after evaluating an expression. */
  function After(st: State, r: Value): State { st.(err := st.err || r.err) }

  function PrintItem(item: Item, st: State): State {
    match item
    case Str(s) => st.(out := st.out + s)
    case Expr(e) => var r := Eval(e, st.env); After(st.(out := st.out + ShowInt(r.v)), r)
  }

  /** Printed items are separated by one space. */
  function ExecItems(items: Items, st: State, first: bool): State {
    match items
    case NoItems => st.(out := st.out + "\n")
    case Items(item, more) =>
      ExecItems(more, PrintItem(item, if first then st else st.(out := st.out + " ")), false)
  }

  function Exec(s: Stmt, st: State): State
    decreases s, 0
  {
    match s
    case Assign(x, e) =>
      var r := Eval(e, st.env);
      var (env, full) := Store(st.env, x, r.v);
      State(env, st.out, st.err || r.err || full)
    case Discard(e) => After(st, Eval(e, st.env))
    case Print(items) => ExecItems(items, st, true)
    case If(c, t, f) =>
      var r := Eval(c, st.env);
      var st1 := After(st, r);
      if r.v != 0 then ExecProg(t, st1)
      else if st1.err then st1
      else ExecProg(f, st1)
    case While(c, body) => ExecWhile(c, body, st, 0)
  }

  /** Statements run in order until one leaves the error flag set. */
  function ExecProg(p: Prog, st: State): State
    decreases p, 0
  {
    match p
    case Skip => st
    case Seq(s, rest) =>
      var st1 := Exec(s, st);
      if st1.err then st1 else ExecProg(rest, st1)
  }

  /** `iter` body executions are behind us; going past the cap is an error. */
  function ExecWhile(c: Ast, body: Prog, st: State, iter: nat): State
    requires iter <= ITER_LIMIT
    decreases body, 1 + ITER_LIMIT - iter
  {
    var r := Eval(c, st.env);
    var st1 := After(st, r);
    if r.v == 0 then st1
    else
      var st2 := ExecProg(body, st1);
      if st2.err then st2
      else if iter == ITER_LIMIT then st2.(err := true)
      else ExecWhile(c, body, st2, iter + 1)
  }
}
