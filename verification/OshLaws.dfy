/** What osh programs mean, said without the evaluator: laws between expressions, between statements, and
    what `print` writes. */
module OshLaws {
  import opened Decimal
  import opened OshSemantics

  // ----- printing -----

  /** `text` is how an item appears: a string as it is, an expression as the numeral of its value. */
  predicate ItemShows(item: Item, env: Env, text: string) {
    match item
    case Str(s) => text == s
    case Expr(e) => Canonical(text) && IntValue(text) == Eval(e, env).v
  }

  predicate Shows(items: Items, env: Env, texts: seq<string>) {
    match items
    case NoItems => texts == []
    case Items(item, more) => texts != [] && ItemShows(item, env, texts[0]) && Shows(more, env, texts[1..])
  }

  /** Texts with one space between them. */
  function Spaced(texts: seq<string>): string {
    if texts == [] then "" else if |texts| == 1 then texts[0] else texts[0] + " " + Spaced(texts[1..])
  }

  lemma ItemShown(item: Item, st: State) returns (text: string)
    ensures ItemShows(item, st.env, text)
    ensures PrintItem(item, st).out == st.out + text && PrintItem(item, st).env == st.env
  {
    hide Eval, ShowInt;
    if item.Expr? {
      text := ShowInt(Eval(item.e, st.env).v);
      ReadShown(Eval(item.e, st.env).v);
    } else {
      text := item.text;
    }
  }

  lemma JoinShown(out: string, sep: string, text: string, rest: seq<string>)
    ensures out + sep + text + (if rest == [] then "" else " ") + Spaced(rest) + "\n"
            == out + sep + Spaced([text] + rest) + "\n"
  {
    assert ([text] + rest)[1..] == rest;
  }

  lemma {:induction false} ItemsShow(items: Items, st: State, first: bool) returns (texts: seq<string>)
    ensures Shows(items, st.env, texts)
    ensures ExecItems(items, st, first).out ==
            st.out + (if first || texts == [] then "" else " ") + Spaced(texts) + "\n"
    ensures ExecItems(items, st, first).env == st.env
    decreases items
  {
    match items
    case NoItems =>
      texts := [];
    case Items(item, more) =>
      hide PrintItem, ItemShows, Spaced;
      var st1 := if first then st else st.(out := st.out + " ");
      var sep := if first then "" else " ";
      var st2 := PrintItem(item, st1);
      var text := ItemShown(item, st1);
      assert st1.out == st.out + sep;
      var rest := ItemsShow(more, st2, false);
      texts := [text] + rest;
      assert texts[0] == text && texts[1..] == rest;
      JoinShown(st.out, sep, text, rest);
  }

  /** `print` writes its items with a space between them and a newline at the end; a number is written so
      that reading it gives the value of the expression. */
  lemma PrintShows(items: Items, st: State) returns (texts: seq<string>)
    ensures Shows(items, st.env, texts)
    ensures Exec(Print(items), st).out == st.out + Spaced(texts) + "\n"
    ensures Exec(Print(items), st).env == st.env
  {
    texts := ItemsShow(items, st, true);
    assert st.out + "" == st.out;
  }

  // ----- expressions -----

  /** The same value, and an error in the same environments. */
  ghost predicate Same(a: Ast, b: Ast) { forall env :: Eval(a, env) == Eval(b, env) }

  /** The comparisons are each other's negations and mirror images. */
  lemma Comparisons(a: Ast, b: Ast)
    ensures Same(Not(Bin(Lt, a, b)), Bin(Ge, a, b)) && Same(Not(Bin(Gt, a, b)), Bin(Le, a, b))
    ensures Same(Not(Bin(Eq, a, b)), Bin(Ne, a, b))
    ensures Same(Bin(Lt, a, b), Bin(Gt, b, a)) && Same(Bin(Le, a, b), Bin(Ge, b, a))
    ensures Same(Bin(Eq, a, b), Bin(Eq, b, a))
  {
    forall env ensures
      && Eval(Not(Bin(Lt, a, b)), env) == Eval(Bin(Ge, a, b), env)
      && Eval(Not(Bin(Gt, a, b)), env) == Eval(Bin(Le, a, b), env)
      && Eval(Not(Bin(Eq, a, b)), env) == Eval(Bin(Ne, a, b), env)
      && Eval(Bin(Lt, a, b), env) == Eval(Bin(Gt, b, a), env)
      && Eval(Bin(Le, a, b), env) == Eval(Bin(Ge, b, a), env)
      && Eval(Bin(Eq, a, b), env) == Eval(Bin(Eq, b, a), env)
    {
      EvalNot(Bin(Lt, a, b), env);
      EvalNot(Bin(Gt, a, b), env);
      EvalNot(Bin(Eq, a, b), env);
      hide Eval;
      Compares(Lt, a, b, env);
      Compares(Gt, a, b, env);
      Compares(Le, a, b, env);
      Compares(Ge, a, b, env);
      Compares(Eq, a, b, env);
      Compares(Ne, a, b, env);
      Compares(Gt, b, a, env);
      Compares(Ge, b, a, env);
      Compares(Eq, b, a, env);
    }
  }

  lemma Compares(op: Op, a: Ast, b: Ast, env: Env)
    requires op in {Lt, Gt, Le, Ge, Eq, Ne}
    ensures var l, r := Eval(a, env), Eval(b, env);
      Eval(Bin(op, a, b), env) == Value(Apply(op, l.v, r.v), l.err || r.err)
  {
    EvalBin(op, a, b, env);
  }

  lemma EvalNot(a: Ast, env: Env)
    ensures Eval(Not(a), env) == Value(Bool(Eval(a, env).v == 0), Eval(a, env).err)
  {
  }

  /** Less is what becomes more by adding, and equal is what has no difference. */
  lemma ComparisonsMean(a: Ast, b: Ast, env: Env)
    ensures Eval(Bin(Lt, a, b), env).v == 1 <==> Eval(Bin(Sub, b, a), env).v > 0
    ensures Eval(Bin(Eq, a, b), env).v == 1 <==> Eval(Bin(Sub, a, b), env).v == 0
    ensures Eval(Bin(Lt, a, b), env).v + Eval(Bin(Eq, a, b), env).v + Eval(Bin(Gt, a, b), env).v == 1
    ensures Eval(Bin(Lt, a, Bin(Add, a, Num(1))), env).v == 1
  {
    assert Eval(Num(1), env).v == 1;
    hide Eval;
    Compares(Lt, a, b, env);
    Compares(Eq, a, b, env);
    Compares(Gt, a, b, env);
    EvalBin(Sub, a, b, env);
    EvalBin(Sub, b, a, env);
    EvalBin(Add, a, Num(1), env);
    Compares(Lt, a, Bin(Add, a, Num(1)), env);
  }

  /** Signs, and the order of operands. */
  lemma Signs(a: Ast, b: Ast)
    ensures Same(Neg(Neg(a)), a) && Same(Bin(Sub, a, b), Bin(Add, a, Neg(b)))
    ensures Same(Bin(Add, a, b), Bin(Add, b, a)) && Same(Bin(Mul, a, b), Bin(Mul, b, a))
  {
    forall env ensures
      && Eval(Neg(Neg(a)), env) == Eval(a, env)
      && Eval(Bin(Sub, a, b), env) == Eval(Bin(Add, a, Neg(b)), env)
      && Eval(Bin(Add, a, b), env) == Eval(Bin(Add, b, a), env)
      && Eval(Bin(Mul, a, b), env) == Eval(Bin(Mul, b, a), env)
    {
      assert Eval(Neg(b), env) == Value(-Eval(b, env).v, Eval(b, env).err);
      assert Eval(Neg(Neg(a)), env) == Value(-Eval(Neg(a), env).v, Eval(Neg(a), env).err);
      hide Eval;
      EvalBin(Sub, a, b, env);
      EvalBin(Add, a, Neg(b), env);
      EvalBin(Add, a, b, env);
      EvalBin(Add, b, a, env);
      EvalBin(Mul, a, b, env);
      EvalBin(Mul, b, a, env);
    }
  }

  /** Subtracting undoes adding, and a product is a repeated sum. */
  lemma Sums(a: Ast, b: Ast, env: Env)
    ensures Eval(Bin(Sub, Bin(Add, a, b), b), env).v == Eval(a, env).v
  {
    hide Eval;
    EvalBin(Add, a, b, env);
    EvalBin(Sub, Bin(Add, a, b), b, env);
  }

  lemma Products(a: Ast, b: Ast, env: Env)
    ensures Eval(Bin(Mul, a, Bin(Add, b, Num(1))), env).v == Eval(Bin(Add, Bin(Mul, a, b), a), env).v
    ensures Eval(Bin(Mul, a, Num(0)), env).v == 0
  {
    Leaves(1, "", env);
    Leaves(0, "", env);
    hide Eval;
    var x, y := Eval(a, env).v, Eval(b, env).v;
    EvalBin(Add, b, Num(1), env);
    EvalBin(Mul, a, Bin(Add, b, Num(1)), env);
    EvalBin(Mul, a, b, env);
    EvalBin(Add, Bin(Mul, a, b), a, env);
    EvalBin(Mul, a, Num(0), env);
    Distributes(x, y);
  }

  lemma Distributes(x: int, y: int)
    ensures x * (y + 1) == x * y + x
  {
  }

  /** Quotient and remainder give the dividend back; dividing by zero is an error. */
  lemma Division(a: Ast, b: Ast, env: Env)
    ensures Eval(b, env).v != 0 ==>
              Eval(Bin(Add, Bin(Mul, Bin(Div, a, b), b), Bin(Mod, a, b)), env).v == Eval(a, env).v
    ensures Eval(b, env).v == 0 ==> Eval(Bin(Div, a, b), env).err && Eval(Bin(Mod, a, b), env).err
  {
    hide Eval, Quot, Rem;
    var q, m := Bin(Div, a, b), Bin(Mod, a, b);
    EvalBin(Div, a, b, env);
    EvalBin(Mod, a, b, env);
    EvalBin(Mul, q, b, env);
    EvalBin(Add, Bin(Mul, q, b), m, env);
    var l, r := Eval(a, env).v, Eval(b, env).v;
    if r != 0 {
      QuotRemTruncate(l, r);
      Commutes(Quot(l, r), r);
    }
  }

  lemma Commutes(x: int, y: int)
    ensures x * y == y * x
  {
  }

  /** `&&` and `||` are each other's duals, errors included, and look at the right side only when the left
      leaves the answer open. */
  lemma Connectives(a: Ast, b: Ast, env: Env)
    ensures Same(Not(Bin(And, a, b)), Bin(Or, Not(a), Not(b)))
    ensures Same(Not(Bin(Or, a, b)), Bin(And, Not(a), Not(b)))
    ensures Eval(Bin(And, a, b), env).v == 1 <==> Eval(a, env).v != 0 && Eval(b, env).v != 0
    ensures Eval(Bin(And, a, b), env).v in {0, 1} && Eval(Not(a), env).v in {0, 1}
    ensures Eval(Bin(And, a, b), env).err <==> Eval(a, env).err || (Eval(a, env).v != 0 && Eval(b, env).err)
    ensures Eval(Not(a), env).v == 1 <==> Eval(a, env).v == 0
  {
  }

  // ----- statements -----

  /** An assigned variable has the value of the expression and the others keep theirs; nothing is printed. The
      assignment fails exactly when the expression does or the table is full. */
  lemma Assigned(x: string, e: Ast, st: State, y: string)
    requires !st.err && x !in {"true", "false"}
    ensures var st1 := Exec(Assign(x, e), st);
      && st1.out == st.out
      && (st1.err <==> Eval(e, st.env).err || (x !in st.env && |st.env| >= 32))
      && (!st1.err ==> Eval(Var(x), st1.env) == Value(Eval(e, st.env).v, false))
      && (y != x ==> Eval(Var(y), st1.env) == Eval(Var(y), st.env))
  {
    var r, st1 := Eval(e, st.env), Exec(Assign(x, e), st);
    Stored(st.env, x, r.v, y);
    assert st1 == State(Store(st.env, x, r.v).0, st.out, st.err || r.err || Store(st.env, x, r.v).1);
  }

  lemma Stored(env: Env, x: string, v: int, y: string)
    requires x !in {"true", "false"}
    ensures Store(env, x, v).1 <==> x !in env && |env| >= 32
    ensures !Store(env, x, v).1 ==> Eval(Var(x), Store(env, x, v).0) == Value(v, false)
    ensures y != x ==> Eval(Var(y), Store(env, x, v).0) == Eval(Var(y), env)
  {
  }

  /** Numbers are themselves; a variable that was never set counts as zero and is an error. */
  lemma Leaves(n: nat, x: string, env: Env)
    ensures Eval(Num(n), env) == Value(n, false)
    ensures x !in env && x !in {"true", "false"} ==> Eval(Var(x), env) == Value(0, true)
  {
  }

  /** The names for truth cannot be changed. */
  lemma Constants(env: Env)
    ensures Eval(Var("true"), env) == Value(1, false) && Eval(Var("false"), env) == Value(0, false)
  {
  }

  /** An error in an expression is an error of the statement it is in: a discarded or printed expression, or a
      condition, which takes no branch if it counts as zero and ends the loop. */
  lemma ErrorsShow(e: Ast, more: Items, t: Prog, f: Prog, st: State)
    requires !st.err
    ensures Exec(Discard(e), st) == State(st.env, st.out, Eval(e, st.env).err)
    ensures Eval(e, st.env).err ==> Exec(Print(Items(Expr(e), more)), st).err
    ensures Eval(e, st.env) == Value(0, true) ==>
              Exec(If(e, t, f), st) == st.(err := true) == Exec(While(e, t), st)
  {
    assert PrintItem(Expr(e), st).err == Eval(e, st.env).err;
    ItemsKeepErrors(more, PrintItem(Expr(e), st), false);
  }

  lemma {:induction false} ItemsKeepErrors(items: Items, st: State, first: bool)
    ensures st.err ==> ExecItems(items, st, first).err
    decreases items
  {
    match items
    case NoItems =>
    case Items(item, more) =>
      ItemsKeepErrors(more, PrintItem(item, if first then st else st.(out := st.out + " ")), false);
  }

  /** Negating a condition and exchanging the branches means the same, unless the condition fails. */
  lemma IfNot(c: Ast, t: Prog, f: Prog, st: State)
    requires !st.err && !Eval(c, st.env).err
    ensures Exec(If(Not(c), t, f), st) == Exec(If(c, f, t), st)
    ensures Eval(c, st.env).v != 0 ==> Exec(If(c, t, f), st) == ExecProg(t, st)
  {
    assert Eval(Not(c), st.env) == Value(Bool(Eval(c, st.env).v == 0), false);
    assert After(st, Eval(c, st.env)) == st == After(st, Eval(Not(c), st.env));
  }

  function Cat(p: Prog, q: Prog): Prog {
    match p
    case Skip => q
    case Seq(s, rest) => Seq(s, Cat(rest, q))
  }

  /** Programs one after the other, up to the first error. */
  lemma {:induction false} InOrder(p: Prog, q: Prog, st: State)
    requires !st.err
    ensures var st1 := ExecProg(p, st);
      ExecProg(Cat(p, q), st) == if st1.err then st1 else ExecProg(q, st1)
    decreases p
  {
    match p
    case Skip =>
    case Seq(s, rest) => if !Exec(s, st).err { InOrder(rest, q, Exec(s, st)); }
  }

  /** The states between the rounds of a loop: the condition held before every round, and no round failed. */
  ghost predicate Rounds(c: Ast, body: Prog, states: seq<State>) {
    && states != []
    && (forall i | 0 <= i < |states| :: !states[i].err)
    && forall i | 0 < i < |states| :: Round(c, body, states[i - 1], states[i])
  }

  ghost predicate Round(c: Ast, body: Prog, s: State, t: State) {
    var r := Eval(c, s.env);
    r.v != 0 && !r.err && t == ExecProg(body, s)
  }

  lemma {:induction false} LoopFrom(c: Ast, body: Prog, states: seq<State>, iter: nat)
    requires Rounds(c, body, states) && iter + |states| - 1 <= ITER_LIMIT
    ensures ExecWhile(c, body, states[0], iter) == ExecWhile(c, body, states[|states| - 1], iter + |states| - 1)
    decreases |states|
  {
    if |states| > 1 {
      var rest := states[1..];
      forall i | 0 < i < |rest| ensures Round(c, body, rest[i - 1], rest[i]) {
        assert Round(c, body, states[i + 1 - 1], states[i + 1]);
      }
      assert Round(c, body, states[1 - 1], states[1]);
      assert After(states[0], Eval(c, states[0].env)) == states[0];
      LoopFrom(c, body, rest, iter + 1);
    }
  }

  /** A loop is its rounds until the condition is zero. */
  lemma LoopEnds(c: Ast, body: Prog, states: seq<State>)
    requires Rounds(c, body, states) && |states| - 1 <= 1000000
    requires Eval(c, states[|states| - 1].env) == Value(0, false)
    ensures Exec(While(c, body), states[0]) == states[|states| - 1]
  {
    LoopFrom(c, body, states, 0);
  }

  /** A loop that would go on for more than a million rounds stops with an error after one more. */
  lemma LoopCapped(c: Ast, body: Prog, states: seq<State>)
    requires Rounds(c, body, states) && |states| - 1 == 1000001
    ensures Exec(While(c, body), states[0]) == states[|states| - 1].(err := true)
  {
    var n := |states| - 2;
    var most := states[..n + 1];
    assert Rounds(c, body, most);
    LoopFrom(c, body, most, 0);
    assert Round(c, body, states[n + 1 - 1], states[n + 1]);
    assert After(states[n], Eval(c, states[n].env)) == states[n];
  }
}
