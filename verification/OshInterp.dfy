/** The single-pass interpreter: it evaluates while it reads, skips untaken code by reading it with
    `execEnabled` off, and loops by going back to a saved position. Each parsing method carries, as
    ghost arguments, the tree whose text comes next and the text after it. */
module OshInterp {
  import opened Decimal
  import opened OshLexis
  import opened OshSyntax
  import opened OshSteps
  import S = OshSemantics

  datatype Comparison = None | Cmp(op: S.Op)

  datatype Slot = Slot(name: string, value: int)

  ghost predicate Distinct(vars: seq<Slot>) {
    forall i, j | 0 <= i < j < |vars| :: vars[i].name != vars[j].name
  }

  /** The variable table as a map. */
  ghost function ToEnv(vars: seq<Slot>): S.Env {
    if vars == [] then map[]
    else
      var last := vars[|vars| - 1];
      ToEnv(vars[..|vars| - 1])[last.name := last.value]
  }

  /** Every table entry is found under its name. */
  lemma {:induction false} EnvAt(vars: seq<Slot>, i: nat)
    requires i < |vars| && Distinct(vars)
    ensures vars[i].name in ToEnv(vars) && ToEnv(vars)[vars[i].name] == vars[i].value
  {
    if i < |vars| - 1 {
      EnvAt(vars[..|vars| - 1], i);
    }
  }

  lemma {:induction false} EnvMisses(vars: seq<Slot>, x: string)
    requires forall i | 0 <= i < |vars| :: vars[i].name != x
    ensures x !in ToEnv(vars)
  {
    if vars != [] {
      EnvMisses(vars[..|vars| - 1], x);
    }
  }

  lemma {:induction false} EnvSize(vars: seq<Slot>)
    requires Distinct(vars)
    ensures |ToEnv(vars)| == |vars|
  {
    if vars != [] {
      EnvSize(vars[..|vars| - 1]);
      EnvMisses(vars[..|vars| - 1], vars[|vars| - 1].name);
    }
  }

  lemma {:induction false} EnvUpdate(vars: seq<Slot>, i: nat, v: int)
    requires i < |vars| && Distinct(vars)
    ensures ToEnv(vars[i := Slot(vars[i].name, v)]) == ToEnv(vars)[vars[i].name := v]
  {
    var n := |vars| - 1;
    var updated := vars[i := Slot(vars[i].name, v)];
    if i < n {
      EnvUpdate(vars[..n], i, v);
      assert updated[..n] == vars[..n][i := Slot(vars[i].name, v)];
      assert vars[n].name != vars[i].name;
    } else {
      assert updated[..n] == vars[..n];
    }
  }

  lemma EnvPush(vars: seq<Slot>, x: string, v: int)
    ensures ToEnv(vars + [Slot(x, v)]) == ToEnv(vars)[x := v]
  {
    assert (vars + [Slot(x, v)])[..|vars|] == vars;
  }

  function MulOp(op: char, l: int, r: int): int
    requires op != '*' ==> r != 0
  {
    if op == '*' then l * r else if op == '/' then S.Quot(l, r) else S.Rem(l, r)
  }

  /** What the operator characters mean. */
  lemma MulStep(c: char, op: S.Op, a: S.Ast, b: S.Ast, env: S.Env)
    requires LevelOf(op) == MUL && Sym(op) == [c]
    ensures var l, r, both := S.Eval(a, env), S.Eval(b, env), S.Eval(S.Bin(op, a, b), env);
      && (S.ByZero(op, r.v) <==> c != '*' && r.v == 0)
      && both == if c != '*' && r.v == 0 then S.Value(0, true) else S.Value(MulOp(c, l.v, r.v), l.err || r.err)
  {
    S.EvalBin(op, a, b, env);
    hide S.Eval, S.Quot, S.Rem;
  }

  lemma AddStep(c: char, op: S.Op, a: S.Ast, b: S.Ast, env: S.Env)
    requires LevelOf(op) == ADD && Sym(op) == [c]
    ensures var l, r := S.Eval(a, env), S.Eval(b, env);
      S.Eval(S.Bin(op, a, b), env) == S.Value(if c == '+' then l.v + r.v else l.v - r.v, l.err || r.err)
  {
  }

  class Interp {
    var src: string
    var hadError: bool
    var execEnabled: bool
    var vars: seq<Slot>
    var out: string

    ghost predicate Valid()
      reads this
    {
      |vars| <= S.MAX_VARS && Distinct(vars)
    }

    ghost function Env(): S.Env
      reads this`vars
    {
      ToEnv(vars)
    }

    ghost function St(): S.State
      reads this
    {
      S.State(Env(), out, hadError)
    }

    constructor ()
      ensures Valid()
    {
      src, hadError, execEnabled, vars, out := "", false, true, [], "";
    }

    // ----- lexer -----

    method SkipOver(ws: set<char>)
      requires '#' !in ws && '\0' !in ws
      modifies this`src
      ensures src == Skip(old(src), ws)
    {
      while true
        invariant Skip(src, ws) == Skip(old(src), ws)
        decreases |src|
      {
        while Peek(src) in ws
          invariant Skip(src, ws) == Skip(old(src), ws)
          decreases |src|
        {
          src := src[1..];
        }
        if Peek(src) != '#' { break; }
        ghost var comment := src;
        while Peek(src) != '\0' && Peek(src) != '\n'
          invariant src == comment || |src| < |comment|
          invariant DropLine(src) == DropLine(comment)
          decreases |src|
        {
          src := src[1..];
        }
      }
    }

    method SkipStmtTerm()
      modifies this`src
      ensures src == Skip(old(src), GAP)
    {
      while true
        invariant Skip(src, GAP) == Skip(old(src), GAP)
        decreases |src|
      {
        ghost var before := src;
        SkipOver(BLANK);
        SkipSkip(before, BLANK, GAP);
        if Peek(src) != '\n' && Peek(src) != ';' { break; }
        src := src[1..];
      }
    }

    method MatchLit(lit: string) returns (ok: bool)
      modifies this`src
      ensures ok <==> lit <= old(src)
      ensures src == if ok then old(src)[|lit|..] else old(src)
    {
      var i := 0;
      while i < |lit|
        invariant i <= |lit| && i <= |src| && lit[..i] == src[..i]
      {
        if i == |src| || src[i] != lit[i] {
          return false;
        }
        i := i + 1;
      }
      assert lit == lit[..i] && src[..i] <= src;
      src := src[i..];
      ok := true;
    }

    method MatchKw(kw: string) returns (ok: bool)
      modifies this`src
      ensures ok <==> KwAt(kw, old(src))
      ensures src == if ok then old(src)[|kw|..] else old(src)
    {
      var i := 0;
      while i < |kw| && i < |src| && src[i] == kw[i]
        invariant i <= |kw| && i <= |src| && kw[..i] == src[..i]
      {
        i := i + 1;
      }
      if i < |kw| {
        return false;
      }
      assert kw == kw[..i] && src[..i] <= src;
      if IsAlnum(Peek(src[i..])) {
        return false;
      }
      src := src[i..];
      ok := true;
    }

    method ReadIdent() returns (ok: bool, name: string)
      modifies this`src
      ensures ok <==> IsAlpha(Peek(Skip(old(src), BLANK)))
      ensures !ok ==> src == Skip(old(src), BLANK)
      ensures ok ==> Skip(old(src), BLANK) == name + src && IsIdent(name)
      ensures ok ==> |name| == 15 || !IsAlnum(Peek(src))
    {
      SkipOver(BLANK);
      name := "";
      if !IsAlpha(Peek(src)) {
        return false, name;
      }
      ghost var s := src;
      while IsAlnum(Peek(src)) && |name| < 15
        invariant s == name + src
        invariant forall i | 0 <= i < |name| :: IsAlnum(name[i])
        invariant |name| <= 15 && (name == "" ==> src == s)
        decreases |src|
      {
        name := name + [src[0]];
        src := src[1..];
      }
      ok := true;
    }

    method ReadNumber(ghost digits: string, ghost rest: string) returns (v: int)
      requires src == digits + rest && AllDigits(digits) && !IsDigit(Peek(rest))
      modifies this`src
      ensures v == Value(digits) && src == rest
    {
      v := 0;
      ghost var k := 0;
      assert digits[0..] == digits;
      while IsDigit(Peek(src))
        invariant k <= |digits| && src == digits[k..] + rest && v == Value(digits[..k])
        decreases |src|
      {
        assert k < |digits|;
        assert digits[..k + 1][..k] == digits[..k];
        v := v * 10 + DigitValue(src[0]);
        src := src[1..];
        k := k + 1;
      }
      if k < |digits| {
        assert false;
      }
      assert digits[..k] == digits;
    }

    /** The comparison operator that comes next, if any, tried in the parser's order. */
    method MatchComparison() returns (kind: Comparison)
      modifies this`src
      ensures kind == None <==> !OpAt(CMP, old(src))
      ensures kind == None ==> src == old(src)
      ensures kind.Cmp? ==> LevelOf(kind.op) == CMP && old(src) == Sym(kind.op) + src
      ensures kind.Cmp? ==> |Sym(kind.op)| == 2 || Peek(src) != '='
    {
      var ok := MatchLit("==");
      if ok { return Cmp(S.Eq); }
      ok := MatchLit("!=");
      if ok { return Cmp(S.Ne); }
      ok := MatchLit("<=");
      if ok { return Cmp(S.Le); }
      ok := MatchLit(">=");
      if ok { return Cmp(S.Ge); }
      if Peek(src) == '<' && Peek2(src) != '<' {
        src := src[1..];
        return Cmp(S.Lt);
      }
      if Peek(src) == '>' && Peek2(src) != '>' {
        src := src[1..];
        return Cmp(S.Gt);
      }
      kind := None;
    }

    // ----- variable table -----

    method VarGet(name: string) returns (v: int)
      requires Valid()
      modifies this`hadError
      ensures v == if name in Env() then Env()[name] else 0
      ensures hadError <==> old(hadError) || name !in Env()
    {
      for i := 0 to |vars|
        invariant hadError == old(hadError)
        invariant forall j | 0 <= j < i :: vars[j].name != name
      {
        if vars[i].name == name {
          EnvAt(vars, i);
          return vars[i].value;
        }
      }
      EnvMisses(vars, name);
      hadError := true;
      v := 0;
    }

    method VarSet(name: string, value: int)
      requires Valid()
      modifies this`vars, this`hadError
      ensures Valid()
      ensures Env() == S.Store(old(Env()), name, value).0
      ensures hadError == (old(hadError) || S.Store(old(Env()), name, value).1)
    {
      hide ToEnv;
      for i := 0 to |vars|
        invariant vars == old(vars) && hadError == old(hadError)
        invariant forall j | 0 <= j < i :: vars[j].name != name
      {
        if vars[i].name == name {
          EnvAt(vars, i);
          EnvUpdate(vars, i, value);
          vars := vars[i := Slot(name, value)];
          return;
        }
      }
      EnvMisses(vars, name);
      EnvSize(vars);
      if |vars| >= S.MAX_VARS {
        hadError := true;
        return;
      }
      EnvPush(vars, name, value);
      vars := vars + [Slot(name, value)];
    }

    // ----- expressions -----

    /** With execution on, evaluating `e` keeps the interpreter in step with the text. */
    ghost predicate Runs(e: Expr)
      requires Wf(e)
      reads this`execEnabled, this`vars
    {
      execEnabled ==> InStep(e, Env())
    }

    /** `v` and the error flag are what evaluating `a` gives; with execution off nothing happens. */
    ghost predicate Gives(a: S.Ast, v: int, errorBefore: bool)
      reads this`execEnabled, this`vars, this`hadError
    {
      if execEnabled then v == S.Eval(a, Env()).v && hadError == (errorBefore || S.Eval(a, Env()).err)
      else hadError == errorBefore
    }

    method ParsePrimary(ghost e: Expr, ghost rest: string) returns (v: int)
      requires Valid() && Wf(e) && (e.Num? || e.Var? || e.Paren?)
      requires Skip(src, BLANK) == Skip(Text(e, rest), BLANK)
      requires NoGlue(e, rest) && Runs(e)
      modifies this`src, this`hadError, this`execEnabled
      ensures execEnabled == old(execEnabled) && src == rest && Gives(Abs(e), v, old(hadError))
      decreases Size(e), 0
    {
      hide ToEnv, Stops, NoGlueTail, Layout, Skip;
      v := 0;
      SkipOver(BLANK);
      Lexeme(e, rest);
      if Peek(src) == '(' {
        ghost var after := e.post + (")" + rest);
        src := src[1..];
        LayoutEnds(e.inner, e.post, ')', rest);
        assert [')'] + rest == ")" + rest;
        v := ParseExpr(e.inner, after);
        SkipSkip(after, BLANK, BLANK_NL);
        SkipOver(BLANK_NL);
        src := src[1..];
      } else if IsDigit(Peek(src)) {
        v := ReadNumber(e.digits, rest);
      } else {
        SkipStays(src, BLANK);
        var ok, name := ReadIdent();
        IdentUnique(name, src, e.name, rest);
        if name == "true" {
          v := 1;
        } else if name == "false" {
          v := 0;
        } else if execEnabled {
          v := VarGet(name);
        }
      }
    }

    method ParseUnary(ghost e: Expr, ghost rest: string) returns (v: int)
      requires Valid() && Wf(e) && !e.Chain?
      requires Skip(src, BLANK) == Skip(Text(e, rest), BLANK)
      requires NoGlue(e, rest) && Runs(e)
      modifies this`src, this`hadError, this`execEnabled
      ensures execEnabled == old(execEnabled) && src == rest && Gives(Abs(e), v, old(hadError))
      decreases Size(e), 1
    {
      hide ToEnv, Skip, TailText;
      SkipOver(BLANK);
      Lexeme(e, rest);
      if Peek(src) == '-' {
        src := src[1..];
        v := ParseUnary(e.arg, rest);
        v := -v;
      } else if Peek(src) == '!' {
        src := src[1..];
        v := ParseUnary(e.arg, rest);
        v := S.Bool(v == 0);
      } else {
        SkipStays(src, BLANK);
        v := ParsePrimary(e, rest);
      }
    }

    method ParseMul(ghost e: Expr, ghost rest: string) returns (v: int)
      requires Valid() && Wf(e) && Rank(e) >= MUL
      requires Skip(src, BLANK) == Skip(Text(e, rest), BLANK)
      requires Ends(e, MUL, rest) && Runs(e)
      modifies this`src, this`hadError, this`execEnabled
      ensures execEnabled == old(execEnabled) && Skip(src, BLANK) == Skip(rest, BLANK)
      ensures Gives(Abs(e), v, old(hadError))
      decreases Size(e), 2
    {
      hide Text, TailText, Wf, WfTail, Abs, AbsTail, Upto, Stops, NoGlue, Skip, Size, TailSize, ToEnv, InStep, Steady,
        S.Eval, S.ByZero, MulOp, Sym, LevelOf, OpAt;
      First(e, MUL, rest, execEnabled, Env());
      ghost var acc, prev, links := Abs(Head(e, MUL)), Head(e, MUL), Links(e, MUL);
      v := ParseUnary(prev, TailText(links, rest));
      while true
        invariant execEnabled == old(execEnabled)
        invariant Upto(e, MUL, rest, acc, prev, links)
        invariant execEnabled ==> Steady(acc, links, MUL, Env())
        invariant Skip(src, BLANK) == Skip(TailText(links, rest), BLANK)
        invariant Gives(acc, v, old(hadError))
        decreases TailSize(links)
      {
        SkipOver(BLANK);
        Ahead(e, MUL, rest, acc, prev, links, execEnabled, Env());
        var op := Peek(src);
        if op != '*' && op != '/' && op != '%' {
          SkipTwice(rest);
          return;
        }
        src := src[1..];
        var r := ParseUnary(links.right, TailText(links.more, rest));
        MulStep(op, links.op, acc, Abs(links.right), Env());
        if execEnabled && (op == '/' || op == '%') && r == 0 {
          hadError := true;
          return 0;
        }
        acc, prev, links := S.Bin(links.op, acc, Abs(links.right)), links.right, links.more;
        if execEnabled { v := MulOp(op, v, r); }
      }
    }

    method ParseAdd(ghost e: Expr, ghost rest: string) returns (v: int)
      requires Valid() && Wf(e) && Rank(e) >= ADD
      requires Skip(src, BLANK) == Skip(Text(e, rest), BLANK)
      requires Ends(e, ADD, rest) && Runs(e)
      modifies this`src, this`hadError, this`execEnabled
      ensures execEnabled == old(execEnabled) && src == Skip(rest, BLANK) && Gives(Abs(e), v, old(hadError))
      decreases Size(e), 3
    {
      hide Text, TailText, Wf, WfTail, Abs, AbsTail, Upto, Stops, NoGlue, Skip, Size, TailSize, ToEnv, InStep, Steady,
        S.Eval, S.Apply, Sym, LevelOf, OpAt;
      First(e, ADD, rest, execEnabled, Env());
      ghost var acc, prev, links := Abs(Head(e, ADD)), Head(e, ADD), Links(e, ADD);
      v := ParseMul(prev, TailText(links, rest));
      while true
        invariant execEnabled == old(execEnabled)
        invariant Upto(e, ADD, rest, acc, prev, links)
        invariant execEnabled ==> Steady(acc, links, ADD, Env())
        invariant Skip(src, BLANK) == Skip(TailText(links, rest), BLANK)
        invariant Gives(acc, v, old(hadError))
        decreases TailSize(links)
      {
        SkipOver(BLANK);
        Ahead(e, ADD, rest, acc, prev, links, execEnabled, Env());
        var op := Peek(src);
        if op != '+' && op != '-' { return; }
        src := src[1..];
        var r := ParseMul(links.right, TailText(links.more, rest));
        AddStep(op, links.op, acc, Abs(links.right), Env());
        acc, prev, links := S.Bin(links.op, acc, Abs(links.right)), links.right, links.more;
        if !execEnabled { continue; }
        v := if op == '+' then v + r else v - r;
      }
    }

    method ParseCmp(ghost e: Expr, ghost rest: string) returns (v: int)
      requires Valid() && Wf(e) && Rank(e) >= CMP
      requires Skip(src, BLANK) == Skip(Text(e, rest), BLANK)
      requires Ends(e, CMP, rest) && Runs(e)
      modifies this`src, this`hadError, this`execEnabled
      ensures execEnabled == old(execEnabled) && src == Skip(rest, BLANK) && Gives(Abs(e), v, old(hadError))
      decreases Size(e), 4
    {
      hide Text, TailText, Wf, WfTail, Abs, AbsTail, Upto, Stops, NoGlue, Skip, Size, TailSize, ToEnv, InStep, Steady,
        S.Eval, OpAt, Sym, LevelOf;
      First(e, CMP, rest, execEnabled, Env());
      ghost var acc, prev, links := Abs(Head(e, CMP)), Head(e, CMP), Links(e, CMP);
      var l := ParseAdd(prev, TailText(links, rest));
      SkipTwice(TailText(links, rest));
      SkipOver(BLANK);
      Ahead(e, CMP, rest, acc, prev, links, execEnabled, Env());
      var kind := MatchComparison();
      if kind == None { return l; }
      ComparisonRead(e, rest, acc, prev, links, kind.op, src);
      var r := ParseAdd(links.right, rest);
      if !execEnabled { return 0; }
      S.EvalBin(links.op, acc, Abs(links.right), Env());
      match kind.op
      case Eq => v := S.Bool(l == r);
      case Ne => v := S.Bool(l != r);
      case Lt => v := S.Bool(l < r);
      case Gt => v := S.Bool(l > r);
      case Le => v := S.Bool(l <= r);
      case Ge => v := S.Bool(l >= r);
      case _ => v := 0;
    }

    /** A right operand, with execution switched off while it is read if the left one has decided. */
    method CmpUnless(decided: bool, ghost e: Expr, ghost rest: string) returns (v: int)
      requires Valid() && Wf(e) && Rank(e) >= CMP
      requires Skip(src, BLANK) == Skip(Text(e, rest), BLANK)
      requires Ends(e, CMP, rest) && (!decided ==> Runs(e))
      modifies this`src, this`hadError, this`execEnabled
      ensures execEnabled == old(execEnabled) && src == Skip(rest, BLANK)
      ensures if decided then hadError == old(hadError) else Gives(Abs(e), v, old(hadError))
      decreases Size(e), 5
    {
      hide Text, Wf, Abs, Stops, NoGlue, Skip, Size, ToEnv, InStep, S.Eval;
      var saved := execEnabled;
      if execEnabled && decided { execEnabled := false; }
      v := ParseCmp(e, rest);
      execEnabled := saved;
    }

    method AndUnless(decided: bool, ghost e: Expr, ghost rest: string) returns (v: int)
      requires Valid() && Wf(e) && Rank(e) >= AND
      requires Skip(src, BLANK) == Skip(Text(e, rest), BLANK)
      requires Ends(e, AND, rest) && (!decided ==> Runs(e))
      modifies this`src, this`hadError, this`execEnabled
      ensures execEnabled == old(execEnabled) && src == Skip(rest, BLANK)
      ensures if decided then hadError == old(hadError) else Gives(Abs(e), v, old(hadError))
      decreases Size(e), 7
    {
      hide Text, Wf, Abs, Stops, NoGlue, Skip, Size, ToEnv, InStep, S.Eval;
      var saved := execEnabled;
      if execEnabled && decided { execEnabled := false; }
      v := ParseAnd(e, rest);
      execEnabled := saved;
    }

    method ParseAnd(ghost e: Expr, ghost rest: string) returns (v: int)
      requires Valid() && Wf(e) && Rank(e) >= AND
      requires Skip(src, BLANK) == Skip(Text(e, rest), BLANK)
      requires Ends(e, AND, rest) && Runs(e)
      modifies this`src, this`hadError, this`execEnabled
      ensures execEnabled == old(execEnabled) && src == Skip(rest, BLANK) && Gives(Abs(e), v, old(hadError))
      decreases Size(e), 6
    {
      hide Text, TailText, Wf, WfTail, Abs, AbsTail, Upto, Stops, NoGlue, Skip, Size, TailSize, ToEnv, InStep, Steady,
        S.Eval, Sym, LevelOf, OpAt;
      First(e, AND, rest, execEnabled, Env());
      ghost var acc, prev, links := Abs(Head(e, AND)), Head(e, AND), Links(e, AND);
      v := ParseCmp(prev, TailText(links, rest));
      SkipTwice(TailText(links, rest));
      while true
        invariant execEnabled == old(execEnabled)
        invariant Upto(e, AND, rest, acc, prev, links)
        invariant execEnabled ==> Steady(acc, links, AND, Env())
        invariant Skip(src, BLANK) == Skip(TailText(links, rest), BLANK)
        invariant Gives(acc, v, old(hadError))
        decreases TailSize(links)
      {
        SkipOver(BLANK);
        Ahead(e, AND, rest, acc, prev, links, execEnabled, Env());
        var more := MatchLit("&&");
        if !more { return; }
        S.EvalBin(links.op, acc, Abs(links.right), Env());
        var r := CmpUnless(v == 0, links.right, TailText(links.more, rest));
        SkipTwice(TailText(links.more, rest));
        acc, prev, links := S.Bin(links.op, acc, Abs(links.right)), links.right, links.more;
        if execEnabled { v := S.Bool(v != 0 && r != 0); }
      }
    }

    method ParseOr(ghost e: Expr, ghost rest: string) returns (v: int)
      requires Valid() && Wf(e) && Rank(e) >= OR
      requires Skip(src, BLANK) == Skip(Text(e, rest), BLANK)
      requires Ends(e, OR, rest) && Runs(e)
      modifies this`src, this`hadError, this`execEnabled
      ensures execEnabled == old(execEnabled) && src == Skip(rest, BLANK) && Gives(Abs(e), v, old(hadError))
      decreases Size(e), 8
    {
      hide Text, TailText, Wf, WfTail, Abs, AbsTail, Upto, Stops, NoGlue, Skip, Size, TailSize, ToEnv, InStep, Steady,
        S.Eval, Sym, LevelOf, OpAt;
      First(e, OR, rest, execEnabled, Env());
      ghost var acc, prev, links := Abs(Head(e, OR)), Head(e, OR), Links(e, OR);
      v := ParseAnd(prev, TailText(links, rest));
      SkipTwice(TailText(links, rest));
      while true
        invariant execEnabled == old(execEnabled)
        invariant Upto(e, OR, rest, acc, prev, links)
        invariant execEnabled ==> Steady(acc, links, OR, Env())
        invariant Skip(src, BLANK) == Skip(TailText(links, rest), BLANK)
        invariant Gives(acc, v, old(hadError))
        decreases TailSize(links)
      {
        SkipOver(BLANK);
        Ahead(e, OR, rest, acc, prev, links, execEnabled, Env());
        var more := MatchLit("||");
        if !more { return; }
        S.EvalBin(links.op, acc, Abs(links.right), Env());
        var r := AndUnless(v != 0, links.right, TailText(links.more, rest));
        SkipTwice(TailText(links.more, rest));
        acc, prev, links := S.Bin(links.op, acc, Abs(links.right)), links.right, links.more;
        if execEnabled { v := S.Bool(v != 0 || r != 0); }
      }
    }

    method ParseExpr(ghost e: Expr, ghost rest: string) returns (v: int)
      requires Valid() && Wf(e)
      requires Skip(src, BLANK) == Skip(Text(e, rest), BLANK)
      requires Ends(e, OR, rest) && Runs(e)
      modifies this`src, this`hadError, this`execEnabled
      ensures execEnabled == old(execEnabled) && src == Skip(rest, BLANK) && Gives(Abs(e), v, old(hadError))
      decreases Size(e), 9
    {
      v := ParseOr(e, rest);
    }

    // ----- statements -----

    /** The state is what the semantics says; with execution off it has not moved. */
    ghost predicate Reached(outcome: S.State, before: S.State)
      reads this
    {
      St() == if execEnabled then outcome else before
    }

    method ParseString(ghost text: string, ghost rest: string)
      requires src == text + ("\"" + rest) && Quotable(text)
      modifies this`src, this`out
      ensures src == rest && out == if execEnabled then old(out) + text else old(out)
    {
      ghost var k := 0;
      assert text[0..] == text;
      while Peek(src) != '\0' && Peek(src) != '"'
        invariant k <= |text| && src == text[k..] + ("\"" + rest)
        invariant out == if execEnabled then old(out) + text[..k] else old(out)
        decreases |src|
      {
        if execEnabled { out := out + [src[0]]; }
        src := src[1..];
        k := k + 1;
      }
      if k < |text| {
        assert false;
      }
      assert text[..k] == text;
      src := src[1..];
    }

    /** One string or expression. */
    method ParseItem(ghost a: Args, ghost rest: string)
      requires Valid() && WfArgs(a, rest) && !a.NoArgs? && src == Skip(ArgsText(a, rest), BLANK)
      requires execEnabled ==> InStepArgs(a, rest, Env())
      modifies this`src, this`out, this`hadError, this`execEnabled
      ensures execEnabled == old(execEnabled)
      ensures Skip(src, BLANK) == Skip(ArgsText(a.more, rest), BLANK)
      ensures Reached(S.PrintItem(AbsArgs(a, rest).head, old(St())), old(St()))
    {
      hide Text, Abs, Skip, Stops, NoGlue, ToEnv, S.Eval, ShowInt, InStep;
      ArgStarts(a, rest);
      if Peek(src) == '"' {
        src := src[1..];
        ParseString(a.text, ArgsText(a.more, rest));
      } else {
        SkipTwice(ArgsText(a, rest));
        var v := ParseExpr(a.e, ArgsText(a.more, rest));
        SkipTwice(ArgsText(a.more, rest));
        if execEnabled { out := out + ShowInt(v); }
      }
    }

    method ParsePrint(ghost args: Args, ghost rest: string)
      requires Valid() && WfArgs(args, rest)
      requires src == ArgsText(args, rest)
      requires execEnabled ==> InStepArgs(args, rest, Env())
      modifies this
      ensures Valid() && execEnabled == old(execEnabled)
      ensures Reached(S.ExecItems(AbsArgs(args, rest), old(St()), true), old(St()))
      ensures src == Skip(rest, BLANK)
    {
      hide ArgsText, Abs, Skip, Stops, NoGlue, ToEnv, InStep, S.PrintItem;
      var first := true;
      ghost var left, goal := args, S.ExecItems(AbsArgs(args, rest), St(), true);
      while true
        invariant Valid() && execEnabled == old(execEnabled)
        invariant WfArgs(left, rest)
        invariant Skip(src, BLANK) == Skip(ArgsText(left, rest), BLANK)
        invariant execEnabled ==> S.ExecItems(AbsArgs(left, rest), St(), first) == goal && InStepArgs(left, rest, Env())
        invariant !execEnabled ==> St() == old(St())
        decreases left
      {
        SkipOver(BLANK);
        ArgStarts(left, rest);
        if Peek(src) in STMT_END { break; }
        if !first && execEnabled { out := out + " "; }
        ParseItem(left, rest);
        left := left.more;
        first := false;
      }
      LastArg(left, rest);
      if execEnabled { out := out + "\n"; }
    }

    method ParseBlock(ghost b: Block, ghost rest: string)
      requires Valid() && WfBlock(b, "}" + rest)
      requires Skip(src, BLANK_NL) == "{" + BlockText(b, "}" + rest)
      requires execEnabled ==> InStepBlock(b, "}" + rest, St())
      modifies this
      ensures Valid() && execEnabled == old(execEnabled)
      ensures Reached(S.ExecProg(AbsBlock(b, "}" + rest), old(St())), old(St()))
      ensures !hadError ==> src == rest
      decreases BlockSize(b), 1
    {
      hide Skip, Layout, ToEnv, StmtText, AbsStmt, WfStmt, S.Exec;
      ghost var end, goal, left := "}" + rest, S.ExecProg(AbsBlock(b, "}" + rest), St()), b;
      SkipOver(BLANK_NL);
      src := src[1..];
      while true
        invariant Valid() && execEnabled == old(execEnabled)
        invariant WfBlock(left, end) && BlockSize(left) <= BlockSize(b)
        invariant Skip(src, GAP) == Skip(BlockText(left, end), GAP)
        invariant execEnabled ==> S.ExecProg(AbsBlock(left, end), St()) == goal && InStepBlock(left, end, St())
        invariant !execEnabled ==> St() == old(St())
        decreases BlockSize(left)
      {
        SkipStmtTerm();
        BlockStarts(left, end);
        SkipOver(BLANK_NL);
        if Peek(src) == '}' {
          src := src[1..];
          return;
        }
        ParseStmt(left.head, BlockText(left.tail, end));
        if hadError { return; }
        left := left.tail;
      }
    }

    /** A block that takes effect only if it is taken. */
    method BlockIf(taken: bool, ghost b: Block, ghost rest: string)
      requires Valid() && WfBlock(b, "}" + rest)
      requires Skip(src, BLANK_NL) == "{" + BlockText(b, "}" + rest)
      requires execEnabled && taken ==> InStepBlock(b, "}" + rest, St())
      modifies this
      ensures Valid() && execEnabled == old(execEnabled)
      ensures St() == if execEnabled && taken then S.ExecProg(AbsBlock(b, "}" + rest), old(St())) else old(St())
      ensures !hadError ==> src == rest
      decreases BlockSize(b), 2
    {
      hide Skip, ToEnv, BlockText, AbsBlock, WfBlock, InStepBlock, S.ExecProg, BlockSize;
      var saved := execEnabled;
      if !taken { execEnabled := false; }
      ParseBlock(b, rest);
      execEnabled := saved;
    }

    method ParseIf(ghost s: Stmt, ghost rest: string)
      requires Valid() && s.If? && WfStmt(s, rest)
      requires src == Text(s.cond, BodyText(s.open, s.body, ElseText(s.els, rest)))
      requires execEnabled ==> InStepStmt(s, rest, St())
      modifies this
      ensures Valid() && execEnabled == old(execEnabled)
      ensures Reached(S.Exec(AbsStmt(s, rest), old(St())), old(St()))
      ensures !hadError ==> Skip(src, GAP) == Skip(rest, GAP)
      decreases StmtSize(s), 1
    {
      hide Skip, Layout, ToEnv, Text, Abs, BlockText, AbsBlock, WfBlock, Stops, NoGlue, S.Eval;
      ghost var after := ElseText(s.els, rest);
      BodyStarts(s.cond, s.open, s.body, after);
      var cond := ParseExpr(s.cond, BodyText(s.open, s.body, after));
      var taken := execEnabled && cond != 0;
      BlockIf(taken, s.body, after);
      if hadError { return; }
      ElseStarts(s.els, rest);
      SkipOver(BLANK_NL);
      var more := MatchKw("else");
      if more {
        assert ElseSize(s.els) == 1 + BlockSize(s.els.body);
        BlockIf(!taken, s.els.body, rest);
      }
    }

    method ParseWhile(ghost s: Stmt, ghost rest: string)
      requires Valid() && s.While? && WfStmt(s, rest)
      requires src == Text(s.cond, BodyText(s.open, s.body, rest))
      requires execEnabled ==> InStepStmt(s, rest, St())
      modifies this
      ensures Valid() && execEnabled == old(execEnabled)
      ensures Reached(S.Exec(AbsStmt(s, rest), old(St())), old(St()))
      ensures !hadError ==> Skip(src, GAP) == Skip(rest, GAP)
      decreases StmtSize(s), 1
    {
      hide Skip, Layout, ToEnv, Text, Abs, BlockText, AbsBlock, WfBlock, Stops, NoGlue, S.Eval, S.ExecProg;
      ghost var c, body := Abs(s.cond), AbsBlock(s.body, "}" + rest);
      ghost var goal := S.Exec(AbsStmt(s, rest), St());
      var loopStart := src;
      var iter := 0;
      while true
        invariant Valid() && execEnabled == old(execEnabled)
        invariant 0 <= iter <= S.ITER_LIMIT
        invariant execEnabled ==> S.ExecWhile(c, body, St(), iter) == goal
        invariant execEnabled ==> InStepLoop(s.cond, s.body, "}" + rest, St(), iter)
        invariant !execEnabled ==> St() == old(St())
        decreases S.ITER_LIMIT - iter
      {
        src := loopStart;
        BodyStarts(s.cond, s.open, s.body, rest);
        var cond := ParseExpr(s.cond, BodyText(s.open, s.body, rest));
        var taken := execEnabled && cond != 0;
        BlockIf(taken, s.body, rest);
        if hadError { return; }
        if !taken { return; }
        iter := iter + 1;
        if iter > S.ITER_LIMIT {
          hadError := true;
          return;
        }
      }
    }

    method ParseStmt(ghost s: Stmt, ghost rest: string)
      requires Valid() && WfStmt(s, rest)
      requires src == StmtText(s, rest)
      requires execEnabled ==> InStepStmt(s, rest, St())
      modifies this
      ensures Valid() && execEnabled == old(execEnabled)
      ensures Reached(S.Exec(AbsStmt(s, rest), old(St())), old(St()))
      ensures !hadError ==> Skip(src, GAP) == Skip(rest, GAP)
      decreases StmtSize(s), 2
    {
      hide Skip, Layout, ToEnv, Text, Abs, BlockText, AbsBlock, WfBlock, Stops, NoGlue, KwAt, S.Eval, S.ExecProg,
        S.ExecWhile, S.ExecItems;
      StmtStarts(s, rest);
      StmtKeyword(s, rest);
      SkipStays(src, BLANK);
      SkipOver(BLANK);
      SkipSkip(rest, BLANK, GAP);
      var kw := MatchKw("print");
      if kw {
        ParsePrint(s.args, rest);
        return;
      }
      kw := MatchKw("if");
      if kw {
        ParseIf(s, rest);
        return;
      }
      kw := MatchKw("while");
      if kw {
        ParseWhile(s, rest);
        return;
      }
      ParseAssignOrDiscard(s, rest);
    }

    /** An assignment, or any other expression, told apart by looking ahead for `=`. */
    method ParseAssignOrDiscard(ghost s: Stmt, ghost rest: string)
      requires Valid() && WfStmt(s, rest) && (s.Assign? || s.Discard?)
      requires src == StmtText(s, rest)
      requires execEnabled ==> InStepStmt(s, rest, St())
      modifies this
      ensures Valid() && execEnabled == old(execEnabled)
      ensures Reached(S.Exec(AbsStmt(s, rest), old(St())), old(St()))
      ensures src == Skip(rest, BLANK)
      decreases StmtSize(s), 1
    {
      hide Skip, ToEnv, Abs, Stops, NoGlue, S.Eval;
      var back := src;
      StmtStarts(s, rest);
      SkipStays(src, BLANK);
      var ok, name := ReadIdent();
      if ok {
        NamedStart(s, rest, name, src);
        SkipOver(BLANK);
        if Peek(src) == '=' && Peek2(src) != '=' {
          src := src[1..];
          var v := ParseExpr(s.e, rest);
          if execEnabled { VarSet(name, v); }
          return;
        }
        src := back;
      }
      var v := ParseExpr(s.e, rest);
    }

    /** Running the text of a program ends in the state its big-step semantics gives. */
    method Run(code: string, ghost p: Block)
      requires WfBlock(p, "") && code == BlockText(p, "")
      requires InStepBlock(p, "", S.State(map[], out, false))
      modifies this
      ensures Valid()
      ensures St() == S.ExecProg(AbsBlock(p, ""), S.State(map[], old(out), false))
    {
      hide Skip, Layout, StmtText, AbsStmt, WfStmt, S.Exec;
      src, hadError, execEnabled, vars := code, false, true, [];
      ghost var goal, left := S.ExecProg(AbsBlock(p, ""), St()), p;
      while true
        invariant Valid() && execEnabled && !hadError
        invariant WfBlock(left, "")
        invariant Skip(src, GAP) == Skip(BlockText(left, ""), GAP)
        invariant S.ExecProg(AbsBlock(left, ""), St()) == goal && InStepBlock(left, "", St())
        decreases left
      {
        SkipStmtTerm();
        BlockStarts(left, "");
        SkipOver(BLANK_NL);
        if Peek(src) == '\0' { break; }
        ParseStmt(left.head, BlockText(left.tail, ""));
        if hadError { break; }
        left := left.tail;
      }
    }
  }
}
