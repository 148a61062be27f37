/** Splitting a command line into arguments, quoting included, and packing arguments into a line. */
module ShellArgs {
  import opened Strings

  predicate IsBlank(c: char) { c == ' ' || c == '\t' }

  function SkipBlanks(s: string): (t: string)
    ensures |t| <= |s|
  {
    if s != "" && IsBlank(s[0]) then SkipBlanks(s[1..]) else s
  }

  /** The rest of a token that is being read, with its quotes and escapes taken away, and the text
      after it. `sq` and `dq` say which kind of quote is open. */
  function Token(s: string, sq: bool, dq: bool): (r: (string, string))
    ensures |r.1| <= |s| && (s != "" ==> |r.1| < |s|)
    decreases |s|
  {
    if s == "" then ("", "")
    else
      var c := s[0];
      if c == '\\' && |s| > 1 && ((!sq && !dq) || (dq && s[1] in {'"', '\\'})) then
        var (tok, rest) := Token(s[2..], sq, dq);
        ([s[1]] + tok, rest)
      else if !dq && c == '\'' then Token(s[1..], !sq, dq)
      else if !sq && c == '"' then Token(s[1..], sq, !dq)
      else if !sq && !dq && IsBlank(c) then ("", s[1..])
      else
        var (tok, rest) := Token(s[1..], sq, dq);
        ([c] + tok, rest)
  }

  /** At most `limit` tokens. */
  function Split(s: string, limit: nat): seq<string>
    decreases limit
  {
    var t := SkipBlanks(s);
    if limit == 0 || t == "" then []
    else
      var (tok, rest) := Token(t, false, false);
      [tok] + Split(rest, limit - 1)
  }

  // ----- packing -----

  predicate Special(c: char) { c == '"' || c == '\\' }

  function Escaped(s: string): string {
    if s == "" then "" else (if Special(s[0]) then ['\\', s[0]] else [s[0]]) + Escaped(s[1..])
  }

  function Quoted(s: string): string { "\"" + Escaped(s) + "\"" }

  function Packed(args: seq<string>): string {
    if args == [] then ""
    else if |args| == 1 then Quoted(args[0])
    else Quoted(args[0]) + (" " + Packed(args[1..]))
  }

  lemma {:induction false} PackedSnoc(args: seq<string>, x: string)
    requires args != []
    ensures Packed(args + [x]) == Packed(args) + (" " + Quoted(x))
  {
    var more := args + [x];
    assert more[0] == args[0] && more[1..] == args[1..] + [x];
    if |args| == 1 {
      assert more[1..] == [x];
    } else {
      PackedSnoc(args[1..], x);
      var q, p, e := Quoted(args[0]), Packed(args[1..]), " " + Quoted(x);
      assert q + (" " + (p + e)) == (q + (" " + p)) + e;
    }
  }

  /** Reading on inside double quotes, from an escaped character or a plain one. */
  lemma TokenInQuotes(c: char, rest: string)
    ensures var (tok, after) := Token(rest, false, true);
      Token((if Special(c) then ['\\', c] else [c]) + rest, false, true) == ([c] + tok, after)
  {
    var text := (if Special(c) then ['\\', c] else [c]) + rest;
    assert text[if Special(c) then 2 else 1..] == rest;
  }

  lemma TokenOpens(rest: string)
    ensures Token("\"" + rest, false, false) == Token(rest, false, true)
  {
    assert ("\"" + rest)[1..] == rest;
  }

  /** A double quote ends them. */
  lemma TokenCloses(rest: string)
    ensures Token("\"" + rest, false, true) == Token(rest, false, false)
  {
    assert ("\"" + rest)[1..] == rest;
  }

  /** Inside double quotes, escaping is undone character by character. */
  lemma {:induction false} TokenOfEscaped(s: string, rest: string)
    ensures var (tok, after) := Token(rest, false, false);
      Token(Escaped(s) + ("\"" + rest), false, true) == (s + tok, after)
    decreases |s|
  {
    hide Token;
    var close := "\"" + rest;
    var (tok, after) := Token(rest, false, false);
    if s == "" {
      TokenCloses(rest);
      assert "" + close == close && "" + tok == tok;
    } else {
      hide Special;
      var c, e := s[0], Escaped(s[1..]);
      var head := if Special(c) then ['\\', c] else [c];
      TokenOfEscaped(s[1..], rest);
      TokenInQuotes(c, e + close);
      Regroup(head, e, close);
      Regroup([c], s[1..], tok);
      assert s == [c] + s[1..];
    }
  }

  lemma TokenOfQuoted(s: string, rest: string)
    requires rest == "" || IsBlank(rest[0])
    ensures Token(Quoted(s) + rest, false, false) == (s, if rest == "" then "" else rest[1..])
  {
    Regroup("\"", Escaped(s), "\"");
    Regroup("\"", Escaped(s) + "\"", rest);
    Regroup(Escaped(s), "\"", rest);
    TokenOpens(Escaped(s) + ("\"" + rest));
    TokenOfEscaped(s, rest);
    hide Escaped;
    assert s + "" == s;
  }

  /** Splitting a packed line gives the arguments back, whatever characters they contain. */
  lemma {:induction false} SplitPacked(args: seq<string>, limit: nat)
    requires |args| <= limit
    ensures Split(Packed(args), limit) == args
    decreases |args|
  {
    if args != [] {
      var rest := if |args| == 1 then "" else " " + Packed(args[1..]);
      assert Packed(args) == Quoted(args[0]) + rest;
      TokenOfQuoted(args[0], rest);
      SplitPacked(args[1..], limit - 1);
      assert rest != "" ==> rest[1..] == Packed(args[1..]);
      assert args == [args[0]] + args[1..];
      assert |args| == 1 ==> args[1..] == [];
    }
  }

  // ----- in place -----

  /** The tokens as they end up in the line buffer: each followed by a NUL. */
  function Joined(toks: seq<string>): string {
    if toks == [] then "" else Joined(toks[..|toks| - 1]) + (toks[|toks| - 1] + "\0")
  }

  /** A C string of length `len` at the start of the buffer. */
  predicate CString(s: seq<char>, len: nat) {
    len < |s| && s[len] == '\0' && forall i | 0 <= i < len :: s[i] != '\0'
  }

  predicate Escape(s: string, sq: bool, dq: bool) {
    |s| > 1 && s[0] == '\\' && ((!sq && !dq) || (dq && s[1] in {'"', '\\'}))
  }

  /** A token of which `t` has been read already. */
  function Resumed(t: string, s: string, sq: bool, dq: bool): (string, string) {
    (t + Token(s, sq, dq).0, Token(s, sq, dq).1)
  }

  lemma ResumedStep(t: string, s: string, sq: bool, dq: bool)
    requires s != ""
    ensures Resumed(t, s, sq, dq) ==
      if Escape(s, sq, dq) then Resumed(t + [s[1]], s[2..], sq, dq)
      else if !dq && s[0] == '\'' then Resumed(t, s[1..], !sq, dq)
      else if !sq && s[0] == '"' then Resumed(t, s[1..], sq, !dq)
      else if !sq && !dq && IsBlank(s[0]) then (t, s[1..])
      else Resumed(t + [s[0]], s[1..], sq, dq)
  {
    if Escape(s, sq, dq) {
      assert t + ([s[1]] + Token(s[2..], sq, dq).0) == (t + [s[1]]) + Token(s[2..], sq, dq).0;
    } else if !(!dq && s[0] == '\'') && !(!sq && s[0] == '"') && !(!sq && !dq && IsBlank(s[0])) {
      assert t + ([s[0]] + Token(s[1..], sq, dq).0) == (t + [s[0]]) + Token(s[1..], sq, dq).0;
    } else {
      assert t + "" == t;
    }
  }

  /** `*w++ = c` */
  method Emit(line: array<char>, w: nat, c: char)
    requires w < line.Length
    modifies line
    ensures line[..w + 1] == old(line[..w]) + [c]
    ensures forall i | w < i < line.Length :: line[i] == old(line[i])
  {
    line[w] := c;
  }

  /** The same where the buffer holds `pre` and the part `t` of a token. */
  method EmitAfter(line: array<char>, w: nat, c: char, ghost pre: string, ghost t: string)
    requires w < line.Length && line[..w] == pre + t
    modifies line
    ensures line[..w + 1] == pre + (t + [c])
    ensures forall i | w < i < line.Length :: line[i] == old(line[i])
  {
    Regroup(pre, t, [c]);
    Emit(line, w, c);
  }

  /** Read one token at `r0` and write it, unquoted and closed, at `w0`. The write cursor never passes the
      read cursor, so what is still to be read is intact. */
  method ReadToken(line: array<char>, ghost len: nat, r0: nat, w0: nat) returns (r: nat, w: nat)
    requires w0 <= r0 < len < line.Length && line[len] == '\0' && forall i | r0 <= i < len :: line[i] != '\0'
    modifies line
    ensures r0 < r <= len && w0 < w && (w <= r || r == len) && w <= line.Length
    ensures forall i | r <= i < line.Length && i != len :: line[i] == old(line[i])
    ensures line[len] == '\0'
    ensures var (tok, rest) := Token(old(line[r0..len]), false, false);
      rest == old(line[r..len]) && line[..w] == old(line[..w0]) + (tok + "\0")
  {
    hide Token, Resumed;
    ghost var src := line[..];
    ghost var t, goal := "", Token(src[r0..len], false, false);
    ResumedStart(src[r0..len]);
    r, w := r0, w0;
    var sq, dq := false, false;
    while line[r] != '\0'
      invariant w0 <= w <= r <= len && r0 <= r
      invariant forall i | r <= i < line.Length :: line[i] == src[i]
      invariant line[..w] == src[..w0] + t
      invariant goal == Resumed(t, src[r..len], sq, dq)
      invariant r == r0 ==> src[r] != '\0'
      decreases len - r
    {
      ghost var here := src[r..len];
      var c, next := line[r], line[r + 1];
      assert r < len && (next != '\0' <==> r + 1 < len);
      Ahead(src, r, len);
      ResumedStep(t, here, sq, dq);
      if (!sq && !dq && c == '\\' && next != '\0') || (dq && c == '\\' && (next == '"' || next == '\\')) {
        assert Escape(here, sq, dq);
        EmitAfter(line, w, next, src[..w0], t);
        t := t + [next];
        w, r := w + 1, r + 2;
      } else if !dq && c == '\'' {
        sq := !sq;
        r := r + 1;
      } else if !sq && c == '"' {
        dq := !dq;
        r := r + 1;
      } else if !sq && !dq && IsBlank(c) {
        r := r + 1;
        EmitAfter(line, w, '\0', src[..w0], t);
        w := w + 1;
        return;
      } else {
        EmitAfter(line, w, c, src[..w0], t);
        t := t + [c];
        w, r := w + 1, r + 1;
      }
    }
    assert r == len;
    ResumedEnd(t, src[r..len], sq, dq);
    EmitAfter(line, w, '\0', src[..w0], t);
    w := w + 1;
  }

  lemma Ahead(src: seq<char>, r: nat, len: nat)
    requires r < len <= |src|
    ensures src[r..len][0] == src[r] && src[r..len][1..] == src[r + 1..len]
    ensures r + 1 < len ==> src[r..len][1] == src[r + 1] && src[r..len][2..] == src[r + 2..len]
  {
  }

  lemma ResumedStart(s: string)
    ensures Resumed("", s, false, false) == Token(s, false, false)
  {
    assert "" + Token(s, false, false).0 == Token(s, false, false).0;
  }

  lemma ResumedEnd(t: string, s: string, sq: bool, dq: bool)
    requires s == ""
    ensures Resumed(t, s, sq, dq) == (t, "")
  {
    assert t + "" == t;
  }

  lemma JoinedSnoc(done: seq<string>, tok: string)
    ensures Joined(done + [tok]) == Joined(done) + (tok + "\0")
  {
    assert (done + [tok])[..|done|] == done;
  }

  /** `argv[k]` is where token `k` starts. */
  ghost predicate StartsAt(argv: seq<nat>, toks: seq<string>) {
    |argv| == |toks| && forall k | 0 <= k < |argv| :: argv[k] == |Joined(toks[..k])|
  }

  lemma StartsSnoc(argv: seq<nat>, toks: seq<string>, tok: string)
    requires StartsAt(argv, toks)
    ensures StartsAt(argv + [|Joined(toks)|], toks + [tok])
  {
    var more := toks + [tok];
    assert more[..|toks|] == toks;
    assert forall k | 0 <= k < |toks| :: more[..k] == toks[..k];
  }

  lemma SplitStep(done: seq<string>, s: string, limit: nat)
    requires limit > 0 && SkipBlanks(s) != ""
    ensures var (tok, rest) := Token(SkipBlanks(s), false, false);
      done + Split(s, limit) == (done + [tok]) + Split(rest, limit - 1)
  {
  }

  lemma SplitNothing(done: seq<string>, s: string, limit: nat)
    requires SkipBlanks(s) == "" || limit == 0
    ensures done + Split(s, limit) == done
  {
  }

  method SkipSpaces(line: array<char>, ghost len: nat, r0: nat) returns (r: nat)
    requires r0 <= len < line.Length && line[len] == '\0'
    ensures r0 <= r <= len && line[r..len] == SkipBlanks(line[r0..len])
  {
    r := r0;
    while line[r] == ' ' || line[r] == '\t'
      invariant r0 <= r <= len && SkipBlanks(line[r..len]) == SkipBlanks(line[r0..len])
      decreases len - r
    {
      assert line[r..len][0] == line[r] && line[r..len][1..] == line[r + 1..len];
      r := r + 1;
    }
    assert r < len ==> line[r..len][0] == line[r];
  }

  /** Tokenise the buffer in place. `argv` holds where each token starts. The buffer then begins with
      exactly the tokens of the pure tokeniser. */
  method SplitArgs(line: array<char>, ghost len: nat, max: nat) returns (argv: seq<nat>)
    requires CString(line[..], len) && max >= 1
    modifies line
    ensures var toks := Split(old(line[..len]), max - 1);
      && |Joined(toks)| <= line.Length && line[..|Joined(toks)|] == Joined(toks)
      && StartsAt(argv, toks)
  {
    hide Split, Token, Joined, StartsAt, SkipBlanks;
    ghost var src, goal := line[..], Split(line[..len], max - 1);
    ghost var done: seq<string> := [];
    var r, w := 0, 0;
    argv := [];
    assert src[0..len] == src[..len] && [] + goal == goal;
    NoTokens();
    while line[r] != '\0' && |argv| < max - 1
      invariant r <= len && (w <= r || r == len) && w <= line.Length && line[len] == '\0'
      invariant forall i | r <= i < line.Length && i != len :: line[i] == src[i]
      invariant line[..w] == Joined(done) && StartsAt(argv, done) && |argv| == |done| <= max - 1
      invariant done + Split(src[r..len], max - 1 - |done|) == goal
      decreases len - r
    {
      ghost var from, left := r, max - 1 - |done|;
      r := SkipSpaces(line, len, r);
      assert src[from..len] == line[from..len] && src[r..len] == line[r..len];
      if line[r] == '\0' {
        assert r == len;
        SplitNothing(done, src[from..len], left);
        break;
      }
      ghost var here, before := src[r..len], line[..];
      ghost var tok := Token(here, false, false).0;
      SplitStep(done, src[from..len], left);
      StartsSnoc(argv, done, tok);
      JoinedSnoc(done, tok);
      argv := argv + [w];
      r, w := ReadToken(line, len, r, w);
      assert before[r..len] == src[r..len];
      assert Token(here, false, false).1 == src[r..len];
      done := done + [tok];
    }
    if r == len || |argv| == max - 1 {
      AllBlank(src[r..len]);
      if done != goal { SplitNothing(done, src[r..len], max - 1 - |done|); }
    }
  }

  lemma NoTokens()
    ensures Joined([]) == "" && StartsAt([], [])
  {
  }

  lemma AllBlank(s: string)
    ensures s == "" ==> SkipBlanks(s) == ""
  {
  }

  // ----- packing into a buffer -----

  lemma {:induction false} EscapedSnoc(s: string, c: char)
    ensures Escaped(s + [c]) == Escaped(s) + (if Special(c) then ['\\', c] else [c])
  {
    if s == "" {
      assert s + [c] == [c];
    } else {
      EscapedSnoc(s[1..], c);
      assert (s + [c])[1..] == s[1..] + [c];
    }
  }

  /** Packing more can only make the line longer. */
  lemma {:induction false} EscapedGrows(s: string, j: nat)
    requires j <= |s|
    ensures |Escaped(s[..j])| <= |Escaped(s)|
    ensures j < |s| ==> |Escaped(s[..j])| + (if Special(s[j]) then 2 else 1) <= |Escaped(s)|
    decreases |s| - j
  {
    if j < |s| {
      assert s[..j + 1] == s[..j] + [s[j]];
      EscapedSnoc(s[..j], s[j]);
      EscapedGrows(s, j + 1);
    } else {
      assert s[..j] == s;
    }
  }

  function Sep(i: nat): string { if i == 0 then "" else " " }

  lemma PackedPrefix(args: seq<string>, i: nat)
    requires i < |args|
    ensures Packed(args[..i + 1]) == Packed(args[..i]) + (Sep(i) + Quoted(args[i]))
  {
    assert args[..i + 1] == args[..i] + [args[i]];
    if i > 0 {
      PackedSnoc(args[..i], args[i]);
    } else {
      assert args[..1] == [args[0]];
    }
  }

  lemma {:induction false} PackedGrows(args: seq<string>, i: nat)
    requires i <= |args|
    ensures |Packed(args[..i])| <= |Packed(args)|
    decreases |args| - i
  {
    if i < |args| {
      PackedPrefix(args, i);
      PackedGrows(args, i + 1);
    } else {
      assert args[..i] == args;
    }
  }

  /** One quoted argument at `pos0`; `full` says the buffer ran out. */
  method PackOne(arg: string, out: array<char>, pos0: nat) returns (pos: nat, full: bool)
    requires pos0 + 1 < out.Length
    modifies out
    ensures pos0 <= pos < out.Length
    ensures pos0 + |Quoted(arg)| < out.Length ==> !full && out[..pos] == old(out[..pos0]) + Quoted(arg)
  {
    hide Escaped;
    ghost var base := out[..pos0];
    Emit(out, pos0, '"');
    pos := pos0 + 1;
    var j := 0;
    assert arg[..0] == "";
    EscapedNothing();
    while j < |arg| && pos + 2 < out.Length
      invariant pos0 < pos < out.Length && 0 <= j <= |arg|
      invariant out[..pos] == base + ("\"" + Escaped(arg[..j]))
    {
      EscapedSnoc(arg[..j], arg[j]);
      assert arg[..j + 1] == arg[..j] + [arg[j]];
      if Special(arg[j]) {
        Emit(out, pos, '\\');
        pos := pos + 1;
      }
      Emit(out, pos, arg[j]);
      pos := pos + 1;
      j := j + 1;
    }
    EscapedGrows(arg, j);
    assert j == |arg| ==> arg[..j] == arg;
    full := pos + 1 >= out.Length;
    if !full {
      Emit(out, pos, '"');
      pos := pos + 1;
    }
  }

  lemma EscapedNothing()
    ensures Escaped("") == ""
  {
  }

  /** The packed line and its NUL, when they fit; the result is a C string in any case. */
  method PackArgs(args: seq<string>, out: array<char>) returns (pos: nat)
    requires out.Length >= 1
    modifies out
    ensures pos < out.Length && out[pos] == '\0'
    ensures |Packed(args)| < out.Length ==> out[..pos] == Packed(args)
  {
    hide Packed, Escaped;
    ghost var fits := |Packed(args)| < out.Length;
    pos := 0;
    PackedNothing();
    assert args[..0] == [];
    var i := 0;
    while i < |args|
      invariant pos < out.Length && 0 <= i <= |args|
      invariant fits ==> out[..pos] == Packed(args[..i])
    {
      PackedPrefix(args, i);
      PackedGrows(args, i + 1);
      if pos + 1 >= out.Length { break; }
      if i > 0 {
        Emit(out, pos, ' ');
        pos := pos + 1;
      }
      if pos + 1 >= out.Length { break; }
      var full;
      pos, full := PackOne(args[i], out, pos);
      if full { break; }
      i := i + 1;
    }
    assert i == |args| ==> args[..i] == args;
    out[pos] := '\0';
  }

  lemma PackedNothing()
    ensures Packed([]) == ""
  {
  }

  /** Packing NUL-free arguments and splitting the buffer gives the same arguments back. */
  method PackThenSplit(args: seq<string>, buf: array<char>, max: nat) returns (argv: seq<nat>)
    requires |args| < max && |Packed(args)| < buf.Length
    requires forall k | 0 <= k < |args| :: '\0' !in args[k]
    modifies buf
    ensures |Joined(args)| <= buf.Length && buf[..|Joined(args)|] == Joined(args) && StartsAt(argv, args)
  {
    hide Packed, Split, Joined, StartsAt;
    var pos := PackArgs(args, buf);
    PackedNulFree(args);
    assert forall i | 0 <= i < pos :: buf[i] == buf[..pos][i];
    SplitPacked(args, max - 1);
    argv := SplitArgs(buf, pos, max);
  }

  lemma {:induction false} PackedNulFree(args: seq<string>)
    requires forall k | 0 <= k < |args| :: '\0' !in args[k]
    ensures '\0' !in Packed(args)
  {
    if args != [] {
      EscapedNulFree(args[0]);
      PackedNulFree(args[1..]);
    }
  }

  lemma {:induction false} EscapedNulFree(s: string)
    requires '\0' !in s
    ensures '\0' !in Escaped(s)
  {
    if s != "" { EscapedNulFree(s[1..]); }
  }
}
