/** Lines and the flat text they stand for. */
module OviText {
  import opened Strings

  const MAX_LINES: nat := 4096
  const MAX_COLS: nat := 1024
  const LOAD_MAX: nat := 65536

  /** Lines each followed by a newline; lines each preceded by one. */
  function Before(rows: seq<string>): string {
    if rows == [] then "" else Before(rows[..|rows| - 1]) + (rows[|rows| - 1] + "\n")
  }
  function After(rows: seq<string>): string {
    if rows == [] then "" else "\n" + rows[0] + After(rows[1..])
  }

  /** The lines joined by newlines. */
  function Flat(rows: seq<string>): string
    requires rows != []
  {
    rows[0] + After(rows[1..])
  }

  /** The flat offset of a cursor position. */
  function Offset(rows: seq<string>, row: nat, col: nat): nat
    requires row <= |rows|
  {
    |Before(rows[..row])| + col
  }

  /** The flat text around one line. */
  lemma {:induction false} FlatAround(rows: seq<string>, i: nat)
    requires i < |rows|
    ensures Flat(rows) == Before(rows[..i]) + (rows[i] + After(rows[i + 1..]))
    decreases i
  {
    if i == 0 {
      assert rows[..0] == [] && "" + Flat(rows) == Flat(rows);
    } else {
      FlatAround(rows, i - 1);
      var b, x, y, a := Before(rows[..i - 1]), rows[i - 1], rows[i], After(rows[i + 1..]);
      assert rows[i..][0] == y && rows[i..][1..] == rows[i + 1..];
      assert After(rows[i..]) == "\n" + y + a;
      assert rows[..i][..i - 1] == rows[..i - 1];
      assert Before(rows[..i]) == b + (x + "\n");
      assert b + (x + ("\n" + y + a)) == (b + (x + "\n")) + (y + a);
    }
  }

  function Spliced(t: string, at: nat, cut: nat, s: string): string
    requires at + cut <= |t|
  {
    t[..at] + s + t[at + cut..]
  }

  /** Changing part of one line changes the flat text at the corresponding offset and nowhere else. */
  lemma LineEdit(rows: seq<string>, i: nat, col: nat, cut: nat, s: string)
    requires i < |rows| && col + cut <= |rows[i]|
    ensures Offset(rows, i, col) + cut <= |Flat(rows)|
    ensures Flat(rows[i := Spliced(rows[i], col, cut, s)]) == Spliced(Flat(rows), Offset(rows, i, col), cut, s)
  {
    hide Before, After, Flat;
    var b, a := Before(rows[..i]), After(rows[i + 1..]);
    var l, m, r := rows[i][..col], rows[i][col..col + cut], rows[i][col + cut..];
    var rows' := rows[i := Spliced(rows[i], col, cut, s)];
    FlatAround(rows, i);
    FlatAround(rows', i);
    assert rows'[..i] == rows[..i] && rows'[i + 1..] == rows[i + 1..];
    assert rows[i] == l + m + r;
    Around(b, l, m, r, a);
    Around(b, l, s, r, a);
    SplicedAround(b + l, m, r + a, s);
  }

  lemma Around(b: string, l: string, m: string, r: string, a: string)
    ensures b + ((l + m + r) + a) == (b + l) + m + (r + a)
  {
  }

  lemma SplicedAround(x: string, m: string, y: string, s: string)
    ensures Spliced(x + m + y, |x|, |m|, s) == x + s + y
  {
    Regroup(x, m, y);
    Cut(x, m + y);
    Cut(x + m, y);
  }

  function SplitRows(rows: seq<string>, i: nat, col: nat): seq<string>
    requires i < |rows| && col <= |rows[i]|
  {
    rows[..i] + [rows[i][..col], rows[i][col..]] + rows[i + 1..]
  }

  /** Splitting a line inserts a newline. */
  lemma LineSplit(rows: seq<string>, i: nat, col: nat)
    requires i < |rows| && col <= |rows[i]|
    ensures Offset(rows, i, col) <= |Flat(rows)|
    ensures Flat(SplitRows(rows, i, col)) == Spliced(Flat(rows), Offset(rows, i, col), 0, "\n")
    ensures Offset(SplitRows(rows, i, col), i + 1, 0) == Offset(rows, i, col) + 1
  {
    var rows' := SplitRows(rows, i, col);
    var b, a := Before(rows[..i]), After(rows[i + 1..]);
    var l, r := rows[i][..col], rows[i][col..];
    FlatAround(rows, i);
    FlatAround(rows', i);
    assert rows'[..i] == rows[..i] && rows'[i] == l;
    assert rows'[i + 1..][0] == r && rows'[i + 1..][1..] == rows[i + 1..];
    assert After(rows'[i + 1..]) == "\n" + r + a;
    assert rows[i] == l + "" + r;
    Around(b, l, "", r, a);
    Around(b, l, "\n", r, a);
    Regroup(l, "\n" + r, a);
    Regroup(l, "\n", r);
    SplicedAround(b + l, "", r + a, "\n");
    assert rows'[..i + 1][..i] == rows[..i] && rows'[..i + 1][i] == l;
  }

  function JoinRows(rows: seq<string>, i: nat): seq<string>
    requires 0 < i < |rows|
  {
    rows[..i - 1] + [rows[i - 1] + rows[i]] + rows[i + 1..]
  }

  /** Joining a line to the one before deletes the newline between them: it undoes splitting. */
  lemma LineJoin(rows: seq<string>, i: nat)
    requires 0 < i < |rows|
    ensures Offset(rows, i, 0) == Offset(rows, i - 1, |rows[i - 1]|) + 1 <= |Flat(rows)|
    ensures Flat(JoinRows(rows, i)) == Spliced(Flat(rows), Offset(rows, i, 0) - 1, 1, "")
    ensures SplitRows(JoinRows(rows, i), i - 1, |rows[i - 1]|) == rows
  {
    var joined := JoinRows(rows, i);
    var p, q := rows[i - 1], rows[i];
    assert joined[i - 1] == p + q && (p + q)[..|p|] == p && (p + q)[|p|..] == q;
    assert joined[..i - 1] == rows[..i - 1] && joined[i..] == rows[i + 1..];
    assert SplitRows(joined, i - 1, |p|) == rows;
    LineSplit(joined, i - 1, |p|);
    var t, o := Flat(joined), Offset(joined, i - 1, |p|);
    assert Flat(rows) == t[..o] + "\n" + t[o..];
    assert Flat(rows)[..o] == t[..o] && Flat(rows)[o + 1..] == t[o..];
    assert t[..o] + "" + t[o..] == t;
    assert rows[..i][..i - 1] == rows[..i - 1];
  }

  function RemoveRow(rows: seq<string>, i: nat): seq<string>
    requires i < |rows|
  {
    rows[..i] + rows[i + 1..]
  }

  /** Deleting a line takes it out of the flat text with one of its newlines. */
  lemma LineRemoved(rows: seq<string>, i: nat)
    requires i < |rows| && |rows| > 1
    ensures var at := if i + 1 < |rows| then Offset(rows, i, 0) else Offset(rows, i, 0) - 1;
      && 0 <= at && at + |rows[i]| + 1 <= |Flat(rows)|
      && Flat(RemoveRow(rows, i)) == Spliced(Flat(rows), at, |rows[i]| + 1, "")
  {
    FlatAround(rows, i);
    if i + 1 < |rows| { RemovedInside(rows, i); } else { RemovedLast(rows); }
  }

  lemma RemovedInside(rows: seq<string>, i: nat)
    requires i + 1 < |rows|
    ensures Offset(rows, i, 0) + |rows[i]| + 1 <= |Flat(rows)|
    ensures Flat(RemoveRow(rows, i)) == Spliced(Flat(rows), Offset(rows, i, 0), |rows[i]| + 1, "")
  {
    var kept, b, line := RemoveRow(rows, i), Before(rows[..i]), rows[i];
    var y, a := rows[i + 1], After(rows[i + 2..]);
    FlatAround(rows, i);
    FlatAround(kept, i);
    assert kept[..i] == rows[..i] && kept[i] == y && kept[i + 1..] == rows[i + 2..];
    assert rows[i + 1..][1..] == rows[i + 2..];
    Regroup(line, "\n" + y, a);
    Regroup(line, "\n", y);
    Regroup(line + "\n", y, a);
    Regroup(b, line + "\n", y + a);
    SplicedAround(b, line + "\n", y + a, "");
    assert b + "" == b;
  }

  lemma RemovedLast(rows: seq<string>)
    requires |rows| > 1
    ensures var i := |rows| - 1;
      0 < Offset(rows, i, 0) && Offset(rows, i, 0) + |rows[i]| == |Flat(rows)|
      && Flat(RemoveRow(rows, i)) == Spliced(Flat(rows), Offset(rows, i, 0) - 1, |rows[i]| + 1, "")
  {
    var i := |rows| - 1;
    var kept, line := RemoveRow(rows, i), rows[i];
    var x, c := rows[i - 1], Before(rows[..i - 1]);
    FlatAround(rows, i);
    FlatAround(kept, i - 1);
    assert kept[..i - 1] == rows[..i - 1] && kept[i - 1] == x && kept[i..] == [] && rows[i + 1..] == [];
    assert rows[..i][..i - 1] == rows[..i - 1];
    assert line + "" == line && x + "" == x;
    Regroup(c, x, "\n");
    Regroup(c + x, "\n", line);
    SplicedAround(c + x, "\n" + line, "", "");
    assert (c + x) + ("\n" + line) + "" == (c + x) + ("\n" + line);
    assert (c + x) + "" + "" == c + x;
  }

  // ----- saving -----

  /** What is written when the first `n` lines are. */
  function Saved(rows: seq<string>, n: nat): string
    requires rows != [] && n <= |rows|
  {
    if n < |rows| then Before(rows[..n]) else Flat(rows)
  }

  lemma SavedEnds(rows: seq<string>)
    requires rows != []
    ensures Saved(rows, 0) == "" && Saved(rows, |rows|) == Flat(rows)
  {
    assert rows[..0] == [];
  }

  lemma SaveNext(rows: seq<string>, i: nat)
    requires i < |rows|
    ensures Saved(rows, i + 1) == Saved(rows, i) + rows[i] + (if i + 1 < |rows| then "\n" else "")
    ensures Saved(rows, i) + "" == Saved(rows, i) && rows[i] + "" == rows[i]
  {
    var b, line := Before(rows[..i]), rows[i];
    if i + 1 < |rows| {
      assert rows[..i + 1][..i] == rows[..i];
      Regroup(b, line, "\n");
    } else {
      FlatAround(rows, i);
      assert rows[i + 1..] == [] && line + "" == line;
    }
  }

  // ----- loading -----

  /** The lines read so far, the line being read, and the rest of the file. Long lines lose their end,
      and reading stops when the line table is full. */
  function LoadFrom(done: seq<string>, line: string, t: string): seq<string>
    decreases |t|
  {
    if t == "" then if line != "" || done == [] then done + [line] else done
    else if t[0] == '\n' then
      if |done| + 1 >= MAX_LINES then done + [line] else LoadFrom(done + [line], "", t[1..])
    else LoadFrom(done, if |line| < MAX_COLS - 1 then line + [t[0]] else line, t[1..])
  }

  function Loaded(t: string): seq<string> {
    LoadFrom([], "", if |t| > LOAD_MAX then t[..LOAD_MAX] else t)
  }

  /** Lines a buffer can hold. */
  ghost predicate Storable(rows: seq<string>) {
    0 < |rows| <= MAX_LINES && forall i | 0 <= i < |rows| :: |rows[i]| < MAX_COLS && '\n' !in rows[i]
  }

  lemma {:induction false} LoadLine(done: seq<string>, line: string, s: string, t: string)
    requires '\n' !in s && |line| + |s| < MAX_COLS
    ensures LoadFrom(done, line, s + t) == LoadFrom(done, line + s, t)
    decreases |s|
  {
    if s == "" {
      assert s + t == t && line + s == line;
    } else {
      assert (s + t)[0] == s[0] && (s + t)[1..] == s[1..] + t;
      assert s[0] in s;
      LoadLine(done, line + [s[0]], s[1..], t);
      assert (line + [s[0]]) + s[1..] == line + s;
    }
  }

  /** Loading saved lines gives them back, except that an empty last line is lost unless it is the only
      one. */
  lemma {:induction false} LoadRows(done: seq<string>, rows: seq<string>)
    requires rows != [] && Storable(done + rows)
    ensures LoadFrom(done, "", Flat(rows)) ==
      if rows[|rows| - 1] == "" && |done + rows| > 1 then done + rows[..|rows| - 1] else done + rows
    decreases |rows|
  {
    var all := done + rows;
    var line, rest := rows[0], After(rows[1..]);
    assert all[|done|] == line;
    LoadLine(done, "", line, rest);
    assert "" + line == line;
    if |rows| == 1 {
      assert rows == [line] && rows[..0] == [] && done + [] == done;
    } else {
      assert rest == "\n" + Flat(rows[1..]) by { assert rows[1..][1..] == rows[2..]; }
      assert rest[0] == '\n' && rest[1..] == Flat(rows[1..]);
      assert (done + [line]) + rows[1..] == all;
      LoadRows(done + [line], rows[1..]);
      assert rows[1..][..|rows| - 2] == rows[1..|rows| - 1];
      assert (done + [line]) + rows[1..|rows| - 1] == done + rows[..|rows| - 1];
    }
  }

  /** What is read is no longer than what there was to read. */
  lemma {:induction false} LoadShrinks(done: seq<string>, line: string, t: string)
    ensures LoadFrom(done, line, t) != []
    ensures |Flat(LoadFrom(done, line, t))| <= |Before(done)| + |line| + |t|
    decreases |t|
  {
    if t == "" || (t[0] == '\n' && |done| + 1 >= MAX_LINES) {
      FlatEnds(done, line);
      if done != [] { FlatEnds(done[..|done| - 1], done[|done| - 1]); }
      assert done != [] ==> done == done[..|done| - 1] + [done[|done| - 1]];
    } else if t[0] == '\n' {
      assert (done + [line])[..|done|] == done;
      LoadShrinks(done + [line], "", t[1..]);
    } else {
      LoadShrinks(done, if |line| < MAX_COLS - 1 then line + [t[0]] else line, t[1..]);
    }
  }

  lemma FlatEnds(rows: seq<string>, line: string)
    ensures Flat(rows + [line]) == Before(rows) + line
  {
    var all := rows + [line];
    FlatAround(all, |rows|);
    assert all[..|rows|] == rows && all[|rows| + 1..] == [] && line + "" == line;
  }

  /** Saving and loading is the identity exactly when the file fits the load buffer and its last line is
      not empty or is the only one. */
  lemma SaveLoadIff(rows: seq<string>)
    requires Storable(rows)
    ensures Loaded(Flat(rows)) == rows <==> |Flat(rows)| <= LOAD_MAX && (rows[|rows| - 1] != "" || |rows| == 1)
  {
    if |Flat(rows)| <= LOAD_MAX {
      assert [] + rows == rows && [] + rows[..|rows| - 1] == rows[..|rows| - 1];
      LoadRows([], rows);
    } else {
      LoadShrinks([], "", Flat(rows)[..LOAD_MAX]);
    }
  }

  /** For instance: of a line and an empty one only the first comes back. */
  lemma EmptyLastLineLost()
    ensures Loaded(Flat(["a", ""])) == ["a"]
  {
    var rows := ["a", ""];
    assert rows[1..] == [""] && rows[1..][1..] == [];
    assert Flat(rows) == "a\n";
    assert [] + rows == rows && [] + rows[..1] == ["a"];
    LoadRows([], rows);
  }
}
