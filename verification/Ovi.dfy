/** The line editor: a fixed table of rows edited in place. Every edit is one splice of the flat text. */
module Ovi {
  import opened OviText

  datatype Option<T> = None | Some(value: T)

  class Buffer {
    const lines: array<string>
    var nlines: nat
    var curRow: nat
    var curCol: nat

    ghost predicate Valid()
      reads this, lines
    {
      && lines.Length == MAX_LINES && nlines <= MAX_LINES && Storable(lines[..nlines])
      && curRow < nlines && curCol <= |lines[curRow]|
    }

    ghost function Rows(): seq<string>
      requires nlines <= lines.Length
      reads this, lines
    {
      lines[..nlines]
    }

    ghost function Text(): string
      requires Valid()
      reads this, lines
    {
      Flat(Rows())
    }

    /** The cursor as a position in the flat text. */
    ghost function Cursor(): (at: nat)
      requires Valid()
      reads this, lines
      ensures at <= |Text()|
    {
      LineEdit(Rows(), curRow, curCol, 0, "");
      Offset(Rows(), curRow, curCol)
    }

    constructor ()
      ensures Valid() && Rows() == [""] && curRow == 0 && curCol == 0 && fresh(lines)
    {
      lines := new string[MAX_LINES](_ => "");
      nlines, curRow, curCol := 1, 0, 0;
    }

    // ----- edits -----

    method InsertChar(c: char)
      requires Valid() && c != '\n'
      modifies this`curCol, lines
      ensures Valid()
      ensures if |old(lines[curRow])| < MAX_COLS - 1
              then Text() == Spliced(old(Text()), old(Cursor()), 0, [c]) && Cursor() == old(Cursor()) + 1
              else Rows() == old(Rows()) && curCol == old(curCol)
    {
      var line := lines[curRow];
      if |line| >= MAX_COLS - 1 { return; }
      LineEdit(Rows(), curRow, curCol, 0, [c]);
      EditKeeps(Rows(), curRow, curCol, 0, [c]);
      lines[curRow] := line[..curCol] + [c] + line[curCol..];
      assert Rows() == old(Rows())[curRow := Spliced(line, curCol, 0, [c])];
      assert Rows()[..curRow] == old(Rows())[..curRow];
      curCol := curCol + 1;
    }

    /** Rows from `from` on move one down. */
    method ShiftRowsDown(from: nat)
      requires from <= nlines < lines.Length
      modifies lines
      ensures forall i | 0 <= i < lines.Length :: lines[i] == old(lines[if from < i <= nlines then i - 1 else i])
    {
      var k := nlines;
      while k > from
        invariant from <= k <= nlines
        invariant forall i | 0 <= i < lines.Length :: lines[i] == old(lines[if k < i <= nlines then i - 1 else i])
      {
        lines[k] := lines[k - 1];
        k := k - 1;
      }
    }

    /** Rows after `from` move one up, over row `from`. */
    method ShiftRowsUp(from: nat)
      requires from < nlines <= lines.Length
      modifies lines
      ensures lines[..nlines - 1] == RemoveRow(old(lines[..nlines]), from)
    {
      hide RemoveRow;
      var k := from;
      while k + 1 < nlines
        invariant from <= k < nlines
        invariant forall i | 0 <= i < nlines :: lines[i] == old(lines[if from <= i < k then i + 1 else i])
      {
        lines[k] := lines[k + 1];
        k := k + 1;
      }
      IsRemoval(old(lines[..nlines]), lines[..nlines - 1], from);
    }

    method SplitLine()
      requires Valid()
      modifies this, lines
      ensures Valid()
      ensures if old(nlines) < MAX_LINES
              then Rows() == SplitRows(old(Rows()), old(curRow), old(curCol))
                   && curRow == old(curRow) + 1 && curCol == 0
                   && Text() == Spliced(old(Text()), old(Cursor()), 0, "\n") && Cursor() == old(Cursor()) + 1
              else Rows() == old(Rows()) && curRow == old(curRow) && curCol == old(curCol)
    {
      hide Flat, Before, Storable, Spliced;
      if nlines >= MAX_LINES { return; }
      hide SplitRows, Offset;
      LineSplit(Rows(), curRow, curCol);
      MoveTailDown();
      curRow := curRow + 1;
      curCol := 0;
    }

    /** The tail of the current line becomes the next line. */
    method MoveTailDown()
      requires Valid() && nlines < MAX_LINES
      modifies this`nlines, lines
      ensures nlines == old(nlines) + 1 <= MAX_LINES && Storable(Rows())
      ensures Rows() == SplitRows(old(Rows()), curRow, curCol)
    {
      hide Storable, SplitRows;
      SplitKeeps(Rows(), curRow, curCol);
      ShiftRowsDown(curRow + 1);
      lines[curRow + 1] := lines[curRow][curCol..];
      lines[curRow] := lines[curRow][..curCol];
      nlines := nlines + 1;
      IsSplit(old(Rows()), Rows(), curRow, curCol);
    }

    /** Backspace: the character before the cursor, or at the start of a line the newline before it,
        unless the joined line would be too long. */
    method DeleteCharBefore()
      requires Valid()
      modifies this, lines
      ensures Valid()
      ensures var joins := old(curRow) > 0 && |old(lines[curRow - 1])| + |old(lines[curRow])| < MAX_COLS - 1;
        var at := old(Cursor()) - 1;
        if old(curCol) > 0 || joins then at >= 0 && Text() == Spliced(old(Text()), at, 1, "") && Cursor() == at
        else Rows() == old(Rows()) && curRow == old(curRow) && curCol == old(curCol)
    {
      hide Flat, Before, Spliced, JoinRows;
      if curCol > 0 {
        DeleteInLine(curCol - 1);
        curCol := curCol - 1;
        return;
      }
      if curRow == 0 { return; }
      if |lines[curRow - 1]| + |lines[curRow]| >= MAX_COLS - 1 { return; }
      LineJoin(Rows(), curRow);
      JoinWithPrevious();
    }

    /** Remove one character of the current line. */
    method DeleteInLine(at: nat)
      requires Valid() && at < |lines[curRow]|
      modifies lines
      ensures nlines <= lines.Length && Storable(Rows()) && |lines[curRow]| == |old(lines[curRow])| - 1
      ensures Offset(old(Rows()), curRow, at) < |old(Text())|
      ensures Flat(Rows()) == Spliced(old(Text()), Offset(old(Rows()), curRow, at), 1, "")
      ensures Rows()[..curRow] == old(Rows())[..curRow]
    {
      var line := lines[curRow];
      LineEdit(Rows(), curRow, at, 1, "");
      EditKeeps(Rows(), curRow, at, 1, "");
      lines[curRow] := line[..at] + line[at + 1..];
      assert lines[curRow] == Spliced(line, at, 1, "");
      assert Rows() == old(Rows())[curRow := Spliced(line, at, 1, "")];
    }

    method JoinWithPrevious()
      requires Valid() && curRow > 0 && |lines[curRow - 1]| + |lines[curRow]| < MAX_COLS
      modifies this, lines
      ensures Valid() && Rows() == JoinRows(old(Rows()), old(curRow))
      ensures curRow == old(curRow) - 1 && curCol == |old(lines[curRow - 1])|
      ensures Rows()[..curRow] == old(Rows())[..curRow]
    {
      hide Storable;
      var prev := curRow - 1;
      var prevLen := |lines[prev]|;
      JoinKeeps(Rows(), curRow);
      lines[prev] := lines[prev] + lines[curRow];
      ghost var merged := lines[..nlines];
      ShiftRowsUp(curRow);
      nlines := nlines - 1;
      assert RemoveRow(merged, curRow) == JoinRows(old(Rows()), curRow);
      assert Rows() == JoinRows(old(Rows()), curRow);
      curRow, curCol := prev, prevLen;
    }

    /** The character under the cursor; past the end of the line, its last one. */
    method DeleteCharUnder()
      requires Valid()
      modifies this, lines
      ensures Valid() && curRow == old(curRow)
      ensures if old(lines[curRow]) == "" then Rows() == old(Rows()) && curCol == old(curCol)
              else var at := if old(curCol) >= |old(lines[curRow])| then old(Cursor()) - 1 else old(Cursor());
                0 <= at < |old(Text())| && Text() == Spliced(old(Text()), at, 1, "")
                && Cursor() == if old(curCol) + 1 >= |old(lines[curRow])| > 1 then at - 1 else at
    {
      var line := lines[curRow];
      if |line| == 0 { return; }
      if curCol >= |line| { curCol := |line| - 1; }
      DeleteInLine(curCol);
      if curCol > 0 && curCol >= |lines[curRow]| { curCol := curCol - 1; }
    }

    /** The whole line, with one of its newlines; the only line becomes empty. */
    method DeleteLine()
      requires Valid()
      modifies this, lines
      ensures Valid()
      ensures old(nlines) == 1 ==> Text() == "" && Cursor() == 0
      ensures old(nlines) > 1 ==>
        var row, len := old(curRow), |old(lines[curRow])|;
        var at := if row + 1 < old(nlines) then Offset(old(Rows()), row, 0) else Offset(old(Rows()), row, 0) - 1;
        && 0 <= at && at + len + 1 <= |old(Text())| && Text() == Spliced(old(Text()), at, len + 1, "")
        && curRow == (if row + 1 < old(nlines) then row else row - 1)
        && curCol == if old(curCol) > |lines[curRow]| then |lines[curRow]| else old(curCol)
    {
      hide Flat, Spliced, RemoveRow, Before;
      if nlines == 1 {
        lines[0] := "";
        curCol := 0;
        OneEmptyRow(Rows());
        return;
      }
      LineRemoved(Rows(), curRow);
      RemoveKeeps(Rows(), curRow);
      ShiftRowsUp(curRow);
      nlines := nlines - 1;
      if curRow >= nlines { curRow := nlines - 1; }
      if curCol > |lines[curRow]| { curCol := |lines[curRow]|; }
    }

    // ----- files -----

    /** What saving writes: the flat text, nothing more. */
    method SaveFile() returns (out: string)
      requires Valid()
      ensures out == Text()
    {
      hide Flat, Saved;
      out := "";
      SavedEnds(Rows());
      for i := 0 to nlines
        invariant out == Saved(Rows(), i)
      {
        SaveNext(Rows(), i);
        if |lines[i]| > 0 { out := out + lines[i]; }
        if i + 1 < nlines { out := out + "\n"; }
      }
    }

    /** Load what could be read; a file that cannot be opened is a new one. */
    method LoadFile(input: Option<string>)
      requires lines.Length == MAX_LINES
      modifies this`nlines, lines
      ensures nlines <= MAX_LINES
      ensures Rows() == if input.Some? then Loaded(input.value) else [""]
    {
      hide LoadFrom;
      if input.None? {
        nlines := 1;
        lines[0] := "";
        return;
      }
      var file := input.value;
      var total := if |file| > LOAD_MAX then LOAD_MAX else |file|;
      ghost var t := file[..total];
      assert Loaded(file) == LoadFrom([], "", t) by { assert |file| <= LOAD_MAX ==> t == file; }
      nlines := 0;
      var line := "";
      var i := 0;
      assert t[0..] == t;
      while i < total
        invariant 0 <= i <= total && nlines < MAX_LINES && |line| < MAX_COLS
        invariant LoadFrom(Rows(), line, t[i..]) == Loaded(file)
      {
        LoadStep(Rows(), line, t[i..]);
        assert t[i..][1..] == t[i + 1..] && t[i..][0] == file[i];
        ghost var done := Rows();
        if file[i] == '\n' {
          lines[nlines] := line;
          nlines := nlines + 1;
          assert Rows() == done + [line];
          line := "";
          if nlines >= MAX_LINES { return; }
        } else {
          if |line| < MAX_COLS - 1 { line := line + [file[i]]; }
        }
        i := i + 1;
      }
      LoadEnd(Rows(), line);
      assert t[i..] == "";
      ghost var done := Rows();
      if |line| > 0 || nlines == 0 {
        lines[nlines] := line;
        nlines := nlines + 1;
        assert Rows() == done + [line];
      }
    }

    /** Saving and loading again brings back the same lines, unless the last of several is empty or the
        file outgrows the load buffer. */
    method SaveThenLoad()
      requires Valid()
      modifies this, lines
      ensures nlines <= MAX_LINES
      ensures Rows() == old(Rows()) <==>
        |old(Text())| <= LOAD_MAX && (old(nlines) == 1 || old(lines[nlines - 1]) != "")
    {
      SaveLoadIff(Rows());
      var file := SaveFile();
      LoadFile(Some(file));
    }
  }

  lemma LoadStep(done: seq<string>, line: string, t: string)
    requires t != ""
    ensures LoadFrom(done, line, t) ==
      if t[0] == '\n' then if |done| + 1 >= MAX_LINES then done + [line] else LoadFrom(done + [line], "", t[1..])
      else LoadFrom(done, if |line| < MAX_COLS - 1 then line + [t[0]] else line, t[1..])
  {
  }

  lemma LoadEnd(done: seq<string>, line: string)
    ensures LoadFrom(done, line, "") == if line != "" || done == [] then done + [line] else done
  {
  }

  lemma IsSplit(rows: seq<string>, r: seq<string>, i: nat, col: nat)
    requires i < |rows| && col <= |rows[i]| && |r| == |rows| + 1
    requires r[i] == rows[i][..col] && r[i + 1] == rows[i][col..]
    requires forall k | 0 <= k < |r| && k != i && k != i + 1 :: r[k] == rows[if k > i then k - 1 else k]
    ensures r == SplitRows(rows, i, col)
  {
  }

  lemma IsRemoval(rows: seq<string>, r: seq<string>, i: nat)
    requires i < |rows| && |r| == |rows| - 1
    requires forall k | 0 <= k < |r| :: r[k] == rows[if k >= i then k + 1 else k]
    ensures r == RemoveRow(rows, i)
  {
  }

  lemma OneEmptyRow(rows: seq<string>)
    requires rows == [""]
    ensures Flat(rows) == "" && Offset(rows, 0, 0) == 0 && Storable(rows)
  {
    assert rows[..0] == [] && rows[1..] == [];
  }

  // ----- edits keep the lines storable -----

  lemma EditKeeps(rows: seq<string>, i: nat, col: nat, cut: nat, s: string)
    requires Storable(rows) && i < |rows| && col + cut <= |rows[i]| && |rows[i]| - cut + |s| < MAX_COLS && '\n' !in s
    ensures Storable(rows[i := Spliced(rows[i], col, cut, s)])
  {
  }

  lemma SplitKeeps(rows: seq<string>, i: nat, col: nat)
    requires Storable(rows) && i < |rows| < MAX_LINES && col <= |rows[i]|
    ensures Storable(SplitRows(rows, i, col))
  {
    var r := SplitRows(rows, i, col);
    forall k | 0 <= k < |r| ensures |r[k]| < MAX_COLS && '\n' !in r[k] {
      if k > i + 1 { assert r[k] == rows[k - 1]; }
    }
  }

  lemma JoinKeeps(rows: seq<string>, i: nat)
    requires Storable(rows) && 0 < i < |rows| && |rows[i - 1]| + |rows[i]| < MAX_COLS
    ensures Storable(JoinRows(rows, i))
  {
    var r := JoinRows(rows, i);
    forall k | 0 <= k < |r| ensures |r[k]| < MAX_COLS && '\n' !in r[k] {
      if k >= i { assert r[k] == rows[k + 1]; }
    }
  }

  lemma RemoveKeeps(rows: seq<string>, i: nat)
    requires Storable(rows) && i < |rows| && |rows| > 1
    ensures Storable(RemoveRow(rows, i))
  {
    var r := RemoveRow(rows, i);
    forall k | 0 <= k < |r| ensures |r[k]| < MAX_COLS && '\n' !in r[k] {
      if k >= i { assert r[k] == rows[k + 1]; }
    }
  }
}
