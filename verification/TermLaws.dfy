/** What bytes do to the screen, cell by cell and through each other. */
module TermLaws {
  import D = Decimal
  import opened Strings
  import opened TermScreen

  // ----- moving -----

  /** `n` less, counting from one. */
  function Less(from: nat, n: nat): nat { if n < from then from - n else 1 }

  function Steps(n: nat): nat { if n == 0 then 1 else n }

  /** Moving by `n` is moving to the place `n` further, clamped to the grid. Only up and down leave a cursor past the
      last column where it is, which no absolute move does. */
  lemma MoveIsJump(s: Screen, n: nat)
    requires Ok(s)
    ensures Csi(s, 'A', [n]) == Csi(s, 'H', [Less(s.cy + 1, Steps(n)), s.cx + 1]) <==> s.cx < s.cols
    ensures Csi(s, 'B', [n]) == Csi(s, 'H', [s.cy + 1 + Steps(n), s.cx + 1]) <==> s.cx < s.cols
    ensures Csi(s, 'C', [n]) == Csi(s, 'H', [s.cy + 1, s.cx + 1 + Steps(n)])
    ensures Csi(s, 'D', [n]) == Csi(s, 'H', [s.cy + 1, Less(s.cx + 1, Steps(n))])
    ensures Csi(s, 'A', [n]).cx == s.cx == Csi(s, 'B', [n]).cx
    ensures Csi(s, 'A', [n]).cy == Less(s.cy + 1, Steps(n)) - 1
    ensures Csi(s, 'B', [n]).cy == Csi(s, 'H', [s.cy + 1 + Steps(n)]).cy
  {
  }

  /** An absolute move goes to row `r` and column `c`, counted from one, and changes no cell; what is missing
      counts as one, and what lies outside as the last row or column. */
  lemma Jumps(s: Screen, r: nat, c: nat)
    requires Ok(s)
    ensures Csi(s, 'f', [r, c]) == Csi(s, 'H', [r, c]) && Csi(s, 'H', []) == Csi(s, 'H', [1, 1])
    ensures Csi(s, 'H', [r]) == Csi(s, 'H', [r, 1])
    ensures 1 <= r <= s.rows && 1 <= c <= s.cols ==> Csi(s, 'H', [r, c]) == s.(cy := r - 1, cx := c - 1)
    ensures r > s.rows ==> Csi(s, 'H', [r, c]) == Csi(s, 'H', [s.rows, c])
    ensures c > s.cols ==> Csi(s, 'H', [r, c]) == Csi(s, 'H', [r, s.cols])
  {
  }

  // ----- control characters -----

  /** Return is a move to the first column, backspace a move to the left or to the end of the line above. */
  lemma ReturnAndBackspace(s: Screen)
    requires Ok(s)
    ensures PutC(s, '\r') == Csi(s, 'H', [s.cy + 1, 1])
    ensures s.cx > 0 ==> PutC(s, 8 as char) == Csi(s, 'D', [1])
    ensures s.cx == 0 && s.cy > 0 ==> PutC(s, 8 as char) == Csi(s, 'H', [s.cy, s.cols])
    ensures s.cx == 0 == s.cy ==> PutC(s, 8 as char) == s
  {
  }

  /** A new line is a return and a move down; on the last row the screen moves up instead. */
  lemma NewLineIs(s: Screen)
    requires Ok(s)
    ensures s.cy + 1 < s.rows ==> PutC(s, '\n') == Csi(PutC(s, '\r'), 'B', [1])
    ensures s.cy + 1 == s.rows ==>
      var t := PutC(s, '\n');
      && t.cx == 0 && t.cy == s.cy && t.scrolled == s.scrolled + [s.grid[0]]
      && t.grid[s.cy] == Blank(s.cols) && forall i | 0 <= i < s.cy :: t.grid[i] == s.grid[i + 1]
  {
  }

  /** Past the last column a character goes where it would after a new line. */
  lemma Wraps(s: Screen, c: char)
    requires Ok(s) && s.cx == s.cols && ' ' <= c < 127 as char
    ensures PutC(s, c) == PutC(PutC(s, '\n'), c)
  {
  }

  /** Bytes that are neither printable nor one of these do nothing. */
  lemma Ignored(s: Screen, c: char)
    requires Ok(s) && (c < ' ' || c >= 127 as char) && c !in {'\r', '\n', '\t', 8 as char}
    ensures PutC(s, c) == s
  {
  }

  /** `k` blanks. */
  function Spaces(s: Screen, k: nat): (t: Screen)
    requires Ok(s)
    ensures Ok(t) && t.cols == s.cols
    decreases k
  {
    if k == 0 then s else Spaces(PutC(s, ' '), k - 1)
  }

  /** A tab is blanks up to the next multiple of eight, when the line goes so far. */
  lemma {:induction false} TabIsSpaces(s: Screen, k: nat)
    requires Ok(s) && 0 < k <= 8 && (s.cx + k) % 8 == 0 && s.cx + k <= s.cols
    ensures PutC(s, '\t') == Spaces(s, k) && PutC(s, '\t').cx == s.cx + k
    decreases k
  {
    var t := PutC(s, ' ');
    assert t == Print(s, ' ') && t.cx == s.cx + 1;
    if k > 1 {
      TabIsSpaces(t, k - 1);
      assert t.cx % 8 != 0;
      assert Tab(s) == Tab(t);
    }
  }

  // ----- erasing -----

  /** Cells are numbered row by row. */
  lemma InOrder(cols: nat, i: nat, j: nat, k: nat, l: nat)
    requires j < cols && l <= cols
    ensures i * cols + j >= k * cols + l <==> i > k || (i == k && j >= l)
    ensures l < cols ==> (i * cols + j <= k * cols + l <==> i < k || (i == k && j <= l))
  {
    if i > k { AtLeast(i - k, cols); assert i * cols == k * cols + (i - k) * cols; }
    if i < k { AtLeast(k - i, cols); assert k * cols == i * cols + (k - i) * cols; }
  }

  lemma AtLeast(n: nat, cols: nat)
    requires n > 0
    ensures n * cols >= cols
  {
  }

  /** Erasing in the screen blanks every cell from the cursor on, every cell up to the cursor, or all; no other cell
      changes, and only the last moves the cursor. */
  lemma EraseCells(s: Screen, i: nat, j: nat)
    requires Ok(s) && i < s.rows && j < s.cols
    ensures Csi(s, 'J', [0]).grid[i][j] == if Index(s, i, j) >= Index(s, s.cy, s.cx) then ' ' else s.grid[i][j]
    ensures var last := if s.cx < s.cols then s.cx else s.cols - 1;
      Csi(s, 'J', [1]).grid[i][j] == if Index(s, i, j) <= Index(s, s.cy, last) then ' ' else s.grid[i][j]
    ensures Csi(s, 'J', [2]).grid[i][j] == ' '
  {
    InOrder(s.cols, i, j, s.cy, s.cx);
    InOrder(s.cols, i, j, s.cy, if s.cx < s.cols then s.cx else s.cols - 1);
    hide Index;
    assert Csi(s, 'J', [0]).grid == ClearRows(s, s.cy + 1, s.rows)[s.cy := ClearFrom(s.grid[s.cy], s.cx, s.cols)];
    assert Csi(s, 'J', [1]).grid == ClearRows(s, 0, s.cy)[s.cy := ClearFrom(s.grid[s.cy], 0, s.cx + 1)];
    assert Csi(s, 'J', [2]).grid == ClearRows(s, 0, s.rows);
  }

  lemma EraseKeepsCursor(s: Screen, mode: nat)
    requires Ok(s)
    ensures var t := Csi(s, 'J', [mode]);
      if mode == 2 then t.cx == 0 == t.cy else t.cx == s.cx && t.cy == s.cy
    ensures mode > 2 ==> Csi(s, 'J', [mode]) == s
    ensures Csi(s, 'J', []) == Csi(s, 'J', [0]) && Csi(s, 'K', []) == Csi(s, 'K', [0])
    ensures Csi(s, 'K', [mode]).cx == s.cx && Csi(s, 'K', [mode]).cy == s.cy
  {
  }

  /** The same in the cursor's line. */
  lemma EraseLineCells(s: Screen, j: nat)
    requires Ok(s) && j < s.cols
    ensures Csi(s, 'K', [0]).grid[s.cy][j] == if j >= s.cx then ' ' else s.grid[s.cy][j]
    ensures Csi(s, 'K', [1]).grid[s.cy][j] == if j <= s.cx then ' ' else s.grid[s.cy][j]
    ensures Csi(s, 'K', [2]).grid[s.cy][j] == ' '
  {
  }

  // ----- byte sequences -----

  lemma {:induction false} FeedTwice(p: Parser, s: Screen, a: string, b: string)
    requires Ok(s)
    ensures FeedAll(p, s, a + b) == var (q, t) := FeedAll(p, s, a); FeedAll(q, t, b)
    decreases |b|
  {
    if b == "" {
      assert a + b == a;
    } else {
      var f, z := b[..|b| - 1], b[|b| - 1];
      hide FeedAll, Feed, Ok;
      FeedTwice(p, s, a, f);
      FeedMore(p, s, a + f, z);
      assert f + [z] == b;
      Regroup(a, f, [z]);
      var (q, t) := FeedAll(p, s, a);
      FeedMore(q, t, f, z);
    }
  }

  lemma FeedOne(p: Parser, s: Screen, b: char)
    requires Ok(s)
    ensures FeedAll(p, s, [b]) == Feed(p, s, b)
  {
    assert [b][..0] == "";
  }

  /** Digits in a control sequence are read as a decimal number. */
  lemma {:induction false} DigitsFed(p: Parser, s: Screen, digits: string)
    requires Ok(s) && p.mode == InCsi && p.cur == 0 && digits != "" && D.AllDigits(digits)
    ensures FeedAll(p, s, digits) == (p.(cur := D.Value(digits), have := true), s)
  {
    var f, z := digits[..|digits| - 1], digits[|digits| - 1];
    if f != "" {
      DigitsFed(p, s, f);
    } else {
      assert FeedAll(p, s, f) == (p, s);
    }
    assert IsDigit(z) && D.IsDigit(z);
  }

  /** The bytes of an absolute move. */
  function JumpBytes(r: nat, c: nat): string { [ESC, '['] + (D.ShowNat(r) + (";" + (D.ShowNat(c) + "H"))) }

  lemma JumpFed(p: Parser, s: Screen, r: nat, c: nat)
    requires Ok(s) && p.mode == Plain
    ensures FeedAll(p, s, JumpBytes(r, c)) == (Parser(Plain, [r, c], c, true), Csi(s, 'H', [r, c]))
  {
    hide Csi, FeedAll, Ok;
    var R, C := D.ShowNat(r), D.ShowNat(c);
    var p0 := Parser(InCsi, [], 0, false);
    var p1 := Parser(InCsi, [r], 0, false);
    D.ValueOfShow(r);
    D.ValueOfShow(c);
    FeedTwice(p, s, [ESC, '['], R + (";" + (C + "H")));
    FeedTwice(p, s, [ESC], ['[']);
    assert [ESC] + ['['] == [ESC, '['];
    FeedOne(p, s, ESC);
    FeedOne(p.(mode := Esc), s, '[');
    FeedTwice(p0, s, R, ";" + (C + "H"));
    DigitsFed(p0, s, R);
    FeedTwice(p0.(cur := r, have := true), s, ";", C + "H");
    FeedOne(p0.(cur := r, have := true), s, ';');
    assert [] + [r] == [r];
    FeedTwice(p1, s, C, "H");
    DigitsFed(p1, s, C);
    FeedOne(p1.(cur := c, have := true), s, 'H');
    assert [r] + [c] == [r, c];
  }

  lemma OneCell(p: Parser, s: Screen, ch: char)
    requires Ok(s) && p.mode == Plain && s.cx < s.cols && ' ' <= ch < 127 as char
    ensures Feed(p, s, ch) == (p, s.(grid := s.grid[s.cy := s.grid[s.cy][s.cx := ch]], cx := s.cx + 1))
  {
  }

  /** Go to a row and column, print: that cell and no other has the character, and the cursor stands behind it. */
  lemma PrintAt(p: Parser, s: Screen, r: nat, c: nat, ch: char)
    requires Ok(s) && p.mode == Plain && 1 <= r <= s.rows && 1 <= c <= s.cols && ' ' <= ch < 127 as char
    ensures var t := FeedAll(p, s, JumpBytes(r, c) + [ch]).1;
      && t.cy == r - 1 && t.cx == c && t.scrolled == s.scrolled && |t.grid| == s.rows
      && t.grid[r - 1] == s.grid[r - 1][c - 1 := ch]
      && forall i | 0 <= i < s.rows && i != r - 1 :: t.grid[i] == s.grid[i]
  {
    hide FeedAll, JumpBytes, Csi, Feed;
    JumpFed(p, s, r, c);
    FeedMore(p, s, JumpBytes(r, c), ch);
    Jumps(s, r, c);
    OneCell(Parser(Plain, [r, c], c, true), s.(cy := r - 1, cx := c - 1), ch);
  }

  /** Printable characters one after the other fill a line from the cursor on. */
  lemma {:induction false} PrintRun(p: Parser, s: Screen, w: string)
    requires Ok(s) && p.mode == Plain && s.cx + |w| <= s.cols
    requires forall i | 0 <= i < |w| :: ' ' <= w[i] < 127 as char
    ensures var (q, t) := FeedAll(p, s, w);
      && q == p && t.cx == s.cx + |w| && t.cy == s.cy && t.scrolled == s.scrolled && |t.grid| == s.rows
      && t.grid[s.cy] == s.grid[s.cy][..s.cx] + w + s.grid[s.cy][s.cx + |w|..]
      && forall i | 0 <= i < s.rows && i != s.cy :: t.grid[i] == s.grid[i]
    decreases |w|
  {
    var line := s.grid[s.cy];
    if w == "" {
      assert line == line[..s.cx] + "" + line[s.cx..];
    } else {
      var n := |w| - 1;
      var f, z := w[..n], w[n];
      PrintRun(p, s, f);
      var t := FeedAll(p, s, f).1;
      FeedMore(p, s, f, z);
      assert f + [z] == w;
      hide FeedAll, Feed;
      OneCell(p, t, z);
      OneLonger(line, s.cx, f, z);
    }
  }

  lemma OneLonger(line: string, at: nat, f: string, z: char)
    requires at + |f| < |line|
    ensures (line[..at] + f + line[at + |f|..])[at + |f| := z] == line[..at] + (f + [z]) + line[at + |f| + 1..]
  {
  }

  // ----- resizing -----

  /** A cell that is kept is kept in its column, and in its row counted from the top, or from the bottom when rows
      go. */
  lemma KeptCell(s: Screen, cols: nat, rows: nat, i: nat, j: nat)
    requires Ok(s) && cols >= MIN_COLS && rows >= MIN_ROWS && i < s.rows && j < s.cols && j < cols
    ensures rows >= s.rows ==> Resized(s, cols, rows).grid[i][j] == s.grid[i][j]
    ensures rows < s.rows && i >= s.rows - rows ==>
      Resized(s, cols, rows).grid[i - (s.rows - rows)][j] == s.grid[i][j]
  {
  }

  /** Cells that were not there before are blank. */
  lemma NewCell(s: Screen, cols: nat, rows: nat, i: nat, j: nat)
    requires Ok(s) && cols >= MIN_COLS && rows >= MIN_ROWS && i < rows && j < cols
    ensures i >= s.rows || j >= s.cols ==> Resized(s, cols, rows).grid[i][j] == ' '
  {
  }

  /** How far a row is from the bottom. */
  function FromBottom(s: Screen): int { s.rows - s.cy }

  /** The cursor stays on its line exactly when the line is kept: when rows go, the top ones go, wherever the
      cursor is. */
  lemma CursorStaysIff(s: Screen, cols: nat, rows: nat)
    requires Ok(s) && cols >= MIN_COLS && rows >= MIN_ROWS
    ensures rows >= s.rows ==> Resized(s, cols, rows).cy == s.cy
    ensures rows < s.rows ==> (FromBottom(Resized(s, cols, rows)) == FromBottom(s) <==> FromBottom(s) <= rows)
    ensures s.cx < cols <==> Resized(s, cols, rows).cx == s.cx
  {
  }

  /** For instance: a prompt on the first of four lines is gone when there are only three. */
  lemma PromptLost()
    ensures var blank := Blank(20);
      var s := Screen(20, 4, ["$" + Blank(19), blank, blank, blank], 1, 0, []);
      Ok(s) && Resized(s, 20, 3).cy == 0 && Resized(s, 20, 3).grid == [blank, blank, blank]
  {
    var blank := Blank(20);
    var s := Screen(20, 4, ["$" + Blank(19), blank, blank, blank], 1, 0, []);
    var g := Resized(s, 20, 3).grid;
    assert Fitted(blank, 20) == blank;
    forall i | 0 <= i < 3 ensures g[i] == blank {
      assert g[i] == ResizedRow(s, 20, 3, i) == Fitted(s.grid[1 + i], 20);
    }
  }
}
