/** The terminal: grid and scrollback held in fixed buffers, the scrollback as a ring of 256 rows, and
    the view that can be moved back into it. */
module Term {
  import opened TermScreen

  const SCROLLBACK_ROWS: nat := 256

  /** Where row `k` of the ring is stored. */
  function Place(head: nat, k: nat): (i: nat)
    requires head < SCROLLBACK_ROWS && k < SCROLLBACK_ROWS
    ensures i == if head + k < SCROLLBACK_ROWS then head + k else head + k - SCROLLBACK_ROWS
  {
    (head + k) % SCROLLBACK_ROWS
  }

  /** The ring's rows, oldest first. */
  ghost function RingRows(ring: seq<string>, head: nat, count: nat): (rows: seq<string>)
    requires |ring| == SCROLLBACK_ROWS && head < SCROLLBACK_ROWS && count <= SCROLLBACK_ROWS
    ensures |rows| == count
  {
    seq(count, k requires 0 <= k < count => ring[Place(head, k)])
  }

  /** The ring holds the last rows that scrolled off, as many as there are, up to 256. */
  ghost predicate RingHolds(ring: seq<string>, head: nat, count: nat, scrolled: seq<string>) {
    && |ring| == SCROLLBACK_ROWS && head < SCROLLBACK_ROWS
    && count == (if |scrolled| < SCROLLBACK_ROWS then |scrolled| else SCROLLBACK_ROWS)
    && RingRows(ring, head, count) == scrolled[|scrolled| - count..]
  }

  /** Appending a row: into the next free slot, or over the oldest row when the ring is full. */
  lemma PushRing(ring: seq<string>, head: nat, count: nat, scrolled: seq<string>, row: string)
    requires RingHolds(ring, head, count, scrolled)
    ensures count < SCROLLBACK_ROWS ==>
      RingHolds(ring[Place(head, count) := row], head, count + 1, scrolled + [row])
    ensures count == SCROLLBACK_ROWS ==>
      RingHolds(ring[head := row], Place(head, 1), count, scrolled + [row])
  {
    hide Place;
    var before := RingRows(ring, head, count);
    if count < SCROLLBACK_ROWS {
      var slot := Place(head, count);
      var after := RingRows(ring[slot := row], head, count + 1);
      assert forall k | 0 <= k < count :: Place(head, k) != slot;
      assert after == before + [row];
      assert scrolled + [row] == (scrolled + [row])[|scrolled| - count..];
    } else {
      var h := Place(head, 1);
      var after := RingRows(ring[head := row], h, count);
      assert forall k | 0 <= k < count - 1 :: Place(h, k) == Place(head, k + 1) != head;
      assert Place(h, count - 1) == head;
      assert after == before[1..] + [row];
      var n := |scrolled|;
      assert (scrolled + [row])[n + 1 - count..] == scrolled[n + 1 - count..] + [row];
      assert scrolled[n - count..][1..] == scrolled[n + 1 - count..];
    }
  }

  lemma SameErase(s: Screen, params: seq<nat>)
    requires Ok(s)
    ensures Csi(s, 'J', params) == Csi(s, 'J', [Param(params, 0)])
  {
  }

  lemma RingShape(ring: seq<string>, head: nat, count: nat, scrolled: seq<string>)
    requires RingHolds(ring, head, count, scrolled)
    ensures |ring| == SCROLLBACK_ROWS && head < SCROLLBACK_ROWS && count <= SCROLLBACK_ROWS
  {
  }

  lemma NoRows(ring: seq<string>)
    requires |ring| == SCROLLBACK_ROWS
    ensures RingHolds(ring, 0, 0, [])
  {
  }

  class Terminal {
    var cols: nat
    var rows: nat
    var grid: array<string>
    var sb: array<string>
    var sbHead: nat
    var sbCount: nat
    var scrollOff: int
    var cx: int
    var cy: int
    var parser: Parser
    ghost var scrolled: seq<string>

    ghost function Scr(): Screen
      reads this, grid
    {
      Screen(cols, rows, grid[..], cx, cy, scrolled)
    }

    ghost predicate Valid()
      reads this, grid, sb
    {
      && grid != sb && Ok(Scr()) && 0 <= scrollOff <= sbCount
      && RingHolds(sb[..], sbHead, sbCount, scrolled)
    }

    /** The ring's rows, oldest first. */
    ghost function Scrollback(): (rows: seq<string>)
      requires Valid()
      reads this, grid, sb
      ensures |rows| == sbCount
    {
      RingRows(sb[..], sbHead, sbCount)
    }

    constructor (c0: nat, r0: nat)
      ensures Valid() && scrolled == [] && cx == 0 && cy == 0 && parser == START && fresh(grid) && fresh(sb)
    {
      var c := if c0 < MIN_COLS then MIN_COLS else c0;
      var r := if r0 < MIN_ROWS then MIN_ROWS else r0;
      cols, rows := c, r;
      grid := new string[r](_ => Blank(c));
      sb := new string[SCROLLBACK_ROWS](_ => Blank(c));
      sbHead, sbCount, scrollOff, cx, cy, parser := 0, 0, 0, 0, 0, START;
      scrolled := [];
    }

    method GridScroll()
      requires grid != sb && grid.Length == rows > 0 && RingHolds(sb[..], sbHead, sbCount, scrolled)
      modifies this`sbHead, this`sbCount, this`cy, this`scrollOff, this`scrolled, grid, sb
      ensures RingHolds(sb[..], sbHead, sbCount, scrolled) && scrollOff == 0
      ensures Scr() == ScrollUp(old(Scr()))
    {
      hide RingHolds, Blank;
      PushTop();
      ShiftUp();
      if cy > 0 { cy := cy - 1; }
      scrollOff := 0;
    }

    /** The row about to scroll off goes into the ring. */
    method PushTop()
      requires grid != sb && grid.Length > 0 && RingHolds(sb[..], sbHead, sbCount, scrolled)
      modifies this`sbHead, this`sbCount, this`scrolled, sb
      ensures RingHolds(sb[..], sbHead, sbCount, scrolled) && scrolled == old(scrolled) + [old(grid[0])]
      ensures grid[..] == old(grid[..])
    {
      hide RingHolds, Place;
      var row := grid[0];
      RingShape(sb[..], sbHead, sbCount, scrolled);
      PushRing(sb[..], sbHead, sbCount, scrolled, row);
      var slot := sbHead;
      if sbCount == SCROLLBACK_ROWS {
        sbHead := Place(sbHead, 1);
      } else {
        slot := Place(sbHead, sbCount);
        sbCount := sbCount + 1;
      }
      sb[slot] := row;
      assert sb[..] == old(sb[..])[slot := row];
      scrolled := scrolled + [row];
    }

    /** Every row moves up one; the last becomes blank. */
    method ShiftUp()
      requires grid != sb && grid.Length == rows > 0
      modifies grid
      ensures grid[..] == old(grid[..])[1..] + [Blank(cols)] && sb[..] == old(sb[..])
    {
      ghost var g := grid[..];
      var r := 1;
      while r < rows
        invariant 1 <= r <= rows
        invariant forall i | 0 <= i < r - 1 :: grid[i] == g[i + 1]
        invariant forall i | r - 1 <= i < rows :: grid[i] == g[i]
      {
        grid[r - 1] := grid[r];
        r := r + 1;
      }
      grid[rows - 1] := Blank(cols);
    }

    /** Carriage return and line feed, scrolling at the bottom. */
    method NewLine()
      requires Valid()
      modifies this`sbHead, this`sbCount, this`cx, this`cy, this`scrollOff, this`scrolled, grid, sb
      ensures Valid() && Scr() == LineFeed(old(Scr()))
    {
      hide RingHolds, Sized, ScrollUp;
      InGrid(Scr());
      LineFeedOk(Scr());
      cx, cy := 0, cy + 1;
      if cy >= rows { GridScroll(); }
      assert Scr() == LineFeed(old(Scr()));
    }

    method PrintChar(c: char)
      requires Valid()
      modifies this`sbHead, this`sbCount, this`cx, this`cy, this`scrollOff, this`scrolled, grid, sb
      ensures Valid() && Scr() == Print(old(Scr()), c)
    {
      hide RingHolds, LineFeed, Sized;
      InGrid(Scr());
      LineFeedOk(Scr());
      if cx >= cols { NewLine(); }
      InGrid(Scr());
      ghost var g, ring := grid[..], sb[..];
      grid[cy] := grid[cy][cx := c];
      assert grid[..] == g[cy := g[cy][cx := c]];
      assert sb[..] == ring;
      cx := cx + 1;
      assert Scr() == Print(old(Scr()), c);
    }

    method GridPutc(c: char)
      requires Valid()
      modifies this`sbHead, this`sbCount, this`cx, this`cy, this`scrollOff, this`scrolled, grid, sb
      ensures Valid() && Scr() == PutC(old(Scr()), c)
    {
      hide RingHolds, LineFeed, Print, Tab;
      if c == '\r' { cx := 0; return; }
      if c == '\n' { NewLine(); return; }
      if c == 8 as char {
        if cx > 0 {
          cx := cx - 1;
        } else if cy > 0 {
          cy, cx := cy - 1, cols - 1;
        }
        return;
      }
      if c == '\t' { TabOver(); return; }
      if c < ' ' || c >= 127 as char { return; }
      PrintChar(c);
    }

    /** Blanks until the column is a multiple of eight; wrapping on the way does not stop it. */
    method TabOver()
      requires Valid()
      modifies this`sbHead, this`sbCount, this`cx, this`cy, this`scrollOff, this`scrolled, grid, sb
      ensures Valid() && Scr() == Tab(old(Scr()))
    {
      hide RingHolds, Print;
      ghost var goal := Tab(Scr());
      PrintChar(' ');
      while cx % 8 != 0
        invariant Valid()
        invariant if cx % 8 == 0 then Scr() == goal else Tab(Scr()) == goal
        decreases if cx % 8 == 0 then 0 else 1 + TabLeft(cols, cx)
      {
        PrintChar(' ');
      }
    }

    /** The row shown at `r`: the view ends `scrollOff` rows above the bottom of scrollback and grid. */
    method VisibleRow(r: nat) returns (row: string)
      requires Valid() && r < rows
      ensures row == (Scrollback() + grid[..])[sbCount - scrollOff + r]
    {
      hide Place;
      if scrollOff <= 0 { return grid[r]; }
      if r < scrollOff {
        return sb[Place(sbHead, sbCount - scrollOff + r)];
      }
      return grid[r - scrollOff];
    }

    method ScrollView(delta: int)
      requires Valid()
      modifies this`scrollOff
      ensures Valid() && Scr() == old(Scr())
      ensures 0 <= old(scrollOff) + delta <= sbCount ==> scrollOff == old(scrollOff) + delta
      ensures old(scrollOff) + delta < 0 ==> scrollOff == 0
      ensures old(scrollOff) + delta > sbCount ==> scrollOff == sbCount
    {
      hide RingHolds;
      scrollOff := scrollOff + delta;
      if scrollOff < 0 { scrollOff := 0; }
      if scrollOff > sbCount { scrollOff := sbCount; }
    }

    // ----- control sequences -----

    /** Blank the rows of a range. */
    method BlankRows(lo: int, hi: int)
      requires grid != sb && 0 <= lo && hi <= grid.Length == rows
      modifies grid
      ensures grid[..] == ClearRows(old(Scr()), lo, hi) && sb[..] == old(sb[..])
    {
      var r := lo;
      while r < hi
        invariant lo <= r && (if lo <= hi then r <= hi else r == lo)
        invariant forall i | 0 <= i < rows :: grid[i] == if lo <= i < r then Blank(cols) else old(grid[i])
      {
        grid[r] := Blank(cols);
        r := r + 1;
      }
      ghost var g := ClearRows(old(Scr()), lo, hi);
      assert forall i | 0 <= i < rows :: grid[i] == g[i];
    }

    method ClearCells(row: nat, lo: int, hi: int)
      requires grid != sb && row < grid.Length && 0 <= lo
      modifies grid
      ensures grid[..] == old(grid[..])[row := ClearFrom(old(grid[row]), lo, hi)] && sb[..] == old(sb[..])
    {
      var line := grid[row];
      var c := lo;
      while c < hi && c < |line|
        invariant lo <= c && |line| == |old(grid[row])|
        invariant forall j | 0 <= j < |line| :: line[j] == if lo <= j < hi && j < c then ' ' else old(grid[row])[j]
      {
        line := line[c := ' '];
        c := c + 1;
      }
      assert line == ClearFrom(old(grid[row]), lo, hi);
      grid[row] := line;
    }

    method CsiDispatch(final: char, params: seq<nat>)
      requires Valid()
      modifies this`cx, this`cy, grid
      ensures Valid() && Scr() == Csi(old(Scr()), final, params)
    {
      hide RingHolds, Ok, ClearRows, ClearFrom, Clamp;
      if final in {'H', 'f'} {
        MoveTo(final, params);
      } else if final in {'A', 'B', 'C', 'D'} {
        MoveBy(final, params);
      } else if final == 'J' {
        SameErase(Scr(), params);
        Erase(Param(params, 0));
      } else if final == 'K' {
        EraseLine(params);
      }
    }

    /** Absolute cursor positioning, clamped to the grid. */
    method MoveTo(final: char, params: seq<nat>)
      requires Valid() && final in {'H', 'f'}
      modifies this`cx, this`cy
      ensures Valid() && Scr() == Csi(old(Scr()), final, params)
    {
      hide RingHolds, ClearRows, ClearFrom;
      var row: int := if |params| > 0 then Param(params, 0) - 1 else 0;
      var col: int := if |params| > 1 then Param(params, 1) - 1 else 0;
      if row < 0 { row := 0; }
      if col < 0 { col := 0; }
      if row >= rows { row := rows - 1; }
      if col >= cols { col := cols - 1; }
      cy, cx := row, col;
    }

    /** Relative cursor movement, clamped to the grid. */
    method MoveBy(final: char, params: seq<nat>)
      requires Valid() && final in {'A', 'B', 'C', 'D'}
      modifies this`cx, this`cy
      ensures Valid() && Scr() == Csi(old(Scr()), final, params)
    {
      hide RingHolds, ClearRows, ClearFrom;
      var p0 := Param(params, 0);
      var step := if p0 != 0 then p0 else 1;
      if final == 'A' {
        cy := cy - step;
        if cy < 0 { cy := 0; }
      } else if final == 'B' {
        cy := cy + step;
        if cy >= rows { cy := rows - 1; }
      } else if final == 'C' {
        cx := cx + step;
        if cx >= cols { cx := cols - 1; }
      } else {
        cx := cx - step;
        if cx < 0 { cx := 0; }
      }
    }

    /** Erase in the line; the cell past its end is the first one of the next row. */
    method EraseLine(params: seq<nat>)
      requires Valid()
      modifies grid
      ensures Valid() && Scr() == Csi(old(Scr()), 'K', params)
    {
      hide RingHolds, ClearFrom;
      var p0 := Param(params, 0);
      var from := if p0 == 0 then cx else 0;
      var to := if p0 == 1 then cx + 1 else cols;
      ClearCells(cy, from, to);
      if to > cols && cy + 1 < rows { ClearCells(cy + 1, 0, to - cols); }
      assert Scr() == Csi(old(Scr()), 'K', params);
    }

    /** Erase below, above, or everywhere; only the last moves the cursor. */
    method Erase(mode: nat)
      requires Valid()
      modifies this`cx, this`cy, grid
      ensures Valid() && Scr() == Csi(old(Scr()), 'J', [mode])
    {
      hide RingHolds, ClearFrom, Blank;
      ghost var s := Scr();
      InGrid(s);
      assert Param([mode], 0) == mode;
      if mode == 0 {
        ClearCells(cy, cx, cols);
        BlankRows(cy + 1, rows);
        assert grid[..] == ClearRows(s, cy + 1, rows)[cy := ClearFrom(s.grid[cy], cx, cols)];
      } else if mode == 1 {
        BlankRows(0, cy);
        ClearCells(cy, 0, cx + 1);
      } else if mode == 2 {
        BlankRows(0, rows);
        cx, cy := 0, 0;
      }
    }

    // ----- byte stream -----

    method FeedByte(b: char)
      requires Valid()
      modifies this, grid, sb
      ensures Valid() && grid == old(grid) && sb == old(sb)
      ensures (parser, Scr()) == Feed(old(parser), old(Scr()), b)
    {
      hide RingHolds, Ok, PutC, Csi;
      match parser.mode
      case Plain =>
        if b == 27 as char {
          parser := parser.(mode := Esc);
        } else {
          GridPutc(b);
        }
      case Esc =>
        parser := if b == '[' then Parser(InCsi, [], 0, false) else parser.(mode := Plain);
      case InCsi =>
        if IsDigit(b) {
          parser := parser.(cur := parser.cur * 10 + (b - '0') as nat, have := true);
        } else if b == ';' {
          parser := Parser(InCsi, Pushed(parser.params, if parser.have then parser.cur else 0), 0, false);
        } else if b != '?' {
          var params := parser.params;
          if parser.have || params == [] { params := Pushed(params, parser.cur); }
          CsiDispatch(b, params);
          parser := parser.(mode := Plain, params := params);
        }
    }

    /** Any byte stream: the ring ends up holding the last rows that scrolled off, in order, the cursor
        never leaves the grid, and the view is intact. */
    method FeedBytes(bytes: string)
      requires Valid()
      modifies this, grid, sb
      ensures Valid() && (parser, Scr()) == FeedAll(old(parser), old(Scr()), bytes)
      ensures Scrollback() == scrolled[|scrolled| - sbCount..]
      ensures sbCount == (if |scrolled| < SCROLLBACK_ROWS then |scrolled| else SCROLLBACK_ROWS)
    {
      for n := 0 to |bytes|
        invariant Valid() && grid == old(grid) && sb == old(sb)
        invariant (parser, Scr()) == FeedAll(old(parser), old(Scr()), bytes[..n])
      {
        assert bytes[..n + 1][..n] == bytes[..n];
        FeedByte(bytes[n]);
      }
      assert bytes[..|bytes|] == bytes;
    }

    /** New dimensions: the overlap is kept, on shrinking the bottom rows of it, and the scrollback is
        dropped. */
    method GridResize(cols0: nat, rows0: nat, allocOk: bool) returns (ok: bool)
      requires Valid()
      modifies this
      ensures Valid()
      ensures var c, r := if cols0 < MIN_COLS then MIN_COLS else cols0, if rows0 < MIN_ROWS then MIN_ROWS else rows0;
        if c == old(cols) && r == old(rows) then ok && Scr() == old(Scr())
        else if !allocOk then !ok && Scr() == old(Scr())
        else ok && Scr() == Resized(old(Scr()), c, r) && sbCount == 0 && scrollOff == 0
    {
      hide RingHolds, ResizedGrid, Sized, Blank;
      var c := if cols0 < MIN_COLS then MIN_COLS else cols0;
      var r := if rows0 < MIN_ROWS then MIN_ROWS else rows0;
      if c == cols && r == rows { return true; }
      if !allocOk { return false; }
      ghost var s := Scr();
      InGrid(s);
      ResizedOk(s, c, r);
      var base := if r < rows then rows - r else 0;
      var newSb := new string[SCROLLBACK_ROWS](_ => Blank(c));
      var newGrid := ReshapedGrid(c, r, base);
      var x, y := cx, cy - base;
      if y < 0 { y := 0; }
      if x >= c { x := c - 1; }
      if y >= r { y := r - 1; }
      Install(newGrid, newSb, c, r, x, y);
      ok := true;
    }

    /** Switch to new buffers, with an empty scrollback. */
    method Install(newGrid: array<string>, newSb: array<string>, c: nat, r: nat, x: int, y: int)
      requires newGrid != newSb && newSb.Length == SCROLLBACK_ROWS && Ok(Screen(c, r, newGrid[..], x, y, []))
      modifies this
      ensures Valid() && Scr() == Screen(c, r, old(newGrid[..]), x, y, []) && sbCount == 0 && scrollOff == 0
    {
      hide RingHolds, Ok;
      NoRows(newSb[..]);
      grid, sb, cols, rows, cx, cy := newGrid, newSb, c, r, x, y;
      sbHead, sbCount, scrollOff := 0, 0, 0;
      scrolled := [];
      assert grid[..] == old(newGrid[..]) && sb[..] == old(newSb[..]);
    }

    method ReshapedGrid(c: nat, r: nat, base: nat) returns (g: array<string>)
      requires grid.Length == rows && base == Base(Scr(), r)
      ensures fresh(g) && g[..] == ResizedGrid(Scr(), c, r)
    {
      g := new string[r](_ => Blank(c));
      for i := 0 to r
        invariant forall k | 0 <= k < i :: g[k] == ResizedRow(old(Scr()), c, r, k)
        invariant grid[..] == old(grid[..])
        modifies g
      {
        g[i] := if base + i < rows then Fitted(grid[base + i], c) else Blank(c);
      }
    }
  }
}
