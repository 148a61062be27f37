/** The terminal screen as a value: a grid of rows, a cursor, and every row that ever scrolled off the
    top since the last resize. Colours are not modelled. */
module TermScreen {

  const MIN_COLS: nat := 20
  const MIN_ROWS: nat := 3

  datatype Screen = Screen(cols: nat, rows: nat, grid: seq<string>, cx: int, cy: int, scrolled: seq<string>)

  function Blank(cols: nat): (r: string)
    ensures |r| == cols
  {
    seq(cols, _ => ' ')
  }

  ghost predicate Sized(s: Screen) {
    && s.cols >= MIN_COLS && s.rows >= MIN_ROWS && |s.grid| == s.rows
    && forall i | 0 <= i < |s.grid| :: |s.grid[i]| == s.cols
  }

  /** The cursor may rest one past the last column, never past the last row. */
  ghost predicate Ok(s: Screen) {
    Sized(s) && 0 <= s.cx <= s.cols && 0 <= s.cy < s.rows
  }

  lemma InGrid(s: Screen)
    requires Ok(s)
    ensures |s.grid| == s.rows > 0 && |s.grid[s.cy]| == s.cols > 0
  {
  }

  /** The top row goes to the scrollback and a blank one comes in below. */
  function ScrollUp(s: Screen): Screen
    requires s.grid != []
  {
    s.(grid := s.grid[1..] + [Blank(s.cols)], scrolled := s.scrolled + [s.grid[0]],
       cy := if s.cy > 0 then s.cy - 1 else s.cy)
  }

  function LineFeed(s: Screen): Screen
    requires s.grid != []
  {
    var t := s.(cx := 0, cy := s.cy + 1);
    if t.cy >= t.rows then ScrollUp(t) else t
  }

  lemma LineFeedOk(s: Screen)
    requires Ok(s)
    ensures Ok(LineFeed(s)) && LineFeed(s).cx == 0 && LineFeed(s).cols == s.cols && LineFeed(s).rows == s.rows
    ensures s.scrolled <= LineFeed(s).scrolled
  {
  }

  /** A printable character: wrap first if the line is full. */
  function Print(s: Screen, c: char): (t: Screen)
    requires Ok(s)
    ensures Ok(t) && t.cols == s.cols && t.rows == s.rows && s.scrolled <= t.scrolled
    ensures t.cx == if s.cx >= s.cols then 1 else s.cx + 1
  {
    LineFeedOk(s);
    var t := if s.cx >= s.cols then LineFeed(s) else s;
    t.(grid := t.grid[t.cy := t.grid[t.cy][t.cx := c]], cx := t.cx + 1)
  }

  /** How far a tab still has to go: to the next multiple of eight, perhaps by way of the next line. */
  function TabLeft(cols: nat, cx: int): int {
    if cx <= 8 then 8 - cx else cols - cx + 9
  }

  /** Blanks up to the next tab stop. */
  function Tab(s: Screen): (t: Screen)
    requires Ok(s)
    ensures Ok(t) && t.cols == s.cols && t.rows == s.rows && s.scrolled <= t.scrolled
    ensures t.cx % 8 == 0
    decreases if s.cx % 8 == 0 then s.cols + 20 else TabLeft(s.cols, s.cx)
  {
    var t := Print(s, ' ');
    if t.cx % 8 == 0 then t else Tab(t)
  }

  function PutC(s: Screen, c: char): (t: Screen)
    requires Ok(s)
    ensures Ok(t) && t.cols == s.cols && t.rows == s.rows && s.scrolled <= t.scrolled
  {
    LineFeedOk(s);
    if c == '\r' then s.(cx := 0)
    else if c == '\n' then LineFeed(s)
    else if c == 8 as char then
      if s.cx > 0 then s.(cx := s.cx - 1) else if s.cy > 0 then s.(cy := s.cy - 1, cx := s.cols - 1) else s
    else if c == '\t' then Tab(s)
    else if c < ' ' || c >= 127 as char then s
    else Print(s, c)
  }

  /** Rows are never lost or reordered: what has scrolled off followed by what is on the screen only
      grows at its end. */
  lemma ScrollConserves(s: Screen)
    requires s.grid != []
    ensures ScrollUp(s).scrolled + ScrollUp(s).grid == s.scrolled + s.grid + [Blank(s.cols)]
  {
    assert s.grid == [s.grid[0]] + s.grid[1..];
  }

  // ----- control sequences -----

  function Clamp(n: int, hi: int): int { if n < 0 then 0 else if n > hi then hi else n }

  function Param(params: seq<nat>, i: nat): nat { if i < |params| then params[i] else 0 }

  function ClearFrom(line: string, lo: int, hi: int): (r: string)
    requires 0 <= lo
    ensures |r| == |line|
  {
    seq(|line|, j requires 0 <= j < |line| => if lo <= j < hi then ' ' else line[j])
  }

  function ClearRows(s: Screen, lo: int, hi: int): (g: seq<string>)
    ensures |g| == |s.grid|
    ensures forall i | 0 <= i < |g| :: g[i] == if lo <= i < hi then Blank(s.cols) else s.grid[i]
  {
    seq(|s.grid|, i requires 0 <= i < |s.grid| => if lo <= i < hi then Blank(s.cols) else s.grid[i])
  }

  /** The cells of the cursor's line to erase: from the cursor on, up to it, or all. */
  function EraseFrom(s: Screen, mode: nat): int { if mode == 0 then s.cx else 0 }
  function EraseTo(s: Screen, mode: nat): int { if mode == 1 then s.cx + 1 else s.cols }

  /** Erasing in the line. The rows lie one after the other in memory, so the cell past the last column is
      the first one of the next row; after the last row it is no cell of the grid. */
  function ErasedLine(s: Screen, mode: nat): (g: seq<string>)
    requires Ok(s)
    ensures |g| == s.rows && forall i | 0 <= i < s.rows :: |g[i]| == s.cols
  {
    var to := EraseTo(s, mode);
    var g := s.grid[s.cy := ClearFrom(s.grid[s.cy], EraseFrom(s, mode), to)];
    if to > s.cols && s.cy + 1 < s.rows then g[s.cy + 1 := ClearFrom(g[s.cy + 1], 0, to - s.cols)] else g
  }

  /** Erasing in the line changes another line exactly when all up to a cursor past the last column is erased
      and the next line begins with something. */
  lemma EraseStaysIff(s: Screen, mode: nat)
    requires Ok(s)
    ensures (forall i | 0 <= i < s.rows && i != s.cy :: ErasedLine(s, mode)[i] == s.grid[i])
            <==> !(mode == 1 && s.cx == s.cols && s.cy + 1 < s.rows && s.grid[s.cy + 1][0] != ' ')
  {
    var g := ErasedLine(s, mode);
    if mode == 1 && s.cx == s.cols && s.cy + 1 < s.rows {
      var next := s.grid[s.cy + 1];
      assert g[s.cy + 1] == ClearFrom(next, 0, 1) && g[s.cy + 1][0] == ' ';
      if next[0] == ' ' { assert ClearFrom(next, 0, 1) == next; }
    }
  }

  /** Where cell `c` of row `row` lies in memory. */
  function Index(s: Screen, row: int, c: int): int { row * s.cols + c }

  /** The last cell erased is no cell of the grid exactly when that happens on the last line. */
  lemma EraseInGridIff(s: Screen, mode: nat)
    requires Ok(s) && EraseFrom(s, mode) < EraseTo(s, mode)
    ensures Index(s, s.cy, EraseTo(s, mode) - 1) < Index(s, s.rows, 0)
            <==> !(mode == 1 && s.cx == s.cols && s.cy == s.rows - 1)
  {
    var left := s.rows - s.cy;
    assert s.rows * s.cols == s.cy * s.cols + left * s.cols;
    if left > 1 { AtLeastTwice(left, s.cols); }
  }

  lemma AtLeastTwice(n: int, cols: int)
    requires n >= 2 && cols > 0
    ensures n * cols >= 2 * cols
  {
  }

  /** One control sequence: cursor moves are clamped to the grid, erasures blank cells. */
  function Csi(s: Screen, final: char, params: seq<nat>): (t: Screen)
    requires Ok(s)
    ensures Ok(t) && t.cols == s.cols && t.rows == s.rows && t.scrolled == s.scrolled
  {
    var p0, p1 := Param(params, 0), Param(params, 1);
    var step := if p0 != 0 then p0 else 1;
    match final
    case 'H' | 'f' =>
      s.(cy := Clamp(if |params| > 0 then p0 - 1 else 0, s.rows - 1),
         cx := Clamp(if |params| > 1 then p1 - 1 else 0, s.cols - 1))
    case 'A' => s.(cy := Clamp(s.cy - step, s.rows - 1))
    case 'B' => s.(cy := Clamp(s.cy + step, s.rows - 1))
    case 'C' => s.(cx := Clamp(s.cx + step, s.cols - 1))
    case 'D' => s.(cx := Clamp(s.cx - step, s.cols))
    case 'J' =>
      if p0 == 0 then s.(grid := ClearRows(s, s.cy + 1, s.rows)[s.cy := ClearFrom(s.grid[s.cy], s.cx, s.cols)])
      else if p0 == 1 then s.(grid := ClearRows(s, 0, s.cy)[s.cy := ClearFrom(s.grid[s.cy], 0, s.cx + 1)])
      else if p0 == 2 then s.(grid := ClearRows(s, 0, s.rows), cx := 0, cy := 0)
      else s
    case 'K' => s.(grid := ErasedLine(s, p0))
    case _ => s
  }

  // ----- byte stream -----

  datatype Mode = Plain | Esc | InCsi
  datatype Parser = Parser(mode: Mode, params: seq<nat>, cur: nat, have: bool)

  const START := Parser(Plain, [], 0, false)

  predicate IsDigit(b: char) { '0' <= b <= '9' }

  function Pushed(params: seq<nat>, p: nat): seq<nat> { if |params| < 8 then params + [p] else params }

  function Feed(p: Parser, s: Screen, b: char): (r: (Parser, Screen))
    requires Ok(s)
    ensures Ok(r.1) && r.1.cols == s.cols && r.1.rows == s.rows && s.scrolled <= r.1.scrolled
  {
    match p.mode
    case Plain => if b == 27 as char then (p.(mode := Esc), s) else (p, PutC(s, b))
    case Esc => if b == '[' then (Parser(InCsi, [], 0, false), s) else (p.(mode := Plain), s)
    case InCsi =>
      if IsDigit(b) then (p.(cur := p.cur * 10 + (b - '0') as nat, have := true), s)
      else if b == ';' then (Parser(InCsi, Pushed(p.params, if p.have then p.cur else 0), 0, false), s)
      else if b == '?' then (p, s)
      else
        var params := if p.have || p.params == [] then Pushed(p.params, p.cur) else p.params;
        (p.(mode := Plain, params := params), Csi(s, b, params))
  }

  function FeedAll(p: Parser, s: Screen, bytes: string): (r: (Parser, Screen))
    requires Ok(s)
    ensures Ok(r.1) && r.1.cols == s.cols && r.1.rows == s.rows && s.scrolled <= r.1.scrolled
  {
    if bytes == "" then (p, s)
    else
      var (p1, s1) := FeedAll(p, s, bytes[..|bytes| - 1]);
      Feed(p1, s1, bytes[|bytes| - 1])
  }

  // ----- a star that is lost -----

  const ESC := 27 as char
  const EMPTY := Screen(20, 3, [Blank(20), Blank(20), Blank(20)], 0, 0, [])

  /** A star in the second line, and back to the first. */
  const STAR := "\n*" + [ESC] + "[H"

  function Exes(n: nat): string { seq(n, _ => 'x') }

  lemma FeedMore(p: Parser, s: Screen, bytes: string, b: char)
    requires Ok(s)
    ensures FeedAll(p, s, bytes + [b]) == var (p1, s1) := FeedAll(p, s, bytes); Feed(p1, s1, b)
  {
    assert (bytes + [b])[..|bytes|] == bytes;
  }

  /** After the star and `n` letters the cursor stands behind them in the first line. */
  ghost predicate Filled(r: (Parser, Screen), n: nat) {
    && Ok(r.1) && r.1.cols == 20 && r.1.rows == 3 && r.0.mode == Plain
    && r.1.cx == n && r.1.cy == 0 && r.1.grid[1][0] == '*'
  }

  lemma StarFed()
    ensures Filled(FeedAll(START, EMPTY, STAR), 0)
  {
    FeedMore(START, EMPTY, "", '\n');
    assert "" + ['\n'] == "\n";
    FeedMore(START, EMPTY, "\n", '*');
    assert "\n" + ['*'] == "\n*";
    FeedMore(START, EMPTY, "\n*", ESC);
    FeedMore(START, EMPTY, "\n*" + [ESC], '[');
    FeedMore(START, EMPTY, "\n*" + [ESC] + ['['], 'H');
    assert "\n*" + [ESC] + ['['] + ['H'] == STAR;
  }

  lemma OneMore(r: (Parser, Screen), n: nat)
    requires Filled(r, n) && n < 20
    ensures Filled(Feed(r.0, r.1, 'x'), n + 1)
  {
    hide Csi, Tab;
  }

  lemma MoreExes(t: string, n: nat)
    ensures t + Exes(n) + ['x'] == t + Exes(n + 1)
  {
  }

  lemma {:induction false} ExesFed(n: nat)
    requires n <= 20
    ensures Filled(FeedAll(START, EMPTY, STAR + Exes(n)), n)
  {
    if n == 0 {
      StarFed();
      assert STAR + Exes(0) == STAR;
    } else {
      ExesFed(n - 1);
      hide FeedAll, Feed, Filled;
      FeedMore(START, EMPTY, STAR + Exes(n - 1), 'x');
      MoreExes(STAR, n - 1);
      OneMore(FeedAll(START, EMPTY, STAR + Exes(n - 1)), n - 1);
    }
  }

  /** For instance: fill the first line and erase up to the cursor, and the star below is gone. */
  lemma EraseSpills()
    ensures FeedAll(START, EMPTY, STAR + Exes(20)).1.grid[1][0] == '*'
    ensures FeedAll(START, EMPTY, STAR + Exes(20) + [ESC] + ['['] + ['1'] + ['K']).1.grid[1][0] == ' '
  {
    hide FeedAll, PutC;
    ExesFed(20);
    var t := STAR + Exes(20);
    FeedMore(START, EMPTY, t, ESC);
    FeedMore(START, EMPTY, t + [ESC], '[');
    FeedMore(START, EMPTY, t + [ESC] + ['['], '1');
    FeedMore(START, EMPTY, t + [ESC] + ['['] + ['1'], 'K');
  }

  // ----- resizing -----

  /** A row cut or padded to a new width. */
  function Fitted(line: string, cols: nat): (r: string)
    ensures |r| == cols
  {
    seq(cols, j requires 0 <= j < cols => if j < |line| then line[j] else ' ')
  }

  /** The bottom rows when there are fewer than before, else all rows and blank ones below. */
  function ResizedGrid(s: Screen, cols: nat, rows: nat): (g: seq<string>)
    requires |s.grid| == s.rows
    ensures |g| == rows
    ensures forall i | 0 <= i < rows :: g[i] == ResizedRow(s, cols, rows, i)
  {
    seq(rows, i requires 0 <= i < rows => ResizedRow(s, cols, rows, i))
  }

  function Base(s: Screen, rows: nat): nat { if rows < s.rows then s.rows - rows else 0 }

  function ResizedRow(s: Screen, cols: nat, rows: nat, i: nat): (r: string)
    requires |s.grid| == s.rows
    ensures |r| == cols
  {
    if Base(s, rows) + i < s.rows then Fitted(s.grid[Base(s, rows) + i], cols) else Blank(cols)
  }

  function Resized(s: Screen, cols: nat, rows: nat): Screen
    requires |s.grid| == s.rows && cols > 0 && rows > 0
  {
    var cy := if s.cy < Base(s, rows) then 0 else s.cy - Base(s, rows);
    Screen(cols, rows, ResizedGrid(s, cols, rows),
           if s.cx >= cols then cols - 1 else s.cx, if cy >= rows then rows - 1 else cy, [])
  }

  lemma FittedBack(line: string, cols: nat)
    requires |line| <= cols
    ensures Fitted(Fitted(line, cols), |line|) == line
  {
  }

  /** Growing the screen and shrinking it back moves the contents up by the rows added, and the top rows
      are lost; with as many rows as before nothing is. */
  lemma ResizeAndBack(s: Screen, cols: nat, rows: nat)
    requires Ok(s) && cols >= s.cols && rows >= s.rows
    ensures var d, back := rows - s.rows, Resized(Resized(s, cols, rows), s.cols, s.rows).grid;
      && |back| == s.rows
      && forall i | 0 <= i < s.rows :: back[i] == if i + d < s.rows then s.grid[i + d] else Blank(s.cols)
    ensures rows == s.rows ==> Resized(Resized(s, cols, rows), s.cols, s.rows).grid == s.grid
  {
    var big, d := Resized(s, cols, rows), rows - s.rows;
    var back := Resized(big, s.cols, s.rows).grid;
    forall i | 0 <= i < s.rows ensures back[i] == if i + d < s.rows then s.grid[i + d] else Blank(s.cols) {
      assert back[i] == ResizedRow(big, s.cols, s.rows, i) == Fitted(big.grid[d + i], s.cols);
      assert big.grid[d + i] == ResizedRow(s, cols, rows, d + i);
      if i + d < s.rows { FittedBack(s.grid[i + d], cols); } else { FittedBack(Blank(s.cols), cols); }
    }
  }

  lemma ResizedOk(s: Screen, cols: nat, rows: nat)
    requires Ok(s) && cols >= MIN_COLS && rows >= MIN_ROWS
    ensures Ok(Resized(s, cols, rows))
  {
  }
}
