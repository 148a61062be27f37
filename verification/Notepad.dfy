/** The text editor: its buffer edited in place, cursor, selection, undo and redo rings, find and
    replace. Every command does to the whole state what `NotepadDoc` says. */
module Notepad {
  import opened NotepadHistory
  import opened NotepadDoc
  import opened NotepadSearch

  const FIND_MAX: nat := 128
  const REPLACE_GUARD: nat := 10000

  class Editor {
    const buf: array<char>
    var len: nat
    var cur: int
    var anchor: int
    var undo: seq<Entry>
    var undoTop: nat
    var undoCount: nat
    var redo: seq<Entry>
    var redoTop: nat
    var redoCount: nat

    ghost predicate Rings()
      reads this
    {
      && |undo| == UNDO_RING && undoTop < UNDO_RING && |redo| == UNDO_RING && redoTop < UNDO_RING
      && undoCount + redoCount <= UNDO_RING
    }

    /** Buffer and rings are well formed. */
    ghost predicate Formed()
      reads this, buf
    {
      buf.Length == BUF_MAX && len < BUF_MAX && Rings()
    }

    /** And the cursor is in the text. */
    ghost predicate Valid()
      reads this, buf
    {
      Formed() && InRange(State())
    }

    ghost function Text(): string
      requires len <= buf.Length
      reads this, buf
    {
      buf[..len]
    }

    /** The editor as a value. */
    ghost function State(): Doc
      requires len <= buf.Length && Rings()
      reads this, buf
    {
      Doc(Text(), cur, anchor, Live(undo, undoTop, undoCount), Live(redo, redoTop, redoCount))
    }

    constructor (contents: string)
      requires |contents| < BUF_MAX
      ensures Valid() && State() == Doc(contents, 0, -1, [], []) && Whole(State())
      ensures fresh(buf)
    {
      buf := new char[BUF_MAX](i => if 0 <= i < |contents| then contents[i] else '\0');
      len, cur, anchor := |contents|, 0, -1;
      undo, undoTop, undoCount := seq(UNDO_RING, _ => Entry(Insert, 0, "")), 0, 0;
      redo, redoTop, redoCount := seq(UNDO_RING, _ => Entry(Insert, 0, "")), 0, 0;
      new;
      assert buf[..len] == contents;
    }

    // ----- the buffer -----

    /** Move `n` characters; the two ranges may overlap. */
    method MemMove(dst: nat, src: nat, n: nat)
      requires dst + n <= buf.Length && src + n <= buf.Length
      modifies buf
      ensures forall i | 0 <= i < buf.Length ::
                buf[i] == if dst <= i < dst + n then old(buf[i - dst + src]) else old(buf[i])
    {
      if dst <= src {
        for k := 0 to n
          invariant forall i | 0 <= i < buf.Length ::
                      buf[i] == if dst <= i < dst + k then old(buf[i - dst + src]) else old(buf[i])
        {
          buf[dst + k] := buf[src + k];
        }
      } else {
        for k := n downto 0
          invariant forall i | 0 <= i < buf.Length ::
                      buf[i] == if dst + k <= i < dst + n then old(buf[i - dst + src]) else old(buf[i])
        {
          buf[dst + k] := buf[src + k];
        }
      }
    }

    method MemCpy(dst: nat, s: string, n: nat)
      requires n <= |s| && dst + n <= buf.Length
      modifies buf
      ensures forall i | 0 <= i < buf.Length :: buf[i] == if dst <= i < dst + n then s[i - dst] else old(buf[i])
    {
      for k := 0 to n
        invariant forall i | 0 <= i < buf.Length :: buf[i] == if dst <= i < dst + k then s[i - dst] else old(buf[i])
      {
        buf[dst + k] := s[k];
      }
    }

    /** Insert without recording; what does not fit the buffer is cut off. */
    method RawInsertAt(off: nat, s: string)
      requires buf.Length == BUF_MAX && off <= len < BUF_MAX
      modifies this`len, buf
      ensures len < BUF_MAX
      ensures Text() == Inserted(old(Text()), off, s)
    {
      var n := |s|;
      if n <= 0 {
        IsInsertion(Text(), off, s[..0], Text());
        return;
      }
      if len + n > BUF_MAX - 1 { n := BUF_MAX - 1 - len; }
      hide InsertAt;
      if n <= 0 {
        IsInsertion(Text(), off, s[..0], Text());
        return;
      }
      MemMove(off + n, off, len - off);
      MemCpy(off, s, n);
      len := len + n;
      IsInsertion(old(Text()), off, s[..n], Text());
    }

    method RawDeleteRange(lo: nat, hi0: nat)
      requires buf.Length == BUF_MAX && len < BUF_MAX
      modifies this`len, buf
      ensures len < BUF_MAX
      ensures Text() == Deleted(old(Text()), lo, hi0)
    {
      var hi := if hi0 > len then len else hi0;
      hide DeleteRange;
      if lo >= hi { return; }
      MemMove(lo, hi, len - hi);
      len := len - (hi - lo);
      IsDeletion(old(Text()), lo, hi, Text());
    }

    // ----- the rings -----

    method RedoClear()
      requires Rings()
      modifies this`redoTop, this`redoCount
      ensures Rings() && redoCount == 0
    {
      redoTop, redoCount := 0, 0;
    }

    /** Record an edit that is about to happen; a fresh edit drops what could be redone. */
    method UndoPush(e: Entry)
      requires Rings()
      modifies this`undo, this`undoTop, this`undoCount, this`redoTop, this`redoCount
      ensures Rings() && redoCount == 0
      ensures Live(undo, undoTop, undoCount)
           == Logged(old(Live(undo, undoTop, undoCount)), Recorded(e.kind, e.off, e.data))
    {
      hide Live, NextSlot, Logged;
      var entry := Recorded(e.kind, e.off, e.data);
      PushLive(undo, undoTop, undoCount, entry);
      undo := undo[undoTop := entry];
      undoTop := NextSlot(undoTop);
      RedoClear();
      if undoCount < UNDO_RING { undoCount := undoCount + 1; }
    }

    method UndoPop() returns (e: Entry)
      requires Rings() && undoCount > 0
      modifies this`undoTop, this`undoCount
      ensures Rings() && undoCount == old(undoCount) - 1
      ensures e == old(Live(undo, undoTop, undoCount))[undoCount]
      ensures Live(undo, undoTop, undoCount) == old(Live(undo, undoTop, undoCount))[..undoCount]
    {
      hide Live, PrevSlot;
      PopLive(undo, undoTop, undoCount);
      undoTop := PrevSlot(undoTop);
      e := undo[undoTop];
      undoCount := undoCount - 1;
    }

    method RedoPop() returns (e: Entry)
      requires Rings() && redoCount > 0
      modifies this`redoTop, this`redoCount
      ensures Rings() && redoCount == old(redoCount) - 1
      ensures e == old(Live(redo, redoTop, redoCount))[redoCount]
      ensures Live(redo, redoTop, redoCount) == old(Live(redo, redoTop, redoCount))[..redoCount]
    {
      hide Live, PrevSlot;
      PopLive(redo, redoTop, redoCount);
      redoTop := PrevSlot(redoTop);
      e := redo[redoTop];
      redoCount := redoCount - 1;
    }

    method RedoPush(e: Entry)
      requires Rings() && undoCount + redoCount < UNDO_RING
      modifies this`redo, this`redoTop, this`redoCount
      ensures Rings() && redoCount == old(redoCount) + 1
      ensures Live(redo, redoTop, redoCount) == old(Live(redo, redoTop, redoCount)) + [e]
    {
      hide Live, NextSlot;
      PushLive(redo, redoTop, redoCount, e);
      redo := redo[redoTop := e];
      redoTop := NextSlot(redoTop);
      redoCount := redoCount + 1;
    }

    /** A redone edit can be undone again. */
    method PutBack(e: Entry)
      requires Rings() && undoCount + redoCount < UNDO_RING
      modifies this`undo, this`undoTop, this`undoCount
      ensures Rings() && undoCount == old(undoCount) + 1
      ensures Live(undo, undoTop, undoCount) == old(Live(undo, undoTop, undoCount)) + [e]
    {
      hide Live, NextSlot;
      PushLive(undo, undoTop, undoCount, e);
      undo := undo[undoTop := e];
      undoTop := NextSlot(undoTop);
      undoCount := undoCount + 1;
    }

    /** The newest entry is taken off and applied; the cursor stays in the text exactly when it is ready. */
    method DoUndo()
      requires Valid() && Defined(State(), Undo)
      modifies this, buf
      ensures Formed() && State() == Undoing(old(State()))
      ensures Valid() <==> Ready(old(State()), Undo)
    {
      hide Live, Inserted, Deleted;
      InRangeIff(State(), Undo);
      if undoCount == 0 { return; }
      var e := UndoPop();
      RedoPush(e);
      if e.kind == Insert {
        RawDeleteRange(e.off, e.off + |e.data|);
        cur := e.off;
      } else {
        RawInsertAt(e.off, e.data);
        cur := e.off + |e.data|;
      }
      assert State() == Undoing(old(State()));
    }

    method DoRedo()
      requires Valid() && Defined(State(), Redo)
      modifies this, buf
      ensures Formed() && State() == Redoing(old(State()))
      ensures Valid() <==> Ready(old(State()), Redo)
    {
      hide Live, Inserted, Deleted;
      InRangeIff(State(), Redo);
      if redoCount == 0 { return; }
      var e := RedoPop();
      PutBack(e);
      if e.kind == Insert {
        RawInsertAt(e.off, e.data);
        cur := e.off + |e.data|;
      } else {
        RawDeleteRange(e.off, e.off + |e.data|);
        cur := e.off;
      }
      assert State() == Redoing(old(State()));
    }

    // ----- editing -----

    /** Delete [lo, hi), clamped to the text; the cursor goes to lo. */
    method BufDeleteRange(lo0: int, hi0: int)
      requires Valid()
      modifies this, buf
      ensures Valid() && State() == Deleting(old(State()), lo0, hi0)
    {
      hide Live, Logged, DeleteRange;
      DeletingKeeps(State(), lo0, hi0);
      var lo := if lo0 < 0 then 0 else lo0;
      var hi := if hi0 > len then len else hi0;
      if lo >= hi { return; }
      UndoPush(Entry(Delete, lo, buf[lo..hi]));
      assert buf[lo..hi] == Text()[lo..hi];
      RawDeleteRange(lo, hi);
      cur := lo;
      NothingLive(redo, redoTop);
      assert State() == Deleting(old(State()), lo0, hi0);
    }

    /** Insert at the cursor what fits the buffer. */
    method BufInsertN(s: string)
      requires Valid()
      modifies this, buf
      ensures Valid() && State() == Inserting(old(State()), s)
    {
      hide Live, Logged;
      InsertingKeeps(State(), s);
      var n := |s|;
      if len + n > BUF_MAX - 1 { n := BUF_MAX - 1 - len; }
      if n <= 0 { return; }
      UndoPush(Entry(Insert, cur, s[..n]));
      RawInsertAt(cur, s[..n]);
      assert s[..n][..n] == s[..n];
      cur := cur + n;
      NothingLive(redo, redoTop);
      assert State() == Inserting(old(State()), s);
    }

    method DropSelection()
      requires Valid()
      modifies this, buf
      ensures Valid() && State() == Unselecting(old(State()))
    {
      hide Live, Deleting;
      if anchor >= 0 && anchor != cur {
        BufDeleteRange(if anchor < cur then anchor else cur, if anchor < cur then cur else anchor);
        anchor := -1;
      }
    }

    /** Typing over a selection deletes it first. */
    method BufInsert(c: char)
      requires Valid()
      modifies this, buf
      ensures Valid() && State() == Step(old(State()), Type(c))
    {
      hide Live, Deleting, Inserting;
      DropSelection();
      BufInsertN([c]);
    }

    method DoPaste(clip: string)
      requires Valid()
      modifies this, buf
      ensures Valid() && State() == Step(old(State()), Paste(clip))
    {
      hide Live, Deleting, Inserting;
      if |clip| <= 0 { return; }
      DropSelection();
      BufInsertN(clip);
    }

    method BufBackspace()
      requires Valid()
      modifies this, buf
      ensures Valid() && State() == Step(old(State()), Backspace)
    {
      hide Live, Logged;
      if anchor >= 0 && anchor != cur {
        DropSelection();
        return;
      }
      if cur == 0 { return; }
      BufDeleteRange(cur - 1, cur);
    }

    method BufDelete()
      requires Valid()
      modifies this, buf
      ensures Valid() && State() == Step(old(State()), Del)
    {
      hide Live, Logged;
      if anchor >= 0 && anchor != cur {
        DropSelection();
        return;
      }
      if cur >= len { return; }
      BufDeleteRange(cur, cur + 1);
    }

    // ----- any run -----

    method Handle(op: Op)
      requires Valid() && Ready(State(), op)
      modifies this, buf
      ensures Valid() && State() == Step(old(State()), op)
    {
      hide Live, Deleting, Inserting, Undoing, Redoing;
      match op
      case Type(c) => BufInsert(c);
      case Paste(s) => DoPaste(s);
      case Backspace => BufBackspace();
      case Del => BufDelete();
      case Cut => DropSelection();
      case Move(c, a) => cur, anchor := c, a;
      case Undo => DoUndo();
      case Redo => DoRedo();
    }

    /** Any interleaving of edits of at most 1024 characters, undos and redos on an editor whose logs are
        whole, a new one for instance: every undo and redo can be obeyed, cursor and counts stay in range,
        the logs stay whole, and the history is what the commands make of it. */
    method Serve(ops: seq<Op>)
      requires Valid() && Whole(State()) && Shorts(State(), ops)
      modifies this, buf
      ensures old(Obeys(State(), ops)) && Valid() && State() == Run(old(State()), ops)
      ensures Whole(State()) && Hist(State()) == HistRun(old(Hist(State())), old(State()), ops)
      ensures 0 <= cur <= len && undoCount + redoCount <= UNDO_RING
      ensures |Hist(State()).past| == undoCount && |Hist(State()).future| == redoCount
    {
      RunWhole(State(), ops);
      ghost var goal := Run(State(), ops);
      for i := 0 to |ops|
        invariant Valid() && Whole(State()) && Shorts(State(), ops[i..])
        invariant Obeys(State(), ops[i..]) && Run(State(), ops[i..]) == goal
      {
        StepWhole(State(), ops[i]);
        assert ops[i..][1..] == ops[i + 1..];
        Handle(ops[i]);
      }
    }

    /** `k` undos, for any `k` up to the live count, restore the text of `k` edits ago. */
    method UndoMany(k: nat)
      requires Valid() && Whole(State()) && k <= undoCount
      modifies this, buf
      ensures Valid() && State() == Undos(old(State()), k) && Whole(State())
      ensures Text() == if k == 0 then old(Text()) else old(Hist(State())).past[old(undoCount) - k]
      ensures undoCount == old(undoCount) - k && redoCount == old(redoCount) + k
    {
      hide Whole, Hist, Undoing, Undos, Live;
      ghost var d := State();
      HistLengths(d);
      NoSteps(d);
      for i := 0 to k
        invariant Valid() && State() == Undos(d, i)
      {
        UndosFollow(d, i);
        NextUndo(d, i);
        DoUndo();
      }
      UndosRestore(d, k);
      UndosFollow(d, k);
    }

    method RedoMany(k: nat)
      requires Valid() && Whole(State()) && k <= redoCount
      modifies this, buf
      ensures Valid() && State() == Redos(old(State()), k)
    {
      hide Whole, Hist, Redoing, Redos, Live;
      ghost var d := State();
      NoSteps(d);
      for i := 0 to k
        invariant Valid() && State() == Redos(d, i)
      {
        RedosFollow(d, i);
        NextRedo(d, i);
        DoRedo();
      }
    }

    /** `k` redos bring the whole history back. */
    method UndoThenRedo(k: nat)
      requires Valid() && Whole(State()) && k <= undoCount
      modifies this, buf
      ensures Valid() && Whole(State()) && Hist(State()) == old(Hist(State()))
    {
      hide Whole, Hist, Undos, Redos, Live;
      RedosReturn(State(), k);
      UndoMany(k);
      RedoMany(k);
    }

    // ----- find and replace -----

    /** The first match at or after `from`. */
    method FindNext(from0: int, needle: string) returns (hit: int)
      requires len <= buf.Length
      ensures needle == "" ==> hit == -1
      ensures needle != "" ==>
        && (hit == -1 || (hit >= 0 && hit >= from0 && MatchAt(Text(), needle, hit)))
        && (forall i | i >= 0 && i >= from0 && (hit == -1 || i < hit) :: !MatchAt(Text(), needle, i))
    {
      if |needle| == 0 || |needle| > len { return -1; }
      var from := if from0 < 0 then 0 else from0;
      var i := from;
      while i <= len - |needle|
        invariant i >= from
        invariant forall k | from <= k < i :: !MatchAt(Text(), needle, k)
      {
        var j := 0;
        while j < |needle| && buf[i + j] == needle[j]
          invariant 0 <= j <= |needle| && Text()[i..i + j] == needle[..j]
        {
          assert Text()[i..i + j + 1] == Text()[i..i + j] + [buf[i + j]];
          assert needle[..j + 1] == needle[..j] + [needle[j]];
          j := j + 1;
        }
        if j == |needle| {
          assert needle[..j] == needle;
          return i;
        }
        Mismatch(Text(), needle, i, j);
        i := i + 1;
      }
      hit := -1;
    }

    /** Replace from the start of the text, going on after each replacement: leftmost replacement, exactly
        when its result fits the buffer. Undo takes all of it back like any other edits. */
    method ReplaceAll(needle: string, by_: string)
      requires Valid() && |needle| < FIND_MAX && |by_| < FIND_MAX
      modifies this, buf
      ensures Valid()
      ensures needle == "" ==> Text() == old(Text())
      ensures needle != "" ==>
        (&& Text() == Replaced(old(Text()), needle, by_, REPLACE_GUARD)
         <==> old(len) + Count(old(Text()), needle, REPLACE_GUARD) * (|by_| - |needle|) < BUF_MAX)
      ensures old(Whole(State())) ==> Whole(State())
    {
      hide Live, Replaced, First, Whole, Count, Replacing, Halfway;
      if needle == "" { return; }
      ghost var goal, done := Replaced(Text(), needle, by_, REPLACE_GUARD), "";
      ghost var fits := |goal| < BUF_MAX;
      ReplacedLength(Text(), needle, by_, REPLACE_GUARD);
      var from, guard := 0, 0;
      AtStart(Text(), goal, needle, by_, REPLACE_GUARD);
      while guard < REPLACE_GUARD
        invariant Valid() && 0 <= guard <= REPLACE_GUARD && from >= 0
        invariant old(Whole(State())) ==> Whole(State())
        invariant fits ==> Halfway(Text(), from, done, goal, needle, by_, REPLACE_GUARD - guard)
        decreases REPLACE_GUARD - guard
      {
        guard := guard + 1;
        ghost var before, left := Text(), REPLACE_GUARD - guard;
        var hit := FindNext(from, needle);
        if hit < 0 {
          if fits { LastOne(Text(), from, done, goal, needle, by_, left + 1); }
          return;
        }
        if fits {
          NextOne(Text(), from, done, goal, needle, by_, left, hit);
          ReplacingText(State(), hit, |needle|, by_);
        }
        if Whole(State()) { ReplacingWhole(State(), hit, |needle|, by_); }
        ReplaceOne(hit, needle, by_);
        from := hit + |by_|;
        done := before[..hit] + by_;
      }
      if fits { LastOne(Text(), from, done, goal, needle, by_, 0); }
    }

    method ReplaceOne(hit: nat, needle: string, by_: string)
      requires Valid() && hit + |needle| <= len
      modifies this, buf
      ensures Valid() && State() == Replacing(old(State()), hit, |needle|, by_)
    {
      hide Live, Deleting, Inserting;
      cur := hit;
      BufDeleteRange(hit, hit + |needle|);
      anchor := -1;
      if |by_| > 0 { BufInsertN(by_); }
    }

    // ----- lines and columns -----

    method ByteToLc(off: nat) returns (line: nat, col: nat)
      requires off <= len <= buf.Length
      ensures line == Line(Text(), off) && col == Col(Text(), off)
    {
      line, col := 0, 0;
      for i := 0 to off
        invariant line == Line(Text(), i) && col == Col(Text(), i)
      {
        if buf[i] == '\n' {
          line, col := line + 1, 0;
        } else {
          col := col + 1;
        }
      }
    }

    /** Where a line starts, or the end of the text when there is no such line. */
    method LineStartOff(line: int) returns (off: nat)
      requires len <= buf.Length
      ensures off <= len
      ensures line <= 0 ==> off == 0
      ensures line > 0 && (exists i: nat :: i <= len && Line(Text(), i) == line) ==>
                Line(Text(), off) == line && off > 0 && Line(Text(), off - 1) == line - 1
      ensures line > 0 && !(exists i: nat :: i <= len && Line(Text(), i) == line) ==> off == len
    {
      if line <= 0 { return 0; }
      var cur := 0;
      for i := 0 to len
        invariant cur == Line(Text(), i) < line
        invariant forall k: nat | k <= i :: Line(Text(), k) < line
      {
        if buf[i] == '\n' {
          cur := cur + 1;
          if cur == line {
            assert Line(Text(), i + 1) == line;
            return i + 1;
          }
        }
      }
      off := len;
    }

    /** Going to the line and column of a position comes back to the position. */
    method LineColRoundTrip(off: nat) returns (again: nat)
      requires off <= len <= buf.Length
      ensures again == off
    {
      var line, col := ByteToLc(off);
      var start := LineStartOff(line);
      ColumnIsDistance(Text(), off);
      if line > 0 {
        StartIsUnique(Text(), start, off - col);
      }
      again := start + col;
    }
  }

  /** Only one position ends the previous line. */
  lemma StartIsUnique(t: string, a: nat, b: nat)
    requires 0 < a <= |t| && 0 < b <= |t| && Line(t, a) == Line(t, b)
    requires Line(t, a - 1) < Line(t, a) && Line(t, b - 1) < Line(t, b)
    ensures a == b
  {
    if a < b { LineGrows(t, a, b - 1); } else if b < a { LineGrows(t, b, a - 1); }
  }

  lemma Mismatch(t: string, needle: string, i: nat, j: nat)
    requires i + |needle| <= |t| && j < |needle| && t[i + j] != needle[j]
    ensures !MatchAt(t, needle, i)
  {
    assert t[i..i + |needle|][j] == t[i + j];
  }

  lemma ReplacedEnd(rest: string, needle: string, by_: string, left: nat)
    requires needle != "" && (left == 0 || First(rest, needle) < 0)
    ensures Replaced(rest, needle, by_, left) == rest
  {
  }

  lemma ReplacedShape(rest: string, needle: string, by_: string, left: nat)
    requires needle != "" && First(rest, needle) >= 0
    ensures var k := First(rest, needle);
      Replaced(rest, needle, by_, left + 1) == rest[..k] + by_ + Replaced(rest[k + |needle|..], needle, by_, left)
  {
  }

  /** `done` is final; what remains to do is to replace in the rest of the text. */
  ghost predicate Halfway(t: string, from: nat, done: string, goal: string, needle: string, by_: string, left: nat)
    requires needle != ""
  {
    from == |done| <= |t| && t[..from] == done && done + Replaced(t[from..], needle, by_, left) == goal
  }

  lemma AtStart(t: string, goal: string, needle: string, by_: string, left: nat)
    requires needle != "" && goal == Replaced(t, needle, by_, left)
    ensures Halfway(t, 0, "", goal, needle, by_, left)
  {
    assert t[0..] == t && "" + goal == goal;
  }

  lemma LastOne(t: string, from: nat, done: string, goal: string, needle: string, by_: string, left: nat)
    requires needle != "" && Halfway(t, from, done, goal, needle, by_, left)
    requires left == 0 || forall i | i >= from :: !MatchAt(t, needle, i)
    ensures t == goal
  {
    if left > 0 { FirstFrom(t, needle, from, -1); }
    ReplacedEnd(t[from..], needle, by_, left);
    assert t == t[..from] + t[from..];
  }

  /** One replacement on the way to a result that fits: it fits too, and the way goes on from there. */
  lemma NextOne(t: string, from: nat, done: string, goal: string, needle: string, by_: string, left: nat, hit: nat)
    requires needle != "" && Halfway(t, from, done, goal, needle, by_, left + 1) && |t| < BUF_MAX && |goal| < BUF_MAX
    requires from <= hit && MatchAt(t, needle, hit) && forall i | from <= i < hit :: !MatchAt(t, needle, i)
    ensures |t| - |needle| + |by_| < BUF_MAX
    ensures var t', done' := t[..hit] + by_ + t[hit + |needle|..], t[..hit] + by_;
      Halfway(t', hit + |by_|, done', goal, needle, by_, left)
  {
    hide Replaced, First;
    FirstFrom(t, needle, from, hit);
    var rest, k, tail := t[from..], hit - from, t[hit + |needle|..];
    assert rest[k + |needle|..] == tail && t[..hit] == done + rest[..k];
    ReplacedShape(rest, needle, by_, left);
    ReplaceFits(done, rest, needle, by_, left, goal);
    var t', done' := t[..hit] + by_ + tail, t[..hit] + by_;
    assert t'[..|done'|] == done' && t'[|done'|..] == tail;
    var more := Replaced(tail, needle, by_, left);
    assert done + (rest[..k] + by_ + more) == done' + more;
  }

  /** When the end result fits the buffer, so does the text after each single replacement. */
  lemma ReplaceFits(done: string, rest: string, needle: string, by_: string, left: nat, goal: string)
    requires needle != "" && First(rest, needle) >= 0 && |done| + |rest| < BUF_MAX
    requires done + Replaced(rest, needle, by_, left + 1) == goal && |goal| < BUF_MAX
    ensures |done| + |rest| - |needle| + |by_| < BUF_MAX
  {
    if |needle| <= |by_| {
      ReplacedGrows(rest[First(rest, needle) + |needle|..], needle, by_, left);
    }
  }

  /** A full buffer of one letter cannot take two for one. */
  lemma FullBufferOverflows()
    ensures var t := seq(BUF_MAX - 1, _ => 'a'); |Replaced(t, "a", "bb", REPLACE_GUARD)| >= BUF_MAX
  {
    var t := seq(BUF_MAX - 1, _ => 'a');
    assert t[0..1] == "a" && MatchAt(t, "a", 0);
    assert First(t, "a") == 0;
    ReplacedGrows(t[1..], "a", "bb", REPLACE_GUARD - 1);
  }

  lemma NothingLive(ring: seq<Entry>, top: nat)
    requires |ring| == UNDO_RING && top < UNDO_RING
    ensures Live(ring, top, 0) == []
  {
  }
}
