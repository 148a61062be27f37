/** The editor as a value: text, cursor, selection and the two logs; what each command makes of it, and
    what any sequence of commands keeps. */
module NotepadDoc {
  import opened NotepadHistory

  /** `anchor` is the other end of the selection, or -1. */
  datatype Doc = Doc(text: string, cur: int, anchor: int, undo: seq<Entry>, redo: seq<Entry>)

  predicate InRange(d: Doc) {
    && |d.text| < BUF_MAX && 0 <= d.cur <= |d.text| && d.anchor >= -1
    && |d.undo| + |d.redo| <= UNDO_RING
  }

  // ----- commands -----

  predicate SelActive(d: Doc) { d.anchor >= 0 && d.anchor != d.cur }
  function SelLo(d: Doc): int { if d.anchor < d.cur then d.anchor else d.cur }
  function SelHi(d: Doc): int { if d.anchor < d.cur then d.cur else d.anchor }

  /** The text changes, the entry is logged, and nothing can be redone any more. */
  function Logging(d: Doc, e: Entry, text: string, cur: int): Doc {
    Doc(text, cur, d.anchor, Logged(d.undo, Recorded(e.kind, e.off, e.data)), [])
  }

  /** Delete [lo, hi), clamped to the text; the cursor goes to lo. */
  function Deleting(d: Doc, lo0: int, hi0: int): Doc {
    var lo, hi := if lo0 < 0 then 0 else lo0, if hi0 > |d.text| then |d.text| else hi0;
    if lo >= hi then d
    else Logging(d, Entry(Delete, lo, d.text[lo..hi]), DeleteRange(d.text, lo, hi), lo)
  }

  /** Insert at the cursor what fits the buffer. */
  function Inserting(d: Doc, s: string): Doc
    requires InRange(d)
  {
    var n := Taken(|d.text|, s);
    if n == 0 then d
    else Logging(d, Entry(Insert, d.cur, s[..n]), InsertAt(d.text, d.cur, s[..n]), d.cur + n)
  }

  /** An active selection is deleted first. An anchor past the end selects up to the end. */
  function Unselecting(d: Doc): Doc {
    if SelActive(d) then Deleting(d, SelLo(d), SelHi(d)).(anchor := -1) else d
  }

  /** Undo and redo take the newest entry off their log and apply it, wherever it lies. */
  function Undoing(d: Doc): Doc
    requires |d.text| < BUF_MAX && (d.undo != [] ==> CanRevert(d.text, d.undo[|d.undo| - 1]))
  {
    var n := |d.undo|;
    if n == 0 then d
    else
      var e := d.undo[n - 1];
      Doc(Reverted(d.text, e), CurReverted(e), d.anchor, d.undo[..n - 1], d.redo + [e])
  }

  function Redoing(d: Doc): Doc
    requires |d.text| < BUF_MAX && (d.redo != [] ==> CanReapply(d.text, d.redo[|d.redo| - 1]))
  {
    var n := |d.redo|;
    if n == 0 then d
    else
      var e := d.redo[n - 1];
      Doc(Reapplied(d.text, e), CurReapplied(e), d.anchor, d.undo + [e], d.redo[..n - 1])
  }

  datatype Op =
    | Type(c: char)
    | Paste(s: string)
    | Backspace
    | Del
    | Cut
    | Move(cur: int, anchor: int)
    | Undo
    | Redo

  /** The command moves bytes only inside the text. */
  predicate Defined(d: Doc, op: Op) {
    && (op.Undo? && d.undo != [] ==> CanRevert(d.text, d.undo[|d.undo| - 1]))
    && (op.Redo? && d.redo != [] ==> CanReapply(d.text, d.redo[|d.redo| - 1]))
  }

  function Step(d: Doc, op: Op): Doc
    requires InRange(d) && Defined(d, op)
  {
    DeletingKeeps(d, SelLo(d), SelHi(d));
    match op
    case Type(c) => Inserting(Unselecting(d), [c])
    case Paste(s) => if s == "" then d else Inserting(Unselecting(d), s)
    case Backspace => if SelActive(d) then Unselecting(d) else Deleting(d, d.cur - 1, d.cur)
    case Del => if SelActive(d) then Unselecting(d) else Deleting(d, d.cur, d.cur + 1)
    case Cut => Unselecting(d)
    case Move(cur, anchor) => d.(cur := cur, anchor := anchor)
    case Undo => Undoing(d)
    case Redo => Redoing(d)
  }

  /** The cursor is moved inside the text, and an entry to undo or redo starts inside it. */
  predicate Ready(d: Doc, op: Op) {
    match op
    case Move(cur, anchor) => 0 <= cur <= |d.text| && anchor >= -1
    case Undo => d.undo == [] || Undoable(d.text, d.undo[|d.undo| - 1])
    case Redo => d.redo == [] || Redoable(d.text, d.redo[|d.redo| - 1])
    case _ => true
  }

  lemma DeletingKeeps(d: Doc, lo: int, hi: int)
    requires InRange(d)
    ensures InRange(Deleting(d, lo, hi))
  {
  }

  lemma InsertingKeeps(d: Doc, s: string)
    requires InRange(d)
    ensures InRange(Inserting(d, s))
  {
  }

  /** A command leaves buffer, cursor and logs in range exactly when it is ready. */
  lemma InRangeIff(d: Doc, op: Op)
    requires InRange(d)
    ensures Ready(d, op) ==> Defined(d, op)
    ensures Defined(d, op) ==> (InRange(Step(d, op)) <==> Ready(d, op))
  {
    hide Logged;
    match op
    case Type(c) => DeletingKeeps(d, SelLo(d), SelHi(d)); InsertingKeeps(Unselecting(d), [c]);
    case Paste(s) => DeletingKeeps(d, SelLo(d), SelHi(d)); InsertingKeeps(Unselecting(d), s);
    case Backspace => DeletingKeeps(d, SelLo(d), SelHi(d)); DeletingKeeps(d, d.cur - 1, d.cur);
    case Del => DeletingKeeps(d, SelLo(d), SelHi(d)); DeletingKeeps(d, d.cur, d.cur + 1);
    case Cut => DeletingKeeps(d, SelLo(d), SelHi(d));
    case Move(cur, anchor) =>
    case Undo => if d.undo != [] { CursorStaysIff(d.text, d.undo[|d.undo| - 1]); }
    case Redo => if d.redo != [] { CursorStaysIff(d.text, d.redo[|d.redo| - 1]); }
  }

  lemma StepInRange(d: Doc, op: Op)
    requires InRange(d) && Ready(d, op)
    ensures Defined(d, op) && InRange(Step(d, op))
  {
    InRangeIff(d, op);
  }

  /** The cursor is moved inside the text. */
  predicate MoveOk(d: Doc, op: Op) { op.Move? ==> Ready(d, op) }

  // ----- what the logs are worth -----

  /** Both logs tell the truth, to their very end. */
  predicate Whole(d: Doc) { Sound(d.undo, d.text) && SoundAhead(d.redo, d.text) }

  function Hist(d: Doc): History
    requires Whole(d)
  {
    History(Back(d.undo, d.text), d.text, Ahead(d.redo, d.text))
  }

  /** Commands that change the text if they can. */
  predicate Edits(op: Op) { !op.Move? && !op.Undo? && !op.Redo? && op != Paste("") }

  /** No single edit of the command is longer than an entry can record. */
  predicate Short(d: Doc, op: Op) {
    && (Edits(op) && SelActive(d) ==> Cap(SelHi(d), d.text) - SelLo(d) <= UNDO_PAYLOAD_MAX)
    && (op.Paste? ==> |op.s| <= UNDO_PAYLOAD_MAX)
  }

  /** A changed text is an edit. */
  function Changed(h: History, text: string): History { if text == h.text then h else Edited(h, text) }

  /** The history after a command: undo and redo move in it, and anything else is at most two edits, of
      the selection and at the cursor. */
  function HistStep(h: History, d: Doc, op: Op): History
    requires InRange(d) && Defined(d, op)
  {
    if op.Undo? then UndoStep(h)
    else if op.Redo? then RedoStep(h)
    else if Edits(op) then Changed(Changed(h, Unselecting(d).text), Step(d, op).text)
    else h
  }

  lemma LoggingWhole(d: Doc, e: Entry, cur: int)
    requires InRange(d) && Whole(d) && Fits(d.text, e) && 0 < |e.data| <= UNDO_PAYLOAD_MAX
    requires |Redone(d.text, e)| < BUF_MAX
    ensures var r := Logging(d, e, Redone(d.text, e), cur);
      Whole(r) && Hist(r) == Changed(Hist(d), r.text)
  {
    assert |Redone(d.text, e)| != |d.text|;
    hide Logged;
    SoundLogged(d.undo, d.text, e);
  }

  lemma DeletingWhole(d: Doc, lo0: int, hi0: int)
    requires InRange(d) && Whole(d) && lo0 >= -1 && Cap(hi0, d.text) - lo0 <= UNDO_PAYLOAD_MAX
    ensures var r := Deleting(d, lo0, hi0); Whole(r) && Hist(r) == Changed(Hist(d), r.text)
  {
    HistLengths(d);
    hide Logging, Whole, Hist, Redone, Fits, DeleteRange;
    var lo, hi := if lo0 < 0 then 0 else lo0, Cap(hi0, d.text);
    if lo < hi {
      CutOut(d.text, lo, hi);
      LoggingWhole(d, Entry(Delete, lo, d.text[lo..hi]), lo);
    }
  }

  lemma CutOut(t: string, lo: nat, hi: nat)
    requires lo <= hi <= |t|
    ensures var e := Entry(Delete, lo, t[lo..hi]);
      Fits(t, e) && Redone(t, e) == DeleteRange(t, lo, hi) && |Redone(t, e)| <= |t|
  {
  }

  lemma InsertingWhole(d: Doc, s: string)
    requires InRange(d) && Whole(d) && |s| <= UNDO_PAYLOAD_MAX
    ensures var r := Inserting(d, s); Whole(r) && Hist(r) == Changed(Hist(d), r.text)
  {
    var n := Taken(|d.text|, s);
    if n > 0 {
      hide Logging, Whole, Hist, Changed;
      LoggingWhole(d, Entry(Insert, d.cur, s[..n]), d.cur + n);
    }
  }

  lemma UnselectingWhole(d: Doc)
    requires InRange(d) && Whole(d) && (SelActive(d) ==> Cap(SelHi(d), d.text) - SelLo(d) <= UNDO_PAYLOAD_MAX)
    ensures var r := Unselecting(d); InRange(r) && Whole(r) && Hist(r) == Changed(Hist(d), r.text)
  {
    hide Deleting;
    if SelActive(d) {
      DeletingWhole(d, SelLo(d), SelHi(d));
      DeletingKeeps(d, SelLo(d), SelHi(d));
    }
  }

  lemma UndoingWhole(d: Doc)
    requires InRange(d) && Whole(d)
    ensures Ready(d, Undo) && Whole(Undoing(d)) && Hist(Undoing(d)) == UndoStep(Hist(d)) && InRange(Undoing(d))
    ensures d.undo != [] ==> |Undoing(d).undo| == |d.undo| - 1 && |Undoing(d).redo| == |d.redo| + 1
  {
    StepInRange(d, Undo);
    var n := |d.undo|;
    if n > 0 {
      AheadPush(d.redo, d.text, Reverted(d.text, d.undo[n - 1]), d.undo[n - 1]);
    }
  }

  lemma RedoingWhole(d: Doc)
    requires InRange(d) && Whole(d)
    ensures Ready(d, Redo) && Whole(Redoing(d)) && Hist(Redoing(d)) == RedoStep(Hist(d)) && InRange(Redoing(d))
    ensures d.redo != [] ==> |Redoing(d).redo| == |d.redo| - 1
  {
    StepInRange(d, Redo);
    var n := |d.redo|;
    if n > 0 {
      RedoneReapplied(d.text, d.redo[n - 1]);
      SoundPush(d.undo, d.text, d.redo[n - 1]);
    }
  }

  /** Every command whose edits are short enough to record keeps both logs whole, moves the history as
      `HistStep` says, and can be obeyed. */
  lemma StepWhole(d: Doc, op: Op)
    requires InRange(d) && Whole(d) && Short(d, op) && MoveOk(d, op)
    ensures Ready(d, op) && Defined(d, op) && InRange(Step(d, op)) && Whole(Step(d, op))
    ensures Hist(Step(d, op)) == HistStep(Hist(d), d, op)
  {
    hide Whole, Hist, Deleting, Inserting, Undoing, Redoing;
    if op.Undo? { UndoingWhole(d); }
    if op.Redo? { RedoingWhole(d); }
    StepInRange(d, op);
    if Edits(op) { UnselectingWhole(d); }
    match op
    case Type(c) => InsertingWhole(Unselecting(d), [c]);
    case Paste(s) => if s != "" { InsertingWhole(Unselecting(d), s); }
    case Backspace => if !SelActive(d) { DeletingWhole(d, d.cur - 1, d.cur); }
    case Del => if !SelActive(d) { DeletingWhole(d, d.cur, d.cur + 1); }
    case Cut =>
    case Move(cur, anchor) => Moved(d, cur, anchor);
    case Undo =>
    case Redo =>
  }

  lemma Moved(d: Doc, cur: int, anchor: int)
    requires Whole(d)
    ensures Whole(d.(cur := cur, anchor := anchor)) && Hist(d.(cur := cur, anchor := anchor)) == Hist(d)
  {
  }

  // ----- replacing -----

  /** One step of replace-all: the match at `hit` is deleted and the replacement inserted there. */
  function Replacing(d: Doc, hit: nat, len: nat, by_: string): Doc
    requires InRange(d) && hit + len <= |d.text|
  {
    var c := Deleting(d.(cur := hit), hit, hit + len).(anchor := -1);
    DeletingKeeps(d.(cur := hit), hit, hit + len);
    if by_ == "" then c else Inserting(c, by_)
  }

  lemma ReplacingText(d: Doc, hit: nat, len: nat, by_: string)
    requires InRange(d) && 0 < len && hit + len <= |d.text| && |d.text| - len + |by_| < BUF_MAX
    ensures Replacing(d, hit, len, by_).text == d.text[..hit] + by_ + d.text[hit + len..]
  {
    hide Logged;
    var t := DeleteRange(d.text, hit, hit + len);
    assert t[..hit] == d.text[..hit] && t[hit..] == d.text[hit + len..];
    assert by_[..|by_|] == by_ && t[..hit] + "" + t[hit..] == t;
  }

  lemma ReplacingWhole(d: Doc, hit: nat, len: nat, by_: string)
    requires InRange(d) && Whole(d) && hit + len <= |d.text| && len <= UNDO_PAYLOAD_MAX && |by_| <= UNDO_PAYLOAD_MAX
    ensures Whole(Replacing(d, hit, len, by_))
  {
    hide Whole, Deleting, Inserting, Hist;
    Moved(d, hit, d.anchor);
    var c := d.(cur := hit);
    DeletingWhole(c, hit, hit + len);
    DeletingKeeps(c, hit, hit + len);
    Moved(Deleting(c, hit, hit + len), Deleting(c, hit, hit + len).cur, -1);
    InsertingWhole(Deleting(c, hit, hit + len).(anchor := -1), by_);
  }

  // ----- runs -----

  /** Every command of the run is ready when its turn comes. */
  predicate Obeys(d: Doc, ops: seq<Op>)
    requires InRange(d)
    decreases |ops|
  {
    ops != [] ==> Ready(d, ops[0]) && (StepInRange(d, ops[0]); Obeys(Step(d, ops[0]), ops[1..]))
  }

  function Run(d: Doc, ops: seq<Op>): Doc
    requires InRange(d) && Obeys(d, ops)
    decreases |ops|
  {
    if ops == [] then d else StepInRange(d, ops[0]); Run(Step(d, ops[0]), ops[1..])
  }

  /** Every move stays inside the text, and no edit of the run is too long to record. */
  predicate Shorts(d: Doc, ops: seq<Op>)
    requires InRange(d) && Whole(d)
    decreases |ops|
  {
    ops != [] ==>
      Short(d, ops[0]) && MoveOk(d, ops[0]) && (StepWhole(d, ops[0]); Shorts(Step(d, ops[0]), ops[1..]))
  }

  function HistRun(h: History, d: Doc, ops: seq<Op>): History
    requires InRange(d) && Obeys(d, ops)
    decreases |ops|
  {
    if ops == [] then h
    else StepInRange(d, ops[0]); HistRun(HistStep(h, d, ops[0]), Step(d, ops[0]), ops[1..])
  }

  /** Any interleaving of short edits, undos and redos: every undo and redo is ready, text, cursor and logs
      stay in range, the logs stay whole, and the history is what edits, undos and redos make of it. */
  lemma {:induction false} RunWhole(d: Doc, ops: seq<Op>)
    requires InRange(d) && Whole(d) && Shorts(d, ops)
    ensures Obeys(d, ops) && InRange(Run(d, ops)) && Whole(Run(d, ops))
    ensures Hist(Run(d, ops)) == HistRun(Hist(d), d, ops)
    decreases |ops|
  {
    hide Step, HistStep, Whole, Hist, InRange, Short, MoveOk, Ready, Defined;
    if ops != [] {
      StepWhole(d, ops[0]);
      RunWhole(Step(d, ops[0]), ops[1..]);
    }
  }

  /** How many entries a command logs. */
  function Entries(d: Doc, op: Op): nat
    requires InRange(d) && Defined(d, op)
  {
    if !Edits(op) then 0
    else (if Unselecting(d).text == d.text then 0 else 1) + if Step(d, op).text == Unselecting(d).text then 0 else 1
  }

  function Undos(d: Doc, k: nat): (u: Doc)
    requires InRange(d) && Whole(d)
    ensures InRange(u) && Whole(u)
    decreases k
  {
    if k == 0 then d
    else
      var u := Undos(d, k - 1);
      UndoingWhole(u);
      Undoing(u)
  }

  function Redos(d: Doc, k: nat): (r: Doc)
    requires InRange(d) && Whole(d)
    ensures InRange(r) && Whole(r)
    decreases k
  {
    if k == 0 then d
    else
      var r := Redos(d, k - 1);
      RedoingWhole(r);
      Redoing(r)
  }

  lemma HistLengths(d: Doc)
    requires Whole(d)
    ensures |Hist(d).past| == |d.undo| && Hist(d).text == d.text
  {
  }

  lemma {:induction false} UndosFollow(d: Doc, k: nat)
    requires InRange(d) && Whole(d) && k <= |d.undo|
    ensures var u := Undos(d, k);
      && |u.undo| == |d.undo| - k && |u.redo| == |d.redo| + k
      && Hist(u) == UndoSteps(Hist(d), k)
    decreases k
  {
    hide Whole, Hist, InRange, Undoing, UndoStep;
    if k > 0 {
      UndosFollow(d, k - 1);
      UndoingWhole(Undos(d, k - 1));
      UndoLast(Hist(d), k - 1);
    }
  }

  /** `k` undos, for any `k` up to the live count, bring back the text of `k` edits ago. */
  lemma UndosRestore(d: Doc, k: nat)
    requires InRange(d) && Whole(d) && k <= |d.undo|
    ensures Undos(d, k).text == if k == 0 then d.text else Hist(d).past[|d.undo| - k]
  {
    UndosFollow(d, k);
    HistLengths(d);
    UndosReach(Hist(d), k);
    HistLengths(Undos(d, k));
  }

  /** And as many redos bring the whole history back. */
  lemma {:induction false} RedosReturn(d: Doc, k: nat)
    requires InRange(d) && Whole(d) && k <= |d.undo|
    ensures Hist(Redos(Undos(d, k), k)) == Hist(d)
  {
    UndosFollow(d, k);
    HistLengths(d);
    hide Whole, Hist, InRange;
    RedosFollow(Undos(d, k), k);
    RedosTakeBack(Hist(d), k);
  }

  lemma {:induction false} RedosFollow(d: Doc, k: nat)
    requires InRange(d) && Whole(d) && k <= |d.redo|
    ensures var r := Redos(d, k); |r.redo| == |d.redo| - k && Hist(r) == RedoSteps(Hist(d), k)
    decreases k
  {
    hide Whole, Hist, InRange, Redoing, RedoStep;
    if k > 0 {
      RedosFollow(d, k - 1);
      RedoingWhole(Redos(d, k - 1));
      RedoLast(Hist(d), k - 1);
    }
  }

  lemma NoSteps(d: Doc)
    requires InRange(d) && Whole(d)
    ensures Undos(d, 0) == d && Redos(d, 0) == d
  {
  }

  lemma NextUndo(d: Doc, k: nat)
    requires InRange(d) && Whole(d)
    ensures Ready(Undos(d, k), Undo) && Undos(d, k + 1) == Undoing(Undos(d, k))
  {
    UndoingWhole(Undos(d, k));
  }

  lemma NextRedo(d: Doc, k: nat)
    requires InRange(d) && Whole(d)
    ensures Ready(Redos(d, k), Redo) && Redos(d, k + 1) == Redoing(Redos(d, k))
  {
    RedoingWhole(Redos(d, k));
  }

  // ----- edits and as many undos -----

  function EntriesRun(d: Doc, ops: seq<Op>): nat
    requires InRange(d) && Obeys(d, ops)
    decreases |ops|
  {
    if ops == [] then 0 else StepInRange(d, ops[0]); Entries(d, ops[0]) + EntriesRun(Step(d, ops[0]), ops[1..])
  }

  /** `t` is the text of `j` edits ago. */
  predicate At(h: History, j: nat, t: string) {
    j <= |h.past| && (if j == 0 then h.text else h.past[|h.past| - j]) == t
  }

  lemma ChangedAt(h: History, text: string, j: nat, t: string)
    requires At(h, j, t) && (text != h.text ==> j < UNDO_RING)
    ensures Changed(h, text).text == text && At(Changed(h, text), if text == h.text then j else j + 1, t)
  {
  }

  lemma {:induction false} EditsCount(h: History, d: Doc, ops: seq<Op>, j: nat, t: string)
    requires InRange(d) && Obeys(d, ops) && Undo !in ops && Redo !in ops
    requires At(h, j, t) && h.text == d.text && j + EntriesRun(d, ops) <= UNDO_RING
    ensures At(HistRun(h, d, ops), j + EntriesRun(d, ops), t)
    decreases |ops|
  {
    hide Step, Unselecting, Changed, At, InRange;
    if ops != [] {
      var op, u := ops[0], Unselecting(d).text;
      StepInRange(d, op);
      assert op in ops;
      var d', h' := Step(d, op), HistStep(h, d, op);
      if Edits(op) {
        ChangedAt(h, u, j, t);
        ChangedAt(Changed(h, u), d'.text, if u == d.text then j else j + 1, t);
      } else {
        NoEdit(d, op);
      }
      EditsCount(h', d', ops[1..], j + Entries(d, op), t);
    }
  }

  lemma NoEdit(d: Doc, op: Op)
    requires InRange(d) && !Edits(op) && !op.Undo? && !op.Redo?
    ensures Step(d, op).text == d.text
  {
  }

  lemma BackTo(d: Doc, k: nat, t: string)
    requires InRange(d) && Whole(d) && At(Hist(d), k, t)
    ensures k <= |d.undo| && Undos(d, k).text == t
  {
    hide Sound, SoundAhead, Back, Ahead, Undos;
    HistLengths(d);
    UndosRestore(d, k);
  }

  /** Up to 128 entries logged by short edits are undone completely, whatever had been done before. */
  lemma EditsUndone(d: Doc, ops: seq<Op>)
    requires InRange(d) && Whole(d) && Shorts(d, ops) && Undo !in ops && Redo !in ops
    requires (RunWhole(d, ops); EntriesRun(d, ops) <= UNDO_RING)
    ensures Obeys(d, ops) && InRange(Run(d, ops)) && Whole(Run(d, ops))
    ensures EntriesRun(d, ops) <= |Run(d, ops).undo| && Undos(Run(d, ops), EntriesRun(d, ops)).text == d.text
  {
    hide Run, HistRun, EntriesRun, Undos, Sound, SoundAhead, Back, Ahead, Step, Short, MoveOk, Obeys, Shorts, Whole;
    RunWhole(d, ops);
    EditsCount(Hist(d), d, ops, 0, d.text);
    BackTo(Run(d, ops), EntriesRun(d, ops), d.text);
  }

  // ----- a deletion too long to record -----

  /** Some letters, with the cursor at their end. */
  function Letters(n: nat): Doc { Doc(seq(n, _ => 'x'), n, -1, [], []) }

  /** Type a letter, select everything, delete it. */
  function Typed(): Doc { Step(Letters(1026), Type('y')) }
  function Selected(): Doc { Step(Typed(), Move(1027, 0)) }

  const TYPED := Entry(Insert, 1026, "y")

  lemma TypedIs()
    ensures InRange(Letters(1026)) && Whole(Letters(1026))
    ensures Typed() == Doc(Letters(1026).text + "y", 1027, -1, [TYPED], [])
    ensures InRange(Selected()) && Selected() == Typed().(anchor := 0)
  {
    var d := Letters(1026);
    assert "y"[..1] == "y" && d.text[..1026] == d.text && d.text[1026..] == "";
    assert d.text + "y" + "" == d.text + "y";
  }

  /** Of 1027 characters deleted, undo brings back 1024. */
  lemma LongDeletionLost()
    ensures InRange(Selected()) && Ready(Selected(), Del) && |Selected().text| == 1027
    ensures InRange(Step(Selected(), Del)) && Ready(Step(Selected(), Del), Undo)
    ensures var d := Step(Step(Selected(), Del), Undo);
      InRange(d) && d.text == Selected().text[..1024] && d.undo == [TYPED]
  {
    TypedIs();
    var d := Selected();
    var kept := d.text[..1024];
    assert d.text[0..1027] == d.text && d.text[..0] + d.text[1027..] == "";
    var c := Step(d, Del);
    assert c == Doc("", 0, -1, [TYPED, Entry(Delete, 0, kept)], []);
    assert kept[..1024] == kept && ""[..0] + kept + ""[0..] == kept;
    assert c.undo[..1] == [TYPED];
  }

  /** And the next undo puts the cursor behind the end of the text. */
  lemma CursorEscapes()
    ensures InRange(Selected()) && InRange(Step(Selected(), Del)) && Ready(Step(Selected(), Del), Undo)
    ensures var d := Step(Step(Selected(), Del), Undo);
      && InRange(d) && Defined(d, Undo) && !Ready(d, Undo)
      && Step(d, Undo).cur == 1026 && |Step(d, Undo).text| == 1024
  {
    LongDeletionLost();
  }
}
