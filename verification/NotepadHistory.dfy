/** Undo history of the text editor: single insertions and deletions with their bytes, kept in rings of
    fixed size, and what such a log means for the text. */
module NotepadHistory {

  const UNDO_RING: nat := 128
  const UNDO_PAYLOAD_MAX: nat := 1024
  const BUF_MAX: nat := 65536

  datatype Kind = Insert | Delete
  datatype Entry = Entry(kind: Kind, off: nat, data: string)

  // ----- rings -----

  /** The next slot of a ring, and the one before. */
  function NextSlot(top: nat): (t: nat)
    requires top < UNDO_RING
    ensures t == if top + 1 == UNDO_RING then 0 else top + 1
  {
    (top + 1) % UNDO_RING
  }

  function PrevSlot(top: nat): (t: nat)
    requires top < UNDO_RING
    ensures t == if top == 0 then UNDO_RING - 1 else top - 1
  {
    (top + UNDO_RING - 1) % UNDO_RING
  }

  /** Where live entry `k` is stored; `top` is the next slot to write. */
  function Place(top: nat, count: nat, k: nat): (i: nat)
    requires top < UNDO_RING && k < count <= UNDO_RING
    ensures i < UNDO_RING
  {
    if count - k <= top then top - (count - k) else top + UNDO_RING - (count - k)
  }

  /** The live entries, oldest first. */
  ghost function Live(ring: seq<Entry>, top: nat, count: nat): (live: seq<Entry>)
    requires |ring| == UNDO_RING && top < UNDO_RING && count <= UNDO_RING
    ensures |live| == count
  {
    seq(count, k requires 0 <= k < count => ring[Place(top, count, k)])
  }

  /** A log that keeps the newest 128 entries. */
  function Logged(log: seq<Entry>, e: Entry): seq<Entry> {
    (if |log| == UNDO_RING then log[1..] else log) + [e]
  }

  /** Pushing logs the entry: it drops the oldest one when the ring is full. */
  lemma PushLive(ring: seq<Entry>, top: nat, count: nat, e: Entry)
    requires |ring| == UNDO_RING && top < UNDO_RING && count <= UNDO_RING
    ensures count < UNDO_RING ==> Live(ring[top := e], NextSlot(top), count + 1) == Logged(Live(ring, top, count), e)
    ensures count == UNDO_RING ==> Live(ring[top := e], NextSlot(top), count) == Logged(Live(ring, top, count), e)
  {
    hide NextSlot;
    var n := if count < UNDO_RING then count + 1 else count;
    var t := NextSlot(top);
    var after, logged := Live(ring[top := e], t, n), Logged(Live(ring, top, count), e);
    forall k | 0 <= k < n ensures after[k] == logged[k] {
      PlaceMoves(top, count, k);
    }
  }

  /** Where an entry is stored does not change while the ring moves on. */
  lemma PlaceMoves(top: nat, count: nat, k: nat)
    requires top < UNDO_RING && k <= count <= UNDO_RING && (count == UNDO_RING ==> k < count)
    ensures var n := if count < UNDO_RING then count + 1 else count;
      if k == n - 1 then Place(NextSlot(top), n, k) == top
      else Place(NextSlot(top), n, k) == Place(top, count, k + count + 1 - n) != top
  {
  }

  /** Popping takes the newest entry off. */
  lemma PopLive(ring: seq<Entry>, top: nat, count: nat)
    requires |ring| == UNDO_RING && top < UNDO_RING && 0 < count <= UNDO_RING
    ensures var live, t := Live(ring, top, count), PrevSlot(top);
      ring[t] == live[count - 1] && Live(ring, t, count - 1) == live[..count - 1]
  {
    hide PrevSlot;
    var t := PrevSlot(top);
    assert forall k | 0 <= k < count - 1 :: Place(t, count - 1, k) == Place(top, count, k);
    assert Place(top, count, count - 1) == t;
  }

  // ----- what entries do -----

  function InsertAt(t: string, off: nat, s: string): string
    requires off <= |t|
  {
    t[..off] + s + t[off..]
  }

  function DeleteRange(t: string, lo: nat, hi: nat): string
    requires lo <= hi <= |t|
  {
    t[..lo] + t[hi..]
  }

  lemma IsInsertion(t: string, off: nat, s: string, r: string)
    requires off <= |t| && |r| == |t| + |s|
    requires forall i | 0 <= i < off :: r[i] == t[i]
    requires forall i | off <= i < off + |s| :: r[i] == s[i - off]
    requires forall i | off + |s| <= i < |r| :: r[i] == t[i - |s|]
    ensures r == InsertAt(t, off, s)
  {
    assert r[..off] == t[..off] && r[off..off + |s|] == s && r[off + |s|..] == t[off..];
    assert r == r[..off] + r[off..off + |s|] + r[off + |s|..];
  }

  lemma IsDeletion(t: string, lo: nat, hi: nat, r: string)
    requires lo <= hi <= |t| && |r| == |t| - (hi - lo)
    requires r[..lo] == t[..lo] && r[lo..] == t[hi..]
    ensures r == DeleteRange(t, lo, hi)
  {
    assert r == r[..lo] + r[lo..];
  }

  /** The entry describes an edit of `t`. */
  predicate Fits(t: string, e: Entry) {
    match e.kind
    case Insert => e.off <= |t|
    case Delete => e.off + |e.data| <= |t| && t[e.off..e.off + |e.data|] == e.data
  }

  function Redone(t: string, e: Entry): string
    requires Fits(t, e)
  {
    if e.kind == Insert then InsertAt(t, e.off, e.data) else DeleteRange(t, e.off, e.off + |e.data|)
  }

  /** The end of a range, cut back to the text. */
  function Cap(hi: int, t: string): int { if hi > |t| then |t| else hi }

  /** How much of `s` a buffer with `len` characters still takes. */
  function Taken(len: nat, s: string): (n: nat)
    requires len < BUF_MAX
    ensures n <= |s| && len + n < BUF_MAX
  {
    if len + |s| < BUF_MAX then |s| else BUF_MAX - 1 - len
  }

  /** Insert what fits; delete what there is of a range. */
  function Inserted(t: string, off: nat, s: string): string
    requires off <= |t| < BUF_MAX
  {
    InsertAt(t, off, s[..Taken(|t|, s)])
  }
  function Deleted(t: string, lo: nat, hi0: nat): string {
    var hi := Cap(hi0, t);
    if lo < hi then DeleteRange(t, lo, hi) else t
  }

  /** Putting bytes back moves the rest of the text up, which makes sense only inside the text. */
  predicate CanRevert(t: string, e: Entry) { e.kind == Delete ==> e.off <= |t| }
  predicate CanReapply(t: string, e: Entry) { e.kind == Insert ==> e.off <= |t| }

  /** What undoing and redoing an entry make of any text, edited by that entry or not, and where they leave
      the cursor. */
  function Reverted(t: string, e: Entry): string
    requires |t| < BUF_MAX && CanRevert(t, e)
  {
    if e.kind == Insert then Deleted(t, e.off, e.off + |e.data|) else Inserted(t, e.off, e.data)
  }
  function Reapplied(t: string, e: Entry): string
    requires |t| < BUF_MAX && CanReapply(t, e)
  {
    if e.kind == Insert then Inserted(t, e.off, e.data) else Deleted(t, e.off, e.off + |e.data|)
  }
  function CurReverted(e: Entry): nat { if e.kind == Insert then e.off else e.off + |e.data| }
  function CurReapplied(e: Entry): nat { if e.kind == Insert then e.off + |e.data| else e.off }

  /** The entry starts inside the text, and the cursor it gives fits the buffer. */
  predicate Undoable(t: string, e: Entry) { e.off <= |t| && CurReverted(e) < BUF_MAX }
  predicate Redoable(t: string, e: Entry) { e.off <= |t| && CurReapplied(e) < BUF_MAX }

  /** Undoing leaves the cursor in the text exactly then. */
  lemma CursorStaysIff(t: string, e: Entry)
    requires |t| < BUF_MAX
    ensures CanRevert(t, e) ==>
              |Reverted(t, e)| < BUF_MAX && (CurReverted(e) <= |Reverted(t, e)| <==> Undoable(t, e))
    ensures CanReapply(t, e) ==>
              |Reapplied(t, e)| < BUF_MAX && (CurReapplied(e) <= |Reapplied(t, e)| <==> Redoable(t, e))
  {
  }

  /** Reverting a recorded edit restores the text before it. */
  lemma UndoneRedone(t: string, e: Entry)
    requires Fits(t, e) && |t| < BUF_MAX && |Redone(t, e)| < BUF_MAX
    ensures Undoable(Redone(t, e), e) && Reverted(Redone(t, e), e) == t
  {
    if e.kind == Delete {
      DeletedInserted(t, e.off, e.data);
    } else {
      InsertedDeleted(t, e.off, e.data);
    }
  }

  lemma InsertedDeleted(t: string, off: nat, s: string)
    requires off <= |t|
    ensures Deleted(InsertAt(t, off, s), off, off + |s|) == t
  {
    var r := InsertAt(t, off, s);
    assert r[..off] == t[..off] && r[off + |s|..] == t[off..];
    assert t == t[..off] + t[off..];
    if s == "" { assert r == t; }
  }

  lemma DeletedInserted(t: string, off: nat, s: string)
    requires off + |s| <= |t| < BUF_MAX && t[off..off + |s|] == s
    ensures Inserted(DeleteRange(t, off, off + |s|), off, s) == t
  {
    var r := DeleteRange(t, off, off + |s|);
    assert s[..|s|] == s;
    assert r[..off] == t[..off] && r[off..] == t[off + |s|..];
    assert t == t[..off] + t[off..off + |s|] + t[off + |s|..];
  }

  lemma RedoneReapplied(t: string, e: Entry)
    requires Fits(t, e) && Redoable(t, e) && |Redone(t, e)| < BUF_MAX && |t| < BUF_MAX
    ensures Reapplied(t, e) == Redone(t, e)
  {
    assert e.data[..|e.data|] == e.data && (e.data == "" ==> t[..e.off] + t[e.off..] == t);
  }

  function Recorded(kind: Kind, off: nat, data: string): Entry {
    Entry(kind, off, if |data| > UNDO_PAYLOAD_MAX then data[..UNDO_PAYLOAD_MAX] else data)
  }

  /** An entry keeps at most 1024 bytes, so undoing an edit brings the text back exactly when the edit
      was no longer than that. */
  lemma UndoRestoresIff(t: string, e: Entry)
    requires Fits(t, e) && |t| < BUF_MAX && |Redone(t, e)| < BUF_MAX
    ensures var r, after := Recorded(e.kind, e.off, e.data), Redone(t, e);
      Undoable(after, r) && (Reverted(after, r) == t <==> |e.data| <= UNDO_PAYLOAD_MAX)
  {
    UndoneRedone(t, e);
    var r, after := Recorded(e.kind, e.off, e.data), Redone(t, e);
    if |e.data| > UNDO_PAYLOAD_MAX {
      assert |Reverted(after, r)| != |t|;
    }
  }

  // ----- what a log says -----

  /** The log tells how the text came about: its entries, undone from the newest, are edits that lead
      back to `text`. */
  predicate Sound(log: seq<Entry>, text: string) {
    if log == [] then true
    else
      var n := |log| - 1;
      && |text| < BUF_MAX && Undoable(text, log[n])
      && var before := Reverted(text, log[n]);
        |before| < BUF_MAX && Fits(before, log[n]) && Redone(before, log[n]) == text && Sound(log[..n], before)
  }

  /** The texts before each edit of the log, oldest first. */
  function Back(log: seq<Entry>, text: string): (texts: seq<string>)
    requires Sound(log, text)
    ensures |texts| == |log|
  {
    if log == [] then []
    else
      var n := |log| - 1;
      var before := Reverted(text, log[n]);
      Back(log[..n], before) + [before]
  }

  /** The entries can be redone, from the newest. */
  predicate SoundAhead(log: seq<Entry>, text: string) {
    if log == [] then true
    else
      var n := |log| - 1;
      && Fits(text, log[n]) && Redoable(text, log[n])
      && |Redone(text, log[n])| < BUF_MAX && SoundAhead(log[..n], Redone(text, log[n]))
  }

  /** The texts that redoing leads to, the last of them first. */
  function Ahead(log: seq<Entry>, text: string): (texts: seq<string>)
    requires SoundAhead(log, text)
    ensures |texts| == |log|
  {
    if log == [] then []
    else
      var n := |log| - 1;
      var after := Redone(text, log[n]);
      Ahead(log[..n], after) + [after]
  }

  lemma SoundPush(log: seq<Entry>, text: string, e: Entry)
    requires Sound(log, text) && Fits(text, e) && |text| < BUF_MAX && |Redone(text, e)| < BUF_MAX
    ensures Sound(log + [e], Redone(text, e)) && Back(log + [e], Redone(text, e)) == Back(log, text) + [text]
  {
    hide Redone, Reverted, Fits;
    UndoneRedone(text, e);
    assert (log + [e])[..|log|] == log;
  }

  /** What the newest entries say does not depend on the older ones. */
  lemma {:induction false} SoundNewest(log: seq<Entry>, text: string, n: nat)
    requires Sound(log, text) && n <= |log|
    ensures Sound(log[n..], text) && Back(log[n..], text) == Back(log, text)[n..]
    decreases |log|
  {
    hide Redone, Reverted, Fits;
    if n < |log| {
      var m := |log| - 1;
      SoundNewest(log[..m], Reverted(text, log[m]), n);
      assert log[n..][..m - n] == log[..m][n..];
    }
  }

  lemma SoundLogged(log: seq<Entry>, text: string, e: Entry)
    requires Sound(log, text) && Fits(text, e) && |log| <= UNDO_RING
    requires |text| < BUF_MAX && |Redone(text, e)| < BUF_MAX
    ensures Sound(Logged(log, e), Redone(text, e))
    ensures var back := Back(log, text);
      Back(Logged(log, e), Redone(text, e)) == (if |log| == UNDO_RING then back[1..] else back) + [text]
  {
    hide Sound, Back, Redone, Fits;
    if |log| == UNDO_RING {
      SoundNewest(log, text, 1);
      SoundPush(log[1..], text, e);
    } else {
      SoundPush(log, text, e);
    }
  }

  lemma AheadPush(log: seq<Entry>, text: string, before: string, e: Entry)
    requires SoundAhead(log, text) && Fits(before, e) && Redone(before, e) == text && |text| < BUF_MAX
    ensures SoundAhead(log + [e], before) && Ahead(log + [e], before) == Ahead(log, text) + [text]
  {
    assert (log + [e])[..|log|] == log;
  }

  // ----- the history as texts -----

  /** The texts before, the current one, those undone. */
  datatype History = History(past: seq<string>, text: string, future: seq<string>)

  function Edited(h: History, t: string): History {
    History((if |h.past| == UNDO_RING then h.past[1..] else h.past) + [h.text], t, [])
  }

  function UndoStep(h: History): History {
    var n := |h.past|;
    if n == 0 then h else History(h.past[..n - 1], h.past[n - 1], h.future + [h.text])
  }

  function RedoStep(h: History): History {
    var n := |h.future|;
    if n == 0 then h else History(h.past + [h.text], h.future[n - 1], h.future[..n - 1])
  }

  function UndoSteps(h: History, k: nat): History
    decreases k
  {
    if k == 0 then h else UndoSteps(UndoStep(h), k - 1)
  }

  function RedoSteps(h: History, k: nat): History
    decreases k
  {
    if k == 0 then h else RedoSteps(RedoStep(h), k - 1)
  }

  /** `k` undos bring back the text of `k` edits ago, and the texts undone wait in order. */
  lemma {:induction false} UndosReach(h: History, k: nat)
    requires k <= |h.past|
    ensures UndoSteps(h, k).text == (if k == 0 then h.text else h.past[|h.past| - k])
    ensures UndoSteps(h, k).past == h.past[..|h.past| - k]
    decreases k
  {
    if k > 0 {
      UndosReach(UndoStep(h), k - 1);
    }
  }

  /** `k` redos take `k` undos back, whatever the history. */
  lemma {:induction false} RedosTakeBack(h: History, k: nat)
    requires k <= |h.past|
    ensures RedoSteps(UndoSteps(h, k), k) == h
    decreases k
  {
    if k > 0 {
      RedosTakeBack(UndoStep(h), k - 1);
      var u := UndoStep(h);
      RedoLast(UndoSteps(u, k - 1), k - 1);
      assert RedoStep(u) == h by {
        assert u.past + [u.text] == h.past;
      }
    }
  }

  lemma {:induction false} UndoLast(h: History, k: nat)
    ensures UndoSteps(h, k + 1) == UndoStep(UndoSteps(h, k))
    decreases k
  {
    if k > 0 { UndoLast(UndoStep(h), k - 1); }
  }

  lemma {:induction false} RedoLast(h: History, k: nat)
    ensures RedoSteps(h, k + 1) == RedoStep(RedoSteps(h, k))
    decreases k
  {
    if k > 0 {
      RedoLast(RedoStep(h), k - 1);
    }
  }
}
