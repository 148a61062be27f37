/** What the editing keys do, said through each other and through the text. */
module NotepadKeys {
  import opened NotepadHistory
  import opened NotepadDoc

  /** An edit leaves the editor in range. */
  lemma Edited(d: Doc, op: Op)
    requires InRange(d) && Ready(d, op)
    ensures Defined(d, op) && InRange(Step(d, op))
  {
    InRangeIff(d, op);
  }

  /** Typing puts the character before the cursor; into a full buffer it does nothing. */
  lemma Types(d: Doc, c: char)
    requires InRange(d) && !SelActive(d)
    ensures |d.text| + 1 >= 65536 ==> Step(d, Type(c)) == d
    ensures |d.text| + 1 < 65536 ==>
      var e := Step(d, Type(c));
      && e.text == d.text[..d.cur] + [c] + d.text[d.cur..] && e.cur == d.cur + 1 && e.anchor == d.anchor
      && e.redo == [] && e.undo == Logged(d.undo, Entry(Insert, d.cur, [c]))
  {
    hide Logged;
    assert [c][..1] == [c];
  }

  /** Del takes the character after the cursor and leaves the cursor and everything before it alone. */
  lemma Deletes(d: Doc)
    requires InRange(d) && !SelActive(d)
    ensures d.cur == |d.text| ==> Step(d, Del) == d
    ensures d.cur < |d.text| ==>
      var e := Step(d, Del);
      && e.text == d.text[..d.cur] + d.text[d.cur + 1..] && |e.text| == |d.text| - 1
      && e.cur == d.cur && e.text[..e.cur] == d.text[..d.cur] && e.anchor == d.anchor
      && e.redo == [] && e.undo == Logged(d.undo, Entry(Delete, d.cur, [d.text[d.cur]]))
  {
    hide Logged;
    if d.cur < |d.text| {
      assert d.text[d.cur..d.cur + 1] == [d.text[d.cur]];
    }
  }

  /** Backspace is moving one to the left and Del. */
  lemma BackspaceIsLeftDel(d: Doc)
    requires InRange(d) && !SelActive(d)
    ensures d.cur == 0 ==> Step(d, Backspace) == d
    ensures d.cur > 0 ==>
      var left := Step(d, Move(d.cur - 1, -1));
      InRange(left) && Step(d, Backspace) == Step(left, Del).(anchor := d.anchor)
  {
  }

  /** Backspace takes back what was typed, unless there was no room to type it. */
  lemma TypeThenBackspace(d: Doc, c: char)
    requires InRange(d) && !SelActive(d) && |d.text| + 1 < 65536
    ensures InRange(Step(d, Type(c)))
    ensures var e := Step(Step(d, Type(c)), Backspace); e.text == d.text && e.cur == d.cur
  {
    Edited(d, Type(c));
    Types(d, c);
    var t := Step(d, Type(c));
    assert DeleteRange(t.text, d.cur, d.cur + 1) == d.text[..d.cur] + d.text[d.cur..] == d.text;
  }

  /** The text without the selected part, up to its end. */
  function Remaining(d: Doc): string
    requires InRange(d)
  {
    var lo, hi := if d.anchor < d.cur then d.anchor else d.cur, if d.anchor < d.cur then d.cur else d.anchor;
    if lo < 0 || hi > |d.text| then d.text[..d.cur] else d.text[..lo] + d.text[hi..]
  }

  /** With a selection, Del, Backspace and Cut are the same: the selected characters go, and the cursor stands
      where they were. */
  lemma SelectionGoes(d: Doc)
    requires InRange(d) && SelActive(d)
    ensures Step(d, Del) == Step(d, Backspace) == Step(d, Cut)
    ensures var e := Step(d, Cut);
      && e.text == Remaining(d) && e.anchor == -1
      && e.cur == if d.anchor < d.cur then d.anchor else d.cur
  {
  }

  /** Typing and pasting over a selection is cutting it first. */
  lemma OverSelection(d: Doc, c: char, s: string)
    requires InRange(d) && SelActive(d) && s != ""
    ensures InRange(Step(d, Cut))
    ensures Step(d, Type(c)) == Step(Step(d, Cut), Type(c)) && Step(d, Paste(s)) == Step(Step(d, Cut), Paste(s))
  {
    Edited(d, Cut);
  }

  /** Typing the characters of a text one after the other. */
  function TypeAll(d: Doc, s: string): Doc
    requires InRange(d)
    decreases |s|
  {
    if s == "" then d
    else
      Edited(d, Type(s[0]));
      TypeAll(Step(d, Type(s[0])), s[1..])
  }

  /** Where typing `s` ends up: as much of it as fits is in the text, and the cursor behind it. */
  lemma {:induction false} TypedAll(d: Doc, s: string)
    requires InRange(d) && d.anchor == -1
    ensures var n := if |d.text| + |s| < 65536 then |s| else 65535 - |d.text|;
      var e := TypeAll(d, s);
      e.text == d.text[..d.cur] + s[..n] + d.text[d.cur..] && e.cur == d.cur + n
    decreases |s|
  {
    if s == "" {
      assert d.text == d.text[..d.cur] + "" + d.text[d.cur..];
    } else {
      Edited(d, Type(s[0]));
      Types(d, s[0]);
      var e := Step(d, Type(s[0]));
      TypedAll(e, s[1..]);
      var n := if |d.text| + |s| < 65536 then |s| else 65535 - |d.text|;
      hide Step, TypeAll;
      if n == 0 {
        assert s[..0] == "" == s[1..][..0];
      } else {
        assert e.text[..e.cur] == d.text[..d.cur] + [s[0]] && e.text[e.cur..] == d.text[d.cur..];
        assert s[..n] == [s[0]] + s[1..][..n - 1];
        assert d.text[..d.cur] + [s[0]] + s[1..][..n - 1] == d.text[..d.cur] + ([s[0]] + s[1..][..n - 1]);
      }
    }
  }

  /** Pasting is typing, as far as text and cursor go, a text that does not fit included. */
  lemma PasteIsTyping(d: Doc, s: string)
    requires InRange(d) && d.anchor == -1
    ensures Step(d, Paste(s)).text == TypeAll(d, s).text && Step(d, Paste(s)).cur == TypeAll(d, s).cur
  {
    TypedAll(d, s);
    hide TypeAll, Logged;
    if s == "" || Taken(|d.text|, s) == 0 {
      assert s[..0] == "";
      assert d.text == d.text[..d.cur] + "" + d.text[d.cur..];
    }
  }

  // ----- undo -----

  lemma NewestLogged(log: seq<Entry>, e: Entry)
    ensures var l := Logged(log, e); l != [] && l[|l| - 1] == e
  {
  }

  /** Undo takes back a typed character and a Backspace, cursor included, and Redo types the character again. After
      Del it puts the cursor behind the character that is back. */
  lemma UndoTyping(d: Doc, c: char)
    requires InRange(d) && !SelActive(d) && |d.text| + 1 < 65536
    ensures var t := Step(d, Type(c));
      && InRange(t) && Ready(t, Undo) && Defined(t, Undo)
      && var u := Step(t, Undo);
        && InRange(u) && u.text == d.text && u.cur == d.cur && Ready(u, Redo) && Defined(u, Redo)
        && Step(u, Redo).text == t.text && Step(u, Redo).cur == t.cur
  {
    Edited(d, Type(c));
    Types(d, c);
    var t, e := Step(d, Type(c)), Entry(Insert, d.cur, [c]);
    NewestLogged(d.undo, e);
    hide Logged;
    assert t.undo[|t.undo| - 1] == e;
    InsertedDeleted(d.text, d.cur, [c]);
    Edited(t, Undo);
    var u := Step(t, Undo);
    assert u.text == Deleted(t.text, d.cur, d.cur + 1) == d.text;
    assert u.redo == [e];
    Edited(u, Redo);
    assert [c][..1] == [c];
  }

  lemma UndoDeleting(d: Doc)
    requires InRange(d) && !SelActive(d)
    ensures d.cur < |d.text| ==>
      var t := Step(d, Del);
      && InRange(t) && Ready(t, Undo) && Defined(t, Undo)
      && Step(t, Undo).text == d.text && Step(t, Undo).cur == d.cur + 1
    ensures d.cur > 0 ==>
      var t := Step(d, Backspace);
      && InRange(t) && Ready(t, Undo) && Defined(t, Undo)
      && Step(t, Undo).text == d.text && Step(t, Undo).cur == d.cur
  {
    hide Logged;
    if d.cur < |d.text| { UndoneDel(d); }
    if d.cur > 0 {
      var left := Step(d, Move(d.cur - 1, -1));
      BackspaceIsLeftDel(d);
      UndoneDel(left);
    }
  }

  lemma UndoneDel(d: Doc)
    requires InRange(d) && !SelActive(d) && d.cur < |d.text|
    ensures var t := Step(d, Del);
      && InRange(t) && Ready(t, Undo) && Defined(t, Undo)
      && Step(t, Undo).text == d.text && Step(t, Undo).cur == d.cur + 1
  {
    Edited(d, Del);
    Deletes(d);
    var t, e := Step(d, Del), Entry(Delete, d.cur, [d.text[d.cur]]);
    NewestLogged(d.undo, e);
    hide Logged;
    assert d.text[d.cur..d.cur + 1] == [d.text[d.cur]];
    DeletedInserted(d.text, d.cur, [d.text[d.cur]]);
    Edited(t, Undo);
  }
}
