/** The compositor's picture without the cursor, kept in `clean`, and the frame buffer image `back`.
    A flush repaints only the damaged rectangles; the result has to be the picture a full
    repaint would give. */
module OxCompositor {
  import opened OxDamage

  type Color = int

  /** One thing painted on the screen. Painting is local to a pixel: the new colour depends on the
      position and the colour below. With clipping on, the window body is confined to the clip
      rectangle but its chrome is not, so outside the rectangle only `chrome` happens. */
  datatype Layer = Layer(shown: bool, box: Rect, paint: (int, int, Color) -> Color, chrome: (int, int, Color) -> Color)

  /** Wallpaper, then windows bottom to top, then deskbar and menu. */
  datatype Scene = Scene(wallpaper: (int, int) -> Color, layers: seq<Layer>)

  /** A layer paints only inside the box it is tested by. */
  ghost predicate Contained(l: Layer) {
    forall x, y, c :: !Has(l.box, x, y) ==> l.paint(x, y, c) == c
  }

  ghost predicate WellBehaved(s: Scene) {
    forall i | 0 <= i < |s.layers| :: Contained(s.layers[i])
  }

  /** The colour at a pixel after the first `n` layers. */
  function Upto(s: Scene, n: nat, x: int, y: int): Color
    requires n <= |s.layers|
  {
    if n == 0 then s.wallpaper(x, y)
    else
      var below := Upto(s, n - 1, x, y);
      var l := s.layers[n - 1];
      if l.shown then l.paint(x, y, below) else below
  }

  function Image(s: Scene, x: int, y: int): Color { Upto(s, |s.layers|, x, y) }

  /** The colour at a pixel when only the layers whose box meets `r` are painted. */
  function Replayed(s: Scene, n: nat, r: Rect, x: int, y: int): Color
    requires n <= |s.layers|
  {
    if n == 0 then s.wallpaper(x, y)
    else
      var below := Replayed(s, n - 1, r, x, y);
      var l := s.layers[n - 1];
      if l.shown && Overlaps(l.box, r) then l.paint(x, y, below) else below
  }

  function WithoutLayer(s: Scene, i: nat): Scene
    requires i < |s.layers|
  {
    s.(layers := s.layers[..i] + s.layers[i + 1..])
  }

  lemma {:induction false} SameBelow(s: Scene, t: Scene, n: nat, x: int, y: int)
    requires n <= |s.layers| && n <= |t.layers| && s.wallpaper == t.wallpaper && s.layers[..n] == t.layers[..n]
    ensures Upto(s, n, x, y) == Upto(t, n, x, y)
  {
    if n > 0 {
      assert s.layers[..n - 1] == s.layers[..n][..n - 1] && t.layers[..n - 1] == t.layers[..n][..n - 1];
      SameBelow(s, t, n - 1, x, y);
      assert s.layers[n - 1] == s.layers[..n][n - 1] && t.layers[n - 1] == t.layers[..n][n - 1];
    }
  }

  lemma {:induction false} SameAbove(s: Scene, a: nat, t: Scene, b: nat, k: nat, x: int, y: int)
    requires a + k <= |s.layers| && b + k <= |t.layers| && s.layers[a..a + k] == t.layers[b..b + k]
    requires Upto(s, a, x, y) == Upto(t, b, x, y)
    ensures Upto(s, a + k, x, y) == Upto(t, b + k, x, y)
  {
    if k > 0 {
      assert s.layers[a..a + k - 1] == s.layers[a..a + k][..k - 1];
      assert t.layers[b..b + k - 1] == t.layers[b..b + k][..k - 1];
      SameAbove(s, a, t, b, k - 1, x, y);
      assert s.layers[a + k - 1] == s.layers[a..a + k][k - 1] == t.layers[b + k - 1];
    }
  }

  /** A layer that is not shown might as well not be there. */
  lemma HiddenIsAbsent(s: Scene, i: nat, x: int, y: int)
    requires i < |s.layers| && !s.layers[i].shown
    ensures Image(s, x, y) == Image(WithoutLayer(s, i), x, y)
  {
    var t, n := WithoutLayer(s, i), |s.layers|;
    assert s.layers[..i] == t.layers[..i];
    SameBelow(s, t, i, x, y);
    assert s.layers[i + 1..i + 1 + (n - 1 - i)] == t.layers[i..i + (n - 1 - i)];
    SameAbove(s, i + 1, t, i, n - 1 - i, x, y);
  }

  /** Where a layer that is shown paints over everything, what lies below it does not matter. */
  lemma OpaqueHides(s: Scene, t: Scene, i: nat, x: int, y: int)
    requires i < |s.layers| && |t.layers| == |s.layers| && s.layers[i..] == t.layers[i..] && s.layers[i].shown
    requires forall c, d :: s.layers[i].paint(x, y, c) == s.layers[i].paint(x, y, d)
    ensures Image(s, x, y) == Image(t, x, y)
  {
    var n := |s.layers|;
    assert s.layers[i] == s.layers[i..][0] == t.layers[i];
    var c, d := Upto(s, i, x, y), Upto(t, i, x, y);
    assert s.layers[i].paint(x, y, c) == s.layers[i].paint(x, y, d);
    assert Upto(s, i + 1, x, y) == Upto(t, i + 1, x, y);
    assert s.layers[i + 1..i + 1 + (n - 1 - i)] == s.layers[i..][1..] == t.layers[i + 1..i + 1 + (n - 1 - i)];
    SameAbove(s, i + 1, t, i + 1, n - 1 - i, x, y);
  }

  /** With no layer shown there is the wallpaper. */
  lemma {:induction false} BareWallpaper(s: Scene, n: nat, x: int, y: int)
    requires n <= |s.layers| && forall i | 0 <= i < n :: !s.layers[i].shown
    ensures Upto(s, n, x, y) == s.wallpaper(x, y)
  {
    if n > 0 { BareWallpaper(s, n - 1, x, y); }
  }

  /** Inside the rectangle, leaving out the layers that miss it changes nothing. */
  lemma {:induction false} ReplayIsExact(s: Scene, n: nat, r: Rect, x: int, y: int)
    requires n <= |s.layers| && WellBehaved(s) && Has(r, x, y)
    ensures Replayed(s, n, r, x, y) == Upto(s, n, x, y)
  {
    if n > 0 {
      ReplayIsExact(s, n - 1, r, x, y);
      assert Contained(s.layers[n - 1]);
    }
  }

  /** And only for such layers: painting a single pixel outside the tested box is enough for some
      partial repaint to differ from the full picture. */
  lemma ExactOnlyIfContained(l: Layer)
    requires l.shown
    requires forall wp: (int, int) -> Color, r, x, y | Has(r, x, y) ::
               Replayed(Scene(wp, [l]), 1, r, x, y) == Image(Scene(wp, [l]), x, y)
    ensures Contained(l)
  {
    forall x, y, c | !Has(l.box, x, y)
      ensures l.paint(x, y, c) == c
    {
      var wp := (px: int, py: int) => c;
      var r := Rect(x, y, x + 1, y + 1);
      assert Has(r, x, y);
      assert Replayed(Scene(wp, [l]), 1, r, x, y) == Image(Scene(wp, [l]), x, y);
      assert Upto(Scene(wp, [l]), 0, x, y) == c == Replayed(Scene(wp, [l]), 0, r, x, y);
    }
  }

  function PaintAt(l: Layer, clip: Rect, clipOn: bool, x: int, y: int, below: Color): Color {
    if clipOn && !Has(clip, x, y) then l.chrome(x, y, below) else l.paint(x, y, below)
  }

  class Compositor {
    const scrW: nat
    const scrH: nat
    const back: array2<Color>
    const clean: array2<Color>
    const damage: Damage
    var cursorDirty: bool
    var lastCursor: Rect

    ghost predicate Valid()
      reads this, damage
    {
      && back.Length0 == scrH && back.Length1 == scrW
      && clean.Length0 == scrH && clean.Length1 == scrW
      && back != clean
      && damage.scrW == scrW && damage.scrH == scrH && damage.Valid()
    }

    ghost predicate Visible(x: int, y: int) { 0 <= x < scrW && 0 <= y < scrH }

    /** The cache is right wherever no damage is recorded. */
    ghost predicate CleanOutsideDamage(s: Scene)
      requires Valid()
      reads this, damage, clean
    {
      damage.full ||
      forall x, y | Visible(x, y) && !Covered(damage.rects, x, y) :: clean[y, x] == Image(s, x, y)
    }

    ghost predicate CleanEverywhere(s: Scene)
      requires Valid()
      reads this, damage, clean
    {
      forall x, y | Visible(x, y) :: clean[y, x] == Image(s, x, y)
    }

    constructor (w: nat, h: nat)
      ensures Valid() && scrW == w && scrH == h && damage.full && fresh(back) && fresh(clean) && fresh(damage)
    {
      scrW, scrH, cursorDirty, lastCursor := w, h, false, Rect(0, 0, 0, 0);
      back := new Color[h, w];
      clean := new Color[h, w];
      damage := new Damage(w, h);
    }

    /** Paint one layer over the whole buffer; with a clip rectangle, its body only inside. */
    method DrawLayer(l: Layer, clip: Rect, clipOn: bool)
      requires Valid()
      modifies back
      ensures forall x, y | Visible(x, y) :: back[y, x] == PaintAt(l, clip, clipOn, x, y, old(back[y, x]))
    {
      for row := 0 to scrH
        invariant forall x, y | Visible(x, y) ::
                    back[y, x] == if y < row then PaintAt(l, clip, clipOn, x, y, old(back[y, x])) else old(back[y, x])
      {
        for col := 0 to scrW
          invariant forall x, y | Visible(x, y) ::
                      back[y, x] == if y < row || (y == row && x < col)
                                    then PaintAt(l, clip, clipOn, x, y, old(back[y, x])) else old(back[y, x])
        {
          back[row, col] := PaintAt(l, clip, clipOn, col, row, back[row, col]);
        }
      }
    }

    /** Copy the wallpaper into a rectangle, row by row. */
    method CopyWallpaper(s: Scene, r: Rect)
      requires Valid() && (OnScreen(r, scrW, scrH) || r == Rect(0, 0, scrW, scrH))
      modifies back
      ensures forall x, y | Visible(x, y) ::
                back[y, x] == if Has(r, x, y) then s.wallpaper(x, y) else old(back[y, x])
    {
      for row := r.y0 to r.y1
        invariant forall x, y | Visible(x, y) ::
                    back[y, x] == if Has(r, x, y) && y < row then s.wallpaper(x, y) else old(back[y, x])
      {
        for col := r.x0 to r.x1
          invariant forall x, y | Visible(x, y) ::
                      back[y, x] == if Has(r, x, y) && (y < row || (y == row && x < col)) then s.wallpaper(x, y)
                                    else old(back[y, x])
        {
          back[row, col] := s.wallpaper(col, row);
        }
      }
    }

    method ComposeNoCursor(s: Scene)
      requires Valid()
      modifies back
      ensures forall x, y | Visible(x, y) :: back[y, x] == Image(s, x, y)
    {
      var all := Rect(0, 0, scrW, scrH);
      CopyWallpaper(s, all);
      for i := 0 to |s.layers|
        invariant forall x, y | Visible(x, y) :: back[y, x] == Upto(s, i, x, y)
      {
        if s.layers[i].shown {
          DrawLayer(s.layers[i], all, false);
        }
      }
    }

    /** Replay only what can show in the rectangle. Outside it the buffer may end up with stray chrome. */
    method ComposeNoCursorDirty(s: Scene, r: Rect)
      requires Valid() && OnScreen(r, scrW, scrH)
      modifies back
      ensures forall x, y | Visible(x, y) && Has(r, x, y) :: back[y, x] == Replayed(s, |s.layers|, r, x, y)
    {
      CopyWallpaper(s, r);
      for i := 0 to |s.layers|
        invariant forall x, y | Visible(x, y) && Has(r, x, y) :: back[y, x] == Replayed(s, i, r, x, y)
      {
        var l := s.layers[i];
        if l.shown && Overlaps(l.box, r) {
          DrawLayer(l, r, true);
        }
      }
    }

    method SnapshotToClean(r: Rect)
      requires Valid() && OnScreen(r, scrW, scrH)
      modifies clean
      ensures forall x, y | Visible(x, y) ::
                clean[y, x] == if Has(r, x, y) then back[y, x] else old(clean[y, x])
    {
      for row := r.y0 to r.y1
        invariant forall x, y | Visible(x, y) ::
                    clean[y, x] == if Has(r, x, y) && y < row then back[y, x] else old(clean[y, x])
      {
        forall col | r.x0 <= col < r.x1 {
          clean[row, col] := back[row, col];
        }
      }
    }

    method RestoreRectFromClean(r: Rect)
      requires Valid() && OnScreen(r, scrW, scrH)
      modifies back
      ensures forall x, y | Visible(x, y) ::
                back[y, x] == if Has(r, x, y) then clean[y, x] else old(back[y, x])
    {
      for row := r.y0 to r.y1
        invariant forall x, y | Visible(x, y) ::
                    back[y, x] == if Has(r, x, y) && y < row then clean[y, x] else old(back[y, x])
      {
        forall col | r.x0 <= col < r.x1 {
          back[row, col] := clean[row, col];
        }
      }
    }

    /** With nothing recorded at all the whole screen is recomposed. */
    ghost predicate Whole()
      reads this, damage
    {
      damage.full || (damage.rects == [] && !cursorDirty)
    }

    /** Recompose and cache every damaged rectangle, or everything. The cache is the full picture
        afterwards exactly when everything was recomposed or it was right outside the damage. */
    method CompositeAndFlush(s: Scene, cursor: Layer)
      requires Valid() && WellBehaved(s)
      modifies this, damage, back, clean
      ensures Valid() && !damage.full && damage.rects == [] && !cursorDirty
      ensures forall x, y | Visible(x, y) ::
                clean[y, x] == Repainted(old(Whole()), old(damage.rects), s, x, y, old(clean[y, x]))
      ensures CleanEverywhere(s) <==> old(Whole() || CleanOutsideDamage(s))
    {
      var all := Rect(0, 0, scrW, scrH);
      var full := damage.full || (|damage.rects| == 0 && !cursorDirty);
      if full {
        ComposeNoCursor(s);
        forall row, col | 0 <= row < scrH && 0 <= col < scrW {
          clean[row, col] := back[row, col];
        }
      } else {
        FlushRects(s);
        var wiped := Clip(lastCursor, scrW, scrH);
        if !Empty(wiped) {
          RestoreRectFromClean(wiped);
        }
      }
      DrawLayer(cursor, all, false);
      lastCursor := cursor.box;
      damage.Flushed();
      cursorDirty := false;
    }

    method FlushRects(s: Scene)
      requires Valid() && WellBehaved(s)
      modifies back, clean
      ensures forall x, y | Visible(x, y) ::
                clean[y, x] == Repainted(false, damage.rects, s, x, y, old(clean[y, x]))
    {
      for i := 0 to |damage.rects|
        invariant forall x, y | Visible(x, y) ::
                    clean[y, x] == Repainted(false, damage.rects[..i], s, x, y, old(clean[y, x]))
      {
        var r := damage.rects[i];
        ComposeNoCursorDirty(s, r);
        SnapshotToClean(r);
        forall x, y | Visible(x, y) ensures Covered(damage.rects[..i + 1], x, y) <==>
                                            Covered(damage.rects[..i], x, y) || Has(r, x, y) {
          CoveredSnoc(damage.rects, i, x, y);
        }
        forall x, y | Has(r, x, y) ensures Replayed(s, |s.layers|, r, x, y) == Image(s, x, y) {
          ReplayIsExact(s, |s.layers|, r, x, y);
        }
      }
      assert damage.rects[..|damage.rects|] == damage.rects;
    }

    /** A change of scene: some rectangles are marked, or the whole screen is. The cache stays right outside
        the damage when the marks cover what changed. */
    method ChangeScene(ghost from: Scene, ghost to: Scene, marks: seq<Rect>, markFull: bool)
      requires Valid()
      modifies damage
      ensures Valid() && damage.full == (old(damage.full) || markFull)
      ensures !damage.full ==> (damage.rects != [] <==> old(damage.rects) != [] || Shows(marks, scrW, scrH))
      ensures old(CleanOutsideDamage(from)) && (markFull || DamageSound(from, to, marks, scrW, scrH))
              ==> CleanOutsideDamage(to)
    {
      if markFull {
        damage.MarkFull();
      }
      for k := 0 to |marks|
        invariant Valid() && damage.full == (old(damage.full) || markFull)
        invariant !damage.full ==> (damage.rects != [] <==> old(damage.rects) != [] || Shows(marks[..k], scrW, scrH))
        invariant forall x, y | Covered(old(damage.rects), x, y) :: Covered(damage.rects, x, y)
        invariant !damage.full ==> forall j, x, y | 0 <= j < k && Visible(x, y) && Has(marks[j], x, y) ::
                    Covered(damage.rects, x, y)
      {
        var m := marks[k];
        damage.MarkDirty(m.x0, m.y0, m.x1 - m.x0, m.y1 - m.y0);
        ShowsSnoc(marks, k, scrW, scrH);
      }
      assert marks[..|marks|] == marks;
    }

    /** The record says what it should of this compositor. */
    ghost predicate Notes(k: Pending, s: Scene)
      requires Valid()
      reads this, damage, clean
    {
      && k.full == damage.full && (!k.full ==> (k.noted <==> damage.rects != [] || cursorDirty))
      && (!k.stale ==> CleanOutsideDamage(s))
    }

    /** Over any run of scene changes, cursor moves and flushes the cache is right outside the recorded
        damage, and after a flush it is the full picture, unless a change its marks did not cover is still
        waiting for a flush that finds nothing recorded or everything marked. */
    method Process(first: Scene, ghost k: Pending, events: seq<Event>)
      requires Valid() && WellBehaved(first) && Notes(k, first) && Proper(first, events)
      modifies this, damage, back, clean
      ensures Valid() && Notes(After(k, first, events, scrW, scrH), SceneAfter(first, events))
      ensures events != [] && events[|events| - 1].Flush? && !After(k, first, events, scrW, scrH).stale
              ==> CleanEverywhere(SceneAfter(first, events))
    {
      ghost var s, p := first, k;
      for i := 0 to |events|
        invariant Valid() && WellBehaved(s) && Notes(p, s) && Proper(s, events[i..])
        invariant SceneAfter(s, events[i..]) == SceneAfter(first, events)
        invariant After(p, s, events[i..], scrW, scrH) == After(k, first, events, scrW, scrH)
        invariant i > 0 && events[i - 1].Flush? && !p.stale ==> CleanEverywhere(s)
      {
        assert events[i..][1..] == events[i + 1..];
        p := Noted(p, s, events[i], scrW, scrH);
        match events[i] {
          case Change(to, marks, markFull) =>
            ChangeScene(s, to, marks, markFull);
            s := to;
          case MoveCursor =>
            cursorDirty := true;
          case Flush(at, cursor) =>
            CompositeAndFlush(at, cursor);
        }
      }
    }
  }

  /** A cached pixel after a flush. */
  ghost function Repainted(whole: bool, rects: seq<Rect>, s: Scene, x: int, y: int, was: Color): Color {
    if whole || Covered(rects, x, y) then Image(s, x, y) else was
  }

  lemma CoveredSnoc(rects: seq<Rect>, i: nat, x: int, y: int)
    requires i < |rects|
    ensures Covered(rects[..i + 1], x, y) <==> Covered(rects[..i], x, y) || Has(rects[i], x, y)
  {
    var now, next := rects[..i], rects[..i + 1];
    if Covered(now, x, y) {
      var k :| 0 <= k < |now| && Has(now[k], x, y);
      assert next[k] == now[k];
    }
    if Has(rects[i], x, y) { assert next[i] == rects[i]; }
    if Covered(next, x, y) {
      var k :| 0 <= k < |next| && Has(next[k], x, y);
      if k < i { assert now[k] == next[k]; }
    }
  }

  /** Some rectangle is partly on the screen, so that marking it records something. */
  ghost predicate Shows(marks: seq<Rect>, w: nat, h: nat) {
    exists j | 0 <= j < |marks| :: !Empty(Clip(marks[j], w, h))
  }

  lemma ShowsSnoc(marks: seq<Rect>, i: nat, w: nat, h: nat)
    requires i < |marks|
    ensures Shows(marks[..i + 1], w, h) <==> Shows(marks[..i], w, h) || !Empty(Clip(marks[i], w, h))
  {
    var now, next := marks[..i], marks[..i + 1];
    if Shows(now, w, h) {
      var k :| 0 <= k < |now| && !Empty(Clip(now[k], w, h));
      assert next[k] == now[k];
    }
    if !Empty(Clip(marks[i], w, h)) { assert next[i] == marks[i]; }
    if Shows(next, w, h) {
      var k :| 0 <= k < |next| && !Empty(Clip(next[k], w, h));
      if k < i { assert now[k] == next[k]; }
    }
  }

  /** Every visible pixel whose colour changes lies in one of the marked rectangles. */
  ghost predicate DamageSound(from: Scene, to: Scene, marks: seq<Rect>, w: nat, h: nat) {
    forall x, y | 0 <= x < w && 0 <= y < h && Image(from, x, y) != Image(to, x, y) :: Covered(marks, x, y)
  }

  /** A flush paints the scene there is at that moment. */
  datatype Event =
    | Change(to: Scene, marks: seq<Rect>, markFull: bool)
    | MoveCursor
    | Flush(at: Scene, cursor: Layer)

  ghost predicate Proper(s: Scene, events: seq<Event>)
    decreases |events|
  {
    events != [] ==>
      match events[0]
      case Change(to, _, _) => WellBehaved(to) && Proper(to, events[1..])
      case MoveCursor => Proper(s, events[1..])
      case Flush(at, _) => at == s && Proper(s, events[1..])
  }

  /** What a run leaves to the next flush: a change not covered by its marks, a rectangle or a cursor move
      on record, the whole screen marked. */
  datatype Pending = Pending(stale: bool, noted: bool, full: bool)

  /** A flush repairs an uncovered change when the whole screen is marked or nothing at all is on record. */
  ghost function Noted(k: Pending, s: Scene, e: Event, w: nat, h: nat): Pending {
    match e
    case Change(to, marks, markFull) =>
      var covered := markFull || DamageSound(s, to, marks, w, h);
      Pending(k.stale || !covered, k.noted || Shows(marks, w, h), k.full || markFull)
    case MoveCursor => k.(noted := true)
    case Flush(_, _) => Pending(k.stale && !k.full && k.noted, false, false)
  }

  ghost function After(k: Pending, s: Scene, events: seq<Event>, w: nat, h: nat): Pending
    decreases |events|
  {
    if events == [] then k
    else
      After(Noted(k, s, events[0], w, h), if events[0].Change? then events[0].to else s, events[1..], w, h)
  }

  ghost function SceneAfter(s: Scene, events: seq<Event>): Scene
    decreases |events|
  {
    if events == [] then s
    else if events[0].Change? then SceneAfter(events[0].to, events[1..])
    else SceneAfter(s, events[1..])
  }

  // ----- uncovered changes -----

  lemma {:induction false} AfterMore(k: Pending, s: Scene, events: seq<Event>, e: Event, w: nat, h: nat)
    ensures After(k, s, events + [e], w, h) == Noted(After(k, s, events, w, h), SceneAfter(s, events), e, w, h)
    decreases |events|
  {
    if events == [] {
      assert events + [e] == [e];
    } else {
      var next := if events[0].Change? then events[0].to else s;
      assert (events + [e])[1..] == events[1..] + [e];
      AfterMore(Noted(k, s, events[0], w, h), next, events[1..], e, w, h);
    }
  }

  /** Whatever was left unmarked, two flushes in a row bring the full picture: the second finds nothing
      on record. */
  lemma TwoFlushesRepair(k: Pending, s: Scene, events: seq<Event>, t: Scene, c: Layer, d: Layer, w: nat, h: nat)
    ensures !After(k, s, events + [Flush(t, c)] + [Flush(t, d)], w, h).stale
  {
    AfterMore(k, s, events, Flush(t, c), w, h);
    AfterMore(k, s, events + [Flush(t, c)], Flush(t, d), w, h);
  }

  /** A window of one pixel. */
  function Dot(color: Color): Layer {
    Layer(true, Rect(0, 0, 1, 1), (x, y, c) => if x == 0 && y == 0 then color else c, (x, y, c) => c)
  }

  function Dots(a: Color, b: Color): Scene { Scene((x, y) => 0, [Dot(a), Dot(b)]) }

  /** One flush need not: two windows change places, which marks nothing. Alone, the next flush shows it;
      after a move of the pointer it does not, and the cache keeps the old colour. */
  lemma PointerHidesSwap(cursor: Layer)
    ensures var swap, flush := Change(Dots(2, 1), [], false), Flush(Dots(2, 1), cursor);
            && Image(Dots(1, 2), 0, 0) == 2 && Image(Dots(2, 1), 0, 0) == 1
            && !After(Pending(false, false, false), Dots(1, 2), [swap, flush], 1, 1).stale
            && After(Pending(false, false, false), Dots(1, 2), [MoveCursor, swap, flush], 1, 1).stale
            && Repainted(false, [], Dots(2, 1), 0, 0, Image(Dots(1, 2), 0, 0)) == 2
  {
    var none, swap, flush := Pending(false, false, false), Change(Dots(2, 1), [], false), Flush(Dots(2, 1), cursor);
    assert Image(Dots(1, 2), 0, 0) == 2 && Image(Dots(2, 1), 0, 0) == 1 by {
      assert Upto(Dots(1, 2), 1, 0, 0) == 1 && Upto(Dots(2, 1), 1, 0, 0) == 2;
    }
    AfterMore(none, Dots(1, 2), [swap], flush, 1, 1);
    assert [swap] + [flush] == [swap, flush];
    assert !DamageSound(Dots(1, 2), Dots(2, 1), [], 1, 1);
    assert !Shows([], 1, 1);
    AfterMore(none, Dots(1, 2), [], MoveCursor, 1, 1);
    AfterMore(none, Dots(1, 2), [MoveCursor], swap, 1, 1);
    assert [MoveCursor] + [swap] == [MoveCursor, swap];
    AfterMore(none, Dots(1, 2), [MoveCursor, swap], flush, 1, 1);
    assert [MoveCursor, swap] + [flush] == [MoveCursor, swap, flush];
  }
}
