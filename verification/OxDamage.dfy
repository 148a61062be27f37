/** The compositor's list of damaged rectangles: at most eight, merged when they overlap and, when
    the list is full, merged where the bounding box grows least. */
module OxDamage {

  const DIRTY_RECTS_MAX: nat := 8

  /** Half-open: x0 <= x < x1, y0 <= y < y1. */
  datatype Rect = Rect(x0: int, y0: int, x1: int, y1: int)

  predicate Has(r: Rect, x: int, y: int) {
    r.x0 <= x < r.x1 && r.y0 <= y < r.y1
  }

  predicate Empty(r: Rect) { r.x0 >= r.x1 || r.y0 >= r.y1 }

  predicate OnScreen(r: Rect, w: nat, h: nat) {
    0 <= r.x0 < r.x1 <= w && 0 <= r.y0 < r.y1 <= h
  }

  function Min(a: int, b: int): int { if a < b then a else b }
  function Max(a: int, b: int): int { if a > b then a else b }

  function Clip(r: Rect, w: nat, h: nat): Rect {
    Rect(Max(r.x0, 0), Max(r.y0, 0), Min(r.x1, w), Min(r.y1, h))
  }

  predicate Overlaps(a: Rect, b: Rect) {
    a.x0 < b.x1 && a.x1 > b.x0 && a.y0 < b.y1 && a.y1 > b.y0
  }

  function Union(a: Rect, b: Rect): Rect {
    Rect(Min(a.x0, b.x0), Min(a.y0, b.y0), Max(a.x1, b.x1), Max(a.y1, b.y1))
  }

  function Area(r: Rect): int { (r.x1 - r.x0) * (r.y1 - r.y0) }

  /** How much covering `b` too would enlarge `a`. */
  function Waste(a: Rect, b: Rect): int { Area(Union(a, b)) - Area(a) }

  ghost predicate Covered(rects: seq<Rect>, x: int, y: int) {
    exists i | 0 <= i < |rects| :: Has(rects[i], x, y)
  }

  ghost predicate Good(rects: seq<Rect>, w: nat, h: nat) {
    |rects| <= DIRTY_RECTS_MAX && forall i | 0 <= i < |rects| :: OnScreen(rects[i], w, h)
  }

  /** Clipping keeps exactly what is on the screen. */
  lemma ClipIff(r: Rect, w: nat, h: nat, x: int, y: int)
    ensures Has(Clip(r, w, h), x, y) <==> Has(r, x, y) && 0 <= x < w && 0 <= y < h
  {
  }

  /** Rectangles overlap exactly when they share a pixel. */
  lemma OverlapsIff(a: Rect, b: Rect)
    requires !Empty(a) && !Empty(b)
    ensures Overlaps(a, b) <==> exists x, y :: Has(a, x, y) && Has(b, x, y)
  {
    if Overlaps(a, b) {
      var x, y := Max(a.x0, b.x0), Max(a.y0, b.y0);
      assert Has(a, x, y) && Has(b, x, y);
    }
  }

  /** The union is the smallest rectangle around both. */
  lemma UnionLeast(a: Rect, b: Rect, c: Rect)
    requires !Empty(a) && !Empty(b)
    ensures forall x, y | Has(a, x, y) || Has(b, x, y) :: Has(Union(a, b), x, y)
    ensures (forall x, y | Has(a, x, y) || Has(b, x, y) :: Has(c, x, y)) ==>
              forall x, y | Has(Union(a, b), x, y) :: Has(c, x, y)
  {
    if forall x, y | Has(a, x, y) || Has(b, x, y) :: Has(c, x, y) {
      assert Has(a, a.x0, a.y0) && Has(a, a.x1 - 1, a.y1 - 1);
      assert Has(b, b.x0, b.y0) && Has(b, b.x1 - 1, b.y1 - 1);
    }
  }

  ghost function Pixels(r: Rect): set<(int, int)> {
    set x, y | r.x0 <= x < r.x1 && r.y0 <= y < r.y1 :: (x, y)
  }

  ghost function Column(x: int, y0: int, y1: int): set<(int, int)> { set y | y0 <= y < y1 :: (x, y) }

  lemma {:induction false} ColumnCounts(x: int, y0: int, y1: int)
    requires y0 <= y1
    ensures |Column(x, y0, y1)| == y1 - y0
    decreases y1 - y0
  {
    if y0 < y1 {
      ColumnCounts(x, y0, y1 - 1);
      assert Column(x, y0, y1) == Column(x, y0, y1 - 1) + {(x, y1 - 1)};
    } else {
      assert Column(x, y0, y1) == {};
    }
  }

  /** The area is the number of pixels. */
  lemma {:induction false} AreaCounts(r: Rect)
    requires r.x0 <= r.x1 && r.y0 <= r.y1
    ensures |Pixels(r)| == Area(r)
    decreases r.x1 - r.x0
  {
    if r.x0 < r.x1 {
      var less := r.(x1 := r.x1 - 1);
      AreaCounts(less);
      ColumnCounts(r.x1 - 1, r.y0, r.y1);
      assert Pixels(r) == Pixels(less) + Column(r.x1 - 1, r.y0, r.y1);
      assert Pixels(less) !! Column(r.x1 - 1, r.y0, r.y1);
      assert (r.x1 - r.x0) * (r.y1 - r.y0) == (r.x1 - 1 - r.x0) * (r.y1 - r.y0) + (r.y1 - r.y0);
    } else {
      assert Pixels(r) == {};
    }
  }

  /** Waste is the number of pixels the bounding box has more. */
  lemma WasteCounts(a: Rect, b: Rect)
    requires !Empty(a) && !Empty(b)
    ensures Waste(a, b) == |Pixels(Union(a, b)) - Pixels(a)|
  {
    AreaCounts(a);
    AreaCounts(Union(a, b));
    assert Pixels(a) <= Pixels(Union(a, b));
  }

  /** Where a new rectangle goes: the first overlapping entry, else a new entry, else the first
      entry of least waste. */
  ghost predicate Target(rects: seq<Rect>, r: Rect, i: nat) {
    if i < |rects| && Overlaps(r, rects[i]) then
      forall j | 0 <= j < i :: !Overlaps(r, rects[j])
    else
      && (forall j | 0 <= j < |rects| :: !Overlaps(r, rects[j]))
      && (if |rects| < DIRTY_RECTS_MAX then i == |rects|
          else i < |rects| && (forall j | 0 <= j < |rects| :: Waste(rects[i], r) <= Waste(rects[j], r))
               && (forall j | 0 <= j < i :: Waste(rects[i], r) < Waste(rects[j], r)))
  }

  ghost function Put(rects: seq<Rect>, r: Rect, i: nat): seq<Rect>
    requires i <= |rects|
  {
    if i == |rects| then rects + [r] else rects[i := Union(rects[i], r)]
  }

  /** `after` is the list left by marking `r`. */
  ghost predicate Marked(before: seq<Rect>, r: Rect, after: seq<Rect>) {
    if Empty(r) then after == before
    else exists i | 0 <= i <= |before| :: Target(before, r, i) && after == Put(before, r, i)
  }

  lemma WasteIsNatural(a: Rect, b: Rect)
    requires !Empty(a)
    ensures Waste(a, b) >= 0
  {
    var u := Union(a, b);
    var dw, dh := (u.x1 - u.x0) - (a.x1 - a.x0), (u.y1 - u.y0) - (a.y1 - a.y0);
    var w, h := a.x1 - a.x0, a.y1 - a.y0;
    Larger(w, h, dw, dh);
  }

  lemma Larger(w: int, h: int, dw: int, dh: int)
    requires w >= 0 && h >= 0 && dw >= 0 && dh >= 0
    ensures (w + dw) * (h + dh) >= w * h
  {
    assert (w + dw) * (h + dh) == w * h + w * dh + dw * (h + dh);
    Natural(w, dh);
    Natural(dw, h + dh);
  }

  lemma Natural(x: int, y: int)
    requires x >= 0 && y >= 0
    ensures x * y >= 0
  {
  }

  lemma PutCovers(rects: seq<Rect>, r: Rect, i: nat, x: int, y: int)
    requires i <= |rects| && (Covered(rects, x, y) || Has(r, x, y))
    ensures Covered(Put(rects, r, i), x, y)
  {
    var after := Put(rects, r, i);
    if Has(r, x, y) {
      assert Has(after[i], x, y);
    } else {
      var k :| 0 <= k < |rects| && Has(rects[k], x, y);
      assert Has(after[k], x, y);
    }
  }

  /** Marking loses no pixel, keeps the list short and every entry a non-empty part of the screen. */
  lemma MarkedCovers(before: seq<Rect>, r: Rect, after: seq<Rect>, w: nat, h: nat)
    requires Good(before, w, h) && (Empty(r) || OnScreen(r, w, h)) && Marked(before, r, after)
    ensures Good(after, w, h)
    ensures forall x, y | Covered(before, x, y) || Has(r, x, y) :: Covered(after, x, y)
  {
    if !Empty(r) {
      var i :| 0 <= i <= |before| && Target(before, r, i) && after == Put(before, r, i);
      forall x, y | Covered(before, x, y) || Has(r, x, y) ensures Covered(after, x, y) {
        PutCovers(before, r, i, x, y);
      }
    }
  }

  /** Some place always qualifies. */
  lemma TargetExists(rects: seq<Rect>, r: Rect)
    requires |rects| <= 8
    ensures exists i: nat | i <= |rects| :: Target(rects, r, i)
  {
    if i: nat :| i < |rects| && Overlaps(r, rects[i]) {
      var k := FirstOverlap(rects, r, i);
      assert Target(rects, r, k);
    } else if |rects| < 8 {
      assert Target(rects, r, |rects|);
    } else {
      var k := FirstLeast(rects, r, |rects|);
      assert Target(rects, r, k);
    }
  }

  lemma {:induction false} FirstOverlap(rects: seq<Rect>, r: Rect, i: nat) returns (k: nat)
    requires i < |rects| && Overlaps(r, rects[i])
    ensures k < |rects| && Overlaps(r, rects[k]) && forall j | 0 <= j < k :: !Overlaps(r, rects[j])
    decreases i
  {
    if j: nat :| j < i && Overlaps(r, rects[j]) {
      k := FirstOverlap(rects, r, j);
    } else {
      k := i;
    }
  }

  lemma {:induction false} FirstLeast(rects: seq<Rect>, r: Rect, n: nat) returns (k: nat)
    requires 0 < n <= |rects|
    ensures k < n && (forall j | 0 <= j < n :: Waste(rects[k], r) <= Waste(rects[j], r))
    ensures forall j | 0 <= j < k :: Waste(rects[k], r) < Waste(rects[j], r)
  {
    hide Waste;
    k := 0;
    if n > 1 {
      k := FirstLeast(rects, r, n - 1);
      if Waste(rects[n - 1], r) < Waste(rects[k], r) { k := n - 1; }
    }
  }

  /** At most one place qualifies: the list after a mark is determined. */
  lemma TargetUnique(rects: seq<Rect>, r: Rect, i: nat, j: nat)
    requires Target(rects, r, i) && Target(rects, r, j)
    ensures i == j
  {
    if i != j {
      assert false;
    }
  }

  // ----- any sequence of marks -----

  /** The lists a sequence of marks goes through. */
  ghost predicate MarkRun(lists: seq<seq<Rect>>, marks: seq<Rect>, w: nat, h: nat) {
    && |lists| == |marks| + 1 && lists[0] == []
    && forall k | 0 <= k < |marks| :: Marked(lists[k], Clip(marks[k], w, h), lists[k + 1])
  }

  /** After any number of marks since a flush, every on-screen pixel of every marked rectangle lies
      in a stored rectangle. */
  lemma {:induction false} MarksCovered(lists: seq<seq<Rect>>, marks: seq<Rect>, w: nat, h: nat)
    requires MarkRun(lists, marks, w, h)
    ensures Good(lists[|marks|], w, h)
    ensures forall k, x, y | 0 <= k < |marks| && Has(marks[k], x, y) && 0 <= x < w && 0 <= y < h ::
              Covered(lists[|marks|], x, y)
  {
    var n := |marks|;
    if n > 0 {
      assert MarkRun(lists[..n], marks[..n - 1], w, h);
      MarksCovered(lists[..n], marks[..n - 1], w, h);
      MarkedCovers(lists[n - 1], Clip(marks[n - 1], w, h), lists[n], w, h);
      forall k, x, y | 0 <= k < n && Has(marks[k], x, y) && 0 <= x < w && 0 <= y < h
        ensures Covered(lists[n], x, y)
      {
        if k < n - 1 {
          assert Has(marks[..n - 1][k], x, y);
        } else {
          assert Has(Clip(marks[n - 1], w, h), x, y);
        }
      }
    }
  }

  class Damage {
    const scrW: nat
    const scrH: nat
    var full: bool
    var rects: seq<Rect>

    ghost predicate Valid()
      reads this
    {
      Good(rects, scrW, scrH)
    }

    constructor (w: nat, h: nat)
      ensures Valid() && full && rects == [] && scrW == w && scrH == h
    {
      scrW, scrH, full, rects := w, h, true, [];
    }

    method MarkDirty(x: int, y: int, w: int, h: int)
      requires Valid()
      modifies this`rects
      ensures Valid()
      ensures if full then rects == old(rects)
              else Marked(old(rects), Clip(Rect(x, y, x + w, y + h), scrW, scrH), rects)
      ensures forall px, py | Covered(old(rects), px, py) :: Covered(rects, px, py)
      ensures !full ==> forall px, py | 0 <= px < scrW && 0 <= py < scrH && Has(Rect(x, y, x + w, y + h), px, py) ::
                Covered(rects, px, py)
    {
      if full { return; }
      var x0, y0, x1, y1 := x, y, x + w, y + h;
      if x0 < 0 { x0 := 0; }
      if y0 < 0 { y0 := 0; }
      if x1 > scrW { x1 := scrW; }
      if y1 > scrH { y1 := scrH; }
      var r := Rect(x0, y0, x1, y1);
      assert r == Clip(Rect(x, y, x + w, y + h), scrW, scrH);
      assert forall px, py | 0 <= px < scrW && 0 <= py < scrH && Has(Rect(x, y, x + w, y + h), px, py) ::
        Has(r, px, py);
      if x0 >= x1 || y0 >= y1 { return; }
      Place(r);
      MarkedCovers(old(rects), r, rects, scrW, scrH);
    }

    /** Merge `r` into the list, or append it. */
    method Place(r: Rect)
      requires Valid() && OnScreen(r, scrW, scrH)
      modifies this`rects
      ensures Marked(old(rects), r, rects)
    {
      for i := 0 to |rects|
        invariant rects == old(rects)
        invariant forall j | 0 <= j < i :: !Overlaps(r, rects[j])
      {
        if Overlaps(r, rects[i]) {
          assert Target(rects, r, i);
          rects := rects[i := Union(rects[i], r)];
          return;
        }
      }
      if |rects| < DIRTY_RECTS_MAX {
        assert Target(rects, r, |rects|);
        rects := rects + [r];
        return;
      }
      var best := LeastWaste(r);
      assert Target(rects, r, best);
      rects := rects[best := Union(rects[best], r)];
    }

    /** The first entry whose bounding box grows least. */
    method LeastWaste(r: Rect) returns (best: nat)
      requires Valid() && |rects| > 0
      ensures best < |rects|
      ensures forall j | 0 <= j < |rects| :: Waste(rects[best], r) <= Waste(rects[j], r)
      ensures forall j | 0 <= j < best :: Waste(rects[best], r) < Waste(rects[j], r)
    {
      var bestWaste := -1;
      best := 0;
      for i := 0 to |rects|
        invariant best < |rects| && (i == 0 ==> bestWaste == -1 && best == 0)
        invariant i > 0 ==> best < i && bestWaste == Waste(rects[best], r) >= 0
        invariant forall j | 0 <= j < i :: bestWaste <= Waste(rects[j], r)
        invariant forall j | 0 <= j < best :: bestWaste < Waste(rects[j], r)
      {
        WasteIsNatural(rects[i], r);
        var waste := Waste(rects[i], r);
        if bestWaste < 0 || waste < bestWaste {
          bestWaste, best := waste, i;
        }
      }
    }

    method Flushed()
      modifies this
      ensures Valid() && !full && rects == []
    {
      full, rects := false, [];
    }

    method MarkFull()
      requires Valid()
      modifies this`full
      ensures Valid() && full
    {
      full := true;
    }
  }
}
