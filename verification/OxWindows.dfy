/** The window table, its stacking order and focus, and the shared-memory backing of each window:
    the current object, plus at most one old object kept until the client presents again. */
module OxWindows {
  import opened OxShm
  import opened OxZOrder

  const MAX_WINS: nat := 16
  const MAX_WIN_W := 1024
  const MAX_WIN_H := 768
  const TITLEBAR_H := 22
  const DESKBAR_H := 32

  datatype WinState = Normal | Minimized | Zoomed

  datatype Bounds = Bounds(x: int, y: int, w: int, h: int)

  /** `back` and `pendingBack` are mappings; 0 is the null pointer. */
  datatype Window = Window(
    used: bool, id: nat, owner: int, state: WinState, at: Bounds, saved: Bounds, resizable: bool,
    back: nat, shmName: string, bufW: int, bufH: int, version: nat,
    pendingBack: nat, pendingShm: string)

  /** What the kernel answers to `shm_open`, `ftruncate` and `mmap`. */
  datatype Kernel = Kernel(openOk: bool, truncOk: bool, mapOk: bool)

  // ----- who holds which object -----

  function Names(w: Window): set<string> {
    if !w.used then {} else if w.pendingBack != 0 then {w.shmName, w.pendingShm} else {w.shmName}
  }
  function Maps(w: Window): set<nat> {
    if !w.used then {} else if w.pendingBack != 0 then {w.back, w.pendingBack} else {w.back}
  }

  ghost function NamesOf(wins: seq<Window>): seq<set<string>> {
    seq(|wins|, i requires 0 <= i < |wins| => Names(wins[i]))
  }
  ghost function MapsOf(wins: seq<Window>): seq<set<nat>> {
    seq(|wins|, i requires 0 <= i < |wins| => Maps(wins[i]))
  }

  /** `live` is the disjoint union of the parts. */
  ghost predicate Partition<T(!new)>(parts: seq<set<T>>, live: set<T>) {
    && (forall i, j | 0 <= i < j < |parts| :: parts[i] !! parts[j])
    && (forall n :: n in live <==> exists i | 0 <= i < |parts| :: n in parts[i])
  }

  lemma ReplacePart<T(!new)>(parts: seq<set<T>>, live: set<T>, i: nat, part: set<T>)
    requires Partition(parts, live) && i < |parts| && part !! (live - parts[i])
    ensures Partition(parts[i := part], live - parts[i] + part)
  {
    var parts', live' := parts[i := part], live - parts[i] + part;
    forall j, k | 0 <= j < k < |parts| ensures parts'[j] !! parts'[k] {
      assert parts[j] !! parts[k];
      assert parts[j] <= live && parts[k] <= live;
    }
    forall n ensures n in live' <==> exists j | 0 <= j < |parts'| :: n in parts'[j] {
      if n in part {
        assert n in parts'[i];
      } else if n in live' {
        var j :| 0 <= j < |parts| && n in parts[j];
        assert n in parts'[j];
      }
      if j :| 0 <= j < |parts'| && n in parts'[j] && j != i {
        assert n in parts[j] && n in live;
      }
    }
  }

  /** A used window's names are its own current one and an older one of the same window. */
  ghost predicate WellNamed(w: Window) {
    && w.back != 0 && w.shmName == ShmName(w.id, w.version)
    && (w.pendingBack != 0 <==> w.pendingShm != "")
    && (w.pendingBack != 0 ==>
          w.pendingBack != w.back && exists v: nat :: v < w.version && w.pendingShm == ShmName(w.id, v))
  }

  /** The live objects are exactly what the used windows hold; nothing is held twice. */
  ghost predicate Owned(wins: seq<Window>, linked: set<string>, mapped: set<nat>) {
    && (forall i | 0 <= i < |wins| && wins[i].used :: WellNamed(wins[i]))
    && Partition(NamesOf(wins), linked)
    && Partition(MapsOf(wins), mapped)
  }

  ghost predicate IdsOk(wins: seq<Window>, nextId: nat) {
    && nextId > 0
    && (forall i | 0 <= i < |wins| && wins[i].used :: 0 < wins[i].id < nextId)
    && (forall i, j | 0 <= i < j < |wins| && wins[i].used && wins[j].used :: wins[i].id != wins[j].id)
  }

  /** The stack holds exactly the used slots, each once. */
  ghost predicate StackOk(wins: seq<Window>, stack: seq<int>, focus: int) {
    && Distinct(stack)
    && (forall k | 0 <= k < |stack| :: IsSlot(stack[k], |wins|) && wins[stack[k]].used)
    && (forall i | 0 <= i < |wins| && wins[i].used :: i in stack)
    && (focus == -1 || focus in stack)
  }

  /** Putting a window into a slot, with the kernel objects following. */
  lemma OwnedUpdate(wins: seq<Window>, linked: set<string>, mapped: set<nat>, i: nat, w: Window)
    requires Owned(wins, linked, mapped) && i < |wins| && (w.used ==> WellNamed(w))
    requires Names(w) !! (linked - Names(wins[i])) && Maps(w) !! (mapped - Maps(wins[i]))
    ensures Owned(wins[i := w], linked - Names(wins[i]) + Names(w), mapped - Maps(wins[i]) + Maps(w))
  {
    ReplacePart(NamesOf(wins), linked, i, Names(w));
    ReplacePart(MapsOf(wins), mapped, i, Maps(w));
    assert NamesOf(wins[i := w]) == NamesOf(wins)[i := Names(w)];
    assert MapsOf(wins[i := w]) == MapsOf(wins)[i := Maps(w)];
  }

  /** What a used window holds is live. */
  lemma Held(wins: seq<Window>, linked: set<string>, mapped: set<nat>, i: nat)
    requires Owned(wins, linked, mapped) && i < |wins|
    ensures Names(wins[i]) <= linked && Maps(wins[i]) <= mapped
  {
    assert Names(wins[i]) == NamesOf(wins)[i] && Maps(wins[i]) == MapsOf(wins)[i];
  }

  /** A name no window has used yet is not linked. */
  lemma FreshName(wins: seq<Window>, linked: set<string>, mapped: set<nat>, id: nat, v: nat)
    requires Owned(wins, linked, mapped)
    requires forall i | 0 <= i < |wins| && wins[i].used && wins[i].id == id :: wins[i].version < v
    ensures ShmName(id, v) !in linked
  {
    var n := ShmName(id, v);
    if n in linked {
      var i :| 0 <= i < |wins| && n in NamesOf(wins)[i];
      var w := wins[i];
      assert WellNamed(w);
      var u: nat :| u <= w.version && n == ShmName(w.id, u);
      ShmNameInjective(id, v, w.id, u);
      assert false;
    }
  }

  class WindowManager {
    const scrW: int
    const scrH: int
    const shm: Shm
    var wins: seq<Window>
    var stack: seq<int>
    var focus: int
    var nextId: nat

    ghost predicate Valid()
      reads this, shm
    {
      && |wins| == MAX_WINS && shm.Valid()
      && StackOk(wins, stack, focus)
      && IdsOk(wins, nextId)
      && Owned(wins, shm.linked, shm.mapped)
    }

    predicate Used(slot: int)
      reads this
    {
      0 <= slot < |wins| && wins[slot].used
    }

    constructor (w: int, h: int)
      ensures Valid() && stack == [] && focus == -1 && shm.linked == {} && shm.mapped == {}
      ensures fresh(shm)
    {
      var none := Bounds(0, 0, 0, 0);
      scrW, scrH := w, h;
      shm := new Shm();
      wins := seq(MAX_WINS, i => Window(false, 0, 0, Normal, none, none, false, 0, "", 0, 0, 0, 0, ""));
      stack, focus, nextId := [], -1, 1;
    }

    // ----- stacking order -----

    /** The compaction loop: the stack without `slot`. */
    method Compacted(slot: int) returns (kept: seq<int>)
      ensures kept == Without(stack, slot)
    {
      kept := [];
      for i := 0 to |stack|
        invariant kept == Without(stack[..i], slot)
      {
        assert stack[..i + 1][..i] == stack[..i];
        if stack[i] != slot { kept := kept + [stack[i]]; }
      }
      assert stack[..|stack|] == stack;
    }

    method RaiseSlot(slot: int)
      requires Valid()
      modifies this`stack, this`focus
      ensures Valid() && wins == old(wins) && nextId == old(nextId)
      ensures if Used(slot) then stack == Without(old(stack), slot) + [slot] && focus == slot
              else stack == old(stack) && focus == old(focus)
    {
      if !Used(slot) { return; }
      WithoutMembers(stack, slot);
      WithoutDistinct(stack, slot);
      if |stack| > 0 && stack[|stack| - 1] == slot && focus == slot {
        TopIsRaised(stack[..|stack| - 1], slot);
        assert stack == stack[..|stack| - 1] + [slot];
        return;
      }
      var kept := Compacted(slot);
      ToTop(wins, stack, slot);
      stack := kept + [slot];
      focus := slot;
    }

    method MinimizeSlot(slot: int)
      requires Valid() && Used(slot)
      modifies this
      ensures Valid() && stack == old(stack) && nextId == old(nextId)
      ensures wins == old(wins)[slot := old(wins[slot]).(state := Minimized)]
      ensures old(wins[slot].state.Minimized? || focus != slot) ==> focus == old(focus)
      ensures !old(wins[slot].state.Minimized?) && old(focus) == slot ==> Topmost(wins, stack, focus)
    {
      var w := wins[slot];
      if w.state.Minimized? { return; }
      KeepsObjects(slot, w.(state := Minimized));
      wins := wins[slot := w.(state := Minimized)];
      if focus == slot {
        focus := -1;
        var i := |stack| - 1;
        while i >= 0
          invariant -1 <= i < |stack| && focus == -1
          invariant forall k | i < k < |stack| :: Hidden(wins, stack[k])
        {
          if !wins[stack[i]].state.Minimized? {
            focus := stack[i];
            break;
          }
          i := i - 1;
        }
      }
    }

    method RestoreSlot(slot: int)
      requires Valid() && Used(slot)
      modifies this
      ensures Valid() && nextId == old(nextId)
      ensures if old(wins[slot].state.Minimized?)
              then wins == old(wins)[slot := old(wins[slot]).(state := Normal)] && focus == slot
                   && stack == Without(old(stack), slot) + [slot]
              else wins == old(wins) && stack == old(stack) && focus == old(focus)
    {
      var w := wins[slot];
      if !w.state.Minimized? { return; }
      KeepsObjects(slot, w.(state := Normal));
      wins := wins[slot := w.(state := Normal)];
      focus := slot;
      var kept := Compacted(slot);
      ToTop(wins, stack, slot);
      stack := kept + [slot];
    }

    /** Alt+Left: the top window goes to the bottom and the new top gets the focus. */
    method RotateStack()
      requires Valid()
      modifies this`stack, this`focus
      ensures Valid() && wins == old(wins) && nextId == old(nextId)
      ensures |old(stack)| > 1 ==> stack == Rotation(old(stack)) && OnTop(wins, stack, focus)
      ensures |old(stack)| > 1 ==> Sunk(old(stack), old(stack)[|old(stack)| - 1], stack)
      ensures |old(stack)| <= 1 ==> stack == old(stack) && focus == old(focus)
    {
      hide Owned, IdsOk, StackOk, OnTop, Sunk;
      if |stack| <= 1 { return; }
      RotationKeeps(wins, stack, focus);
      RotationSinks(stack);
      stack := Rotated();
      focus := stack[|stack| - 1];
      TopHasFocus(wins, stack, focus);
    }

    /** The shifting loop, from the top down. */
    method Rotated() returns (r: seq<int>)
      requires |stack| > 0
      ensures r == Rotation(stack)
    {
      var n := |stack|;
      r := stack;
      var i := n - 1;
      while i > 0
        invariant 0 <= i < n && |r| == n
        invariant forall k | 0 <= k <= i :: r[k] == stack[k]
        invariant forall k | i < k < n :: r[k] == stack[k - 1]
      {
        r := r[i := r[i - 1]];
        i := i - 1;
      }
      r := r[0 := stack[n - 1]];
    }

    /** Alt+Tab: raise, or restore, the next window down the stack or the bottom one. */
    method CycleFocus(backward: bool)
      requires Valid()
      modifies this
      ensures Valid() && nextId == old(nextId)
      ensures |old(stack)| <= 1 ==> wins == old(wins) && stack == old(stack) && focus == old(focus)
      ensures |old(stack)| > 1 ==>
                var slot := old(stack)[if backward then 0 else |old(stack)| - 2];
                focus == slot && stack == Without(old(stack), slot) + [slot] && !wins[slot].state.Minimized?
    {
      if |stack| <= 1 { return; }
      var next := NextUsed(backward);
      if next >= 0 {
        if wins[next].state.Minimized? {
          RestoreSlot(next);
        } else {
          RaiseSlot(next);
        }
      }
    }

    /** The first used slot met going round the stack from the top. */
    method NextUsed(backward: bool) returns (next: int)
      requires |stack| > 1
      ensures next == -1 || (next in stack && Used(next))
      ensures var candidate := stack[if backward then 0 else |stack| - 2];
        Used(candidate) ==> next == candidate
    {
      var n := |stack|;
      var index, tries := n - 1, n;
      next := -1;
      while tries > 0
        invariant 0 <= index < n && (tries == n ==> index == n - 1)
        invariant tries < n ==> !Used(stack[if backward then 0 else n - 2])
      {
        tries := tries - 1;
        Around(index, n);
        index := if backward then (index + 1) % n else (index + n - 1) % n;
        if Used(stack[index]) {
          next := stack[index];
          break;
        }
      }
    }

    // ----- backing objects -----

    method FindSlotById(id: nat) returns (slot: int)
      requires Valid()
      ensures slot == -1 ==> forall i | 0 <= i < |wins| && wins[i].used :: wins[i].id != id
      ensures slot != -1 ==> Used(slot) && wins[slot].id == id
    {
      for i := 0 to |wins|
        invariant forall j | 0 <= j < i && wins[j].used :: wins[j].id != id
      {
        if wins[i].used && wins[i].id == id {
          return i;
        }
      }
      slot := -1;
    }

    method FreeSlot() returns (slot: int)
      requires |wins| == MAX_WINS
      ensures slot == -1 ==> forall i | 0 <= i < MAX_WINS :: wins[i].used
      ensures slot != -1 ==> 0 <= slot < MAX_WINS && !wins[slot].used && forall i | 0 <= i < slot :: wins[i].used
    {
      for i := 0 to MAX_WINS
        invariant forall j | 0 <= j < i :: wins[j].used
      {
        if !wins[i].used { return i; }
      }
      slot := -1;
    }

    /** Create a window in the first free slot: a fresh id, version 0 of its name, on top, focused. */
    method AllocWindow(owner: int, w0: int, h0: int, resizable: bool, k: Kernel) returns (slot: int)
      requires Valid()
      modifies this, shm
      ensures Valid()
      ensures slot == -1 || (0 <= slot < MAX_WINS && !old(wins[slot].used))
      ensures 0 < old(nextId) <= nextId <= old(nextId) + 1
      ensures slot != -1 <==>
        && w0 > 0 && h0 > 0 && k.openOk && k.truncOk && k.mapOk
        && exists i | 0 <= i < MAX_WINS :: !old(wins[i].used)
      ensures slot == -1 ==> stack == old(stack) && focus == old(focus)
      ensures slot == -1 ==> shm.linked == old(shm.linked) && shm.mapped == old(shm.mapped)
      ensures slot != -1 ==> stack == old(stack) + [slot] && focus == slot
      ensures slot != -1 ==> forall j | 0 <= j < slot :: old(wins[j].used)
      ensures slot != -1 ==>
                var w, h, back := Min(w0, MAX_WIN_W), Min(h0, MAX_WIN_H), wins[slot].back;
                wins[slot] == NewWindow(old(nextId), owner, w, h, resizable, back)
      ensures forall i | 0 <= i < MAX_WINS && i != slot ::
                wins[i].used == old(wins[i].used) && (wins[i].used ==> wins[i] == old(wins[i]))
    {
      hide StackOk, IdsOk, Partition, NamesOf, MapsOf, ShmName;
      IdIsFresh(wins, nextId);
      if w0 <= 0 || h0 <= 0 { return -1; }
      var w, h := Min(w0, MAX_WIN_W), Min(h0, MAX_WIN_H);
      var i := FreeSlot();
      if i == -1 { return -1; }
      var id := nextId;
      var name := ShmName(id, 0);
      nextId := nextId + 1;
      FreshName(wins, shm.linked, shm.mapped, id, 0);
      shm.Open(name, k.openOk);
      if !k.openOk { return -1; }
      if !k.truncOk {
        shm.Unlink(name);
        assert shm.linked == old(shm.linked);
        return -1;
      }
      var back := shm.Map(k.mapOk);
      if back == 0 {
        shm.Unlink(name);
        assert shm.linked == old(shm.linked);
        return -1;
      }
      var win := NewWindow(id, owner, w, h, resizable, back);
      OwnedUpdate(wins, old(shm.linked), old(shm.mapped), i, win);
      StackGrows(wins, stack, focus, i, win);
      IdsGrow(wins, old(nextId), i, win);
      assert shm.linked == old(shm.linked) - Names(wins[i]) + Names(win);
      assert shm.mapped == old(shm.mapped) - Maps(wins[i]) + Maps(win);
      wins := wins[i := win];
      if |stack| < MAX_WINS {
        stack := stack + [i];
        focus := i;
      }
      slot := i;
    }

    method DestroySlot(slot: int)
      requires Valid()
      modifies this, shm
      ensures Valid() && nextId == old(nextId)
      ensures !old(Used(slot)) ==> wins == old(wins) && stack == old(stack) && focus == old(focus)
      ensures !old(Used(slot)) ==> shm.linked == old(shm.linked) && shm.mapped == old(shm.mapped)
      ensures old(Used(slot)) ==>
                && wins == old(wins)[slot := wins[slot]] && !wins[slot].used
                && stack == Without(old(stack), slot)
                && focus == FocusAfter(stack, old(focus), slot)
                && (old(focus) != slot ==> focus == old(focus))
                && (old(focus) == slot ==> OnTop(wins, stack, focus))
                && shm.linked == old(shm.linked) - Names(old(wins[slot]))
                && shm.mapped == old(shm.mapped) - Maps(old(wins[slot]))
    {
      hide StackOk, IdsOk, Partition, NamesOf, MapsOf, ShmName, Without, OnTop;
      if !Used(slot) { return; }
      var w := wins[slot];
      assert WellNamed(w);
      Held(wins, shm.linked, shm.mapped, slot);
      OlderName(w);
      var gone := w.(used := false, back := 0, shmName := "", pendingBack := 0, pendingShm := "");
      OwnedUpdate(wins, shm.linked, shm.mapped, slot, gone);
      StackShrinks(wins, stack, focus, slot, gone);
      IdsShrink(wins, nextId, slot, gone);
      shm.Unmap(w.back);
      shm.Unlink(w.shmName);
      if w.pendingBack != 0 {
        shm.Unmap(w.pendingBack);
        shm.Unlink(w.pendingShm);
      }
      assert shm.linked == old(shm.linked) - Names(w) + Names(gone);
      assert shm.mapped == old(shm.mapped) - Maps(w) + Maps(gone);
      wins := wins[slot := gone];
      stack := Compacted(slot);
      if focus == slot {
        focus := if |stack| > 0 then stack[|stack| - 1] else -1;
        TopHasFocus(wins, stack, focus);
      }
    }

    /** Let go of the object kept for a client that was still drawing into it. */
    method ReleasePending(slot: int)
      requires Used(slot) && shm.Valid() && (wins[slot].pendingBack == 0 <==> wins[slot].pendingShm == "")
      requires wins[slot].pendingBack != 0 ==>
        wins[slot].pendingBack in shm.mapped && wins[slot].pendingShm in shm.linked
      modifies this`wins, shm
      ensures shm.Valid() && wins == old(wins)[slot := old(wins[slot]).(pendingBack := 0, pendingShm := "")]
      ensures var w := old(wins[slot]);
        && shm.linked == old(shm.linked) - (if w.pendingBack != 0 then {w.pendingShm} else {})
        && shm.mapped == old(shm.mapped) - (if w.pendingBack != 0 then {w.pendingBack} else {})
    {
      var w := wins[slot];
      if w.pendingBack != 0 {
        shm.Unmap(w.pendingBack);
        shm.Unlink(w.pendingShm);
        wins := wins[slot := w.(pendingBack := 0, pendingShm := "")];
      }
    }

    /** A present acknowledges the newest buffer, so the old one goes. */
    method Present(pid: int, id: nat)
      requires Valid()
      modifies this, shm
      ensures Valid() && stack == old(stack) && focus == old(focus) && nextId == old(nextId)
      ensures forall i | 0 <= i < MAX_WINS ::
                wins[i] == if old(wins[i]).used && old(wins[i]).id == id && old(wins[i]).owner == pid
                           then old(wins[i]).(pendingBack := 0, pendingShm := "") else old(wins[i])
    {
      hide StackOk, IdsOk, Partition, NamesOf, MapsOf, ShmName;
      var slot := FindSlotById(id);
      if slot < 0 { return; }
      OnlyOne(wins, nextId, slot);
      if wins[slot].owner != pid { return; }
      var w := wins[slot];
      assert WellNamed(w);
      Held(wins, shm.linked, shm.mapped, slot);
      OlderName(w);
      var acked := w.(pendingBack := 0, pendingShm := "");
      OwnedUpdate(wins, shm.linked, shm.mapped, slot, acked);
      IdsShrink(wins, nextId, slot, acked);
      StackStays(wins, stack, focus, slot, acked);
      ReleasePending(slot);
      assert shm.linked == old(shm.linked) - Names(w) + Names(acked);
      assert shm.mapped == old(shm.mapped) - Maps(w) + Maps(acked);
    }

    /** Give a window a fresh buffer under the next version of its name; the buffer it had becomes the
        pending one, and a pending one from before is released. On failure nothing changes. */
    method SwapWindowShm(slot: int, w0: int, h0: int, k: Kernel) returns (ok: bool)
      requires Valid()
      modifies this, shm
      ensures Valid() && stack == old(stack) && focus == old(focus) && nextId == old(nextId)
      ensures ok <==> old(Used(slot)) && w0 > 0 && h0 > 0 && k.openOk && k.truncOk && k.mapOk
      ensures !ok ==> wins == old(wins) && shm.linked == old(shm.linked) && shm.mapped == old(shm.mapped)
      ensures ok ==>
                var w, before := wins[slot], old(wins[slot]);
                && wins == old(wins)[slot := w]
                && w.version == before.version + 1 && w.pendingBack == before.back && w.pendingShm == before.shmName
                && w.bufW == w.at.w == Min(w0, MAX_WIN_W) && w.bufH == w.at.h == Min(h0, MAX_WIN_H)
                && w == before.(version := w.version, back := w.back, shmName := w.shmName,
                                at := before.at.(w := w.bufW, h := w.bufH), bufW := w.bufW, bufH := w.bufH,
                                pendingBack := w.pendingBack, pendingShm := w.pendingShm)
    {
      hide StackOk, IdsOk, Partition, NamesOf, MapsOf, ShmName;
      if !Used(slot) || w0 <= 0 || h0 <= 0 { return false; }
      var w, h := Min(w0, MAX_WIN_W), Min(h0, MAX_WIN_H);
      var win := wins[slot];
      assert WellNamed(win);
      Held(wins, shm.linked, shm.mapped, slot);
      OlderName(win);
      var name := ShmName(win.id, win.version + 1);
      OnlyOne(wins, nextId, slot);
      FreshName(wins, shm.linked, shm.mapped, win.id, win.version + 1);
      shm.Open(name, k.openOk);
      if !k.openOk { return false; }
      if !k.truncOk {
        shm.Unlink(name);
        assert shm.linked == old(shm.linked);
        return false;
      }
      var back := shm.Map(k.mapOk);
      if back == 0 {
        shm.Unlink(name);
        assert shm.linked == old(shm.linked);
        return false;
      }
      ReleasePending(slot);
      var swapped := win.(pendingBack := win.back, pendingShm := win.shmName, back := back, shmName := name,
                          version := win.version + 1, at := win.at.(w := w, h := h), bufW := w, bufH := h);
      SwappedName(win, swapped);
      IdsShrink(old(wins), nextId, slot, swapped);
      StackStays(old(wins), stack, focus, slot, swapped);
      OwnedUpdate(old(wins), old(shm.linked), old(shm.mapped), slot, swapped);
      assert shm.linked == old(shm.linked) - Names(win) + Names(swapped);
      assert shm.mapped == old(shm.mapped) - Maps(win) + Maps(swapped);
      wins := wins[slot := swapped];
      assert wins == old(wins)[slot := swapped];
      ok := true;
    }

    /** The size a window gets without a new buffer: at least 64 by 48, at most the screen, the buffer. */
    function Clipped(win: Window, w0: int, h0: int): (size: (int, int))
      ensures win.bufW > 0 && win.bufH > 0 ==> size.0 <= win.bufW && size.1 <= win.bufH
    {
      var w, h := Min(if w0 < 64 then 64 else w0, scrW), Min(if h0 < 48 then 48 else h0, scrH - DESKBAR_H - TITLEBAR_H);
      (Min(w, if win.bufW > 0 then win.bufW else win.at.w), Min(h, if win.bufH > 0 then win.bufH else win.at.h))
    }

    /** The size asked for, within reason: at least 120 by 80, at most the screen. */
    function Wanted(w0: int, h0: int): (int, int) {
      (Min(if w0 < 120 then 120 else w0, scrW), Min(if h0 < 80 then 80 else h0, scrH - DESKBAR_H - TITLEBAR_H))
    }

    /** On a screen large enough it is the nearest size from 120 by 80 up to the screen. */
    lemma WantedIsNearest(w0: int, h0: int)
      ensures scrW >= 120 ==> Nearest(Wanted(w0, h0).0, 120, scrW, w0)
      ensures scrH >= 134 ==> Nearest(Wanted(w0, h0).1, 80, scrH - 54, h0)
    {
    }

    /** The same for a window that keeps its buffer: from 64 by 48 up to what screen and buffer allow. */
    lemma ClippedIsNearest(win: Window, w0: int, h0: int, limitW: int, limitH: int)
      requires win.bufW > 0 ==> limitW == win.bufW
      requires win.bufH > 0 ==> limitH == win.bufH
      requires win.bufW <= 0 ==> limitW == win.at.w
      requires win.bufH <= 0 ==> limitH == win.at.h
      ensures scrW >= 64 && limitW >= 64 ==> Nearest(Clipped(win, w0, h0).0, 64, Min(scrW, limitW), w0)
      ensures scrH >= 102 && limitH >= 48 ==> Nearest(Clipped(win, w0, h0).1, 48, Min(scrH - 54, limitH), h0)
    {
    }

    /** Resize inside the existing buffer: no new object. */
    method ResizeWindow(slot: int, w0: int, h0: int)
      requires Valid()
      modifies this`wins
      ensures Valid()
      ensures !old(Used(slot)) ==> wins == old(wins)
      ensures old(Used(slot)) ==>
                var before := old(wins[slot]);
                var (w, h) := Clipped(before, w0, h0);
                wins == old(wins)[slot := before.(at := Bounds(before.at.x, before.at.y, w, h))]
    {
      if !Used(slot) { return; }
      var win := wins[slot];
      var w := if w0 < 64 then 64 else w0;
      var h := if h0 < 48 then 48 else h0;
      var maxW := if win.bufW > 0 then win.bufW else win.at.w;
      var maxH := if win.bufH > 0 then win.bufH else win.at.h;
      w, h := Min(w, scrW), Min(h, scrH - DESKBAR_H - TITLEBAR_H);
      w, h := Min(w, maxW), Min(h, maxH);
      if w == win.at.w && h == win.at.h {
        assert wins[slot := win] == wins;
        return;
      }
      var resized := win.(at := Bounds(win.at.x, win.at.y, w, h));
      KeepsObjects(slot, resized);
      wins := wins[slot := resized];
    }

    /** Interactive resize: a fresh buffer for windows that opted in, else, or when the kernel refuses,
        the clipped kind. */
    method CommitResize(slot: int, w0: int, h0: int, k: Kernel)
      requires Valid()
      modifies this, shm
      ensures Valid() && stack == old(stack) && focus == old(focus) && nextId == old(nextId)
      ensures forall i | 0 <= i < MAX_WINS && i != slot :: wins[i] == old(wins[i])
      ensures !old(Used(slot)) ==> wins == old(wins)
      ensures old(Used(slot)) && !old(wins[slot].resizable) ==>
                var (w, h) := Clipped(old(wins[slot]), w0, h0);
                wins[slot] == old(wins[slot]).(at := Bounds(old(wins[slot].at.x), old(wins[slot].at.y), w, h))
      ensures old(Used(slot)) && old(wins[slot].resizable) ==>
                var (w, h), before := Wanted(w0, h0), old(wins[slot]);
                if (w, h) == (before.at.w, before.at.h) then wins[slot] == before
                else if w > 0 && h > 0 && k.openOk && k.truncOk && k.mapOk
                then wins[slot].version == before.version + 1 && wins[slot].pendingBack == before.back
                     && wins[slot].at == before.at.(w := Min(w, MAX_WIN_W), h := Min(h, MAX_WIN_H))
                else var (cw, ch) := Clipped(before, w, h);
                     wins[slot] == before.(at := Bounds(before.at.x, before.at.y, cw, ch))
    {
      if !Used(slot) { return; }
      if !wins[slot].resizable {
        ResizeWindow(slot, w0, h0);
        return;
      }
      var (w, h) := Wanted(w0, h0);
      if w == wins[slot].at.w && h == wins[slot].at.h { return; }
      var ok := SwapWindowShm(slot, w, h, k);
      if !ok {
        ResizeWindow(slot, w, h);
      }
    }

    /** Toggle between normal and zoomed. Zooming saves the bounds, unzooming brings them back. */
    method ZoomSlot(slot: int, k: Kernel)
      requires Valid() && Used(slot)
      modifies this, shm
      ensures Valid() && stack == old(stack) && focus == old(focus) && nextId == old(nextId)
      ensures forall i | 0 <= i < MAX_WINS && i != slot :: wins[i] == old(wins[i])
      ensures if old(wins[slot].state.Zoomed?)
              then wins[slot].state == Normal && wins[slot].at == old(wins[slot].saved)
              else wins[slot].state == Zoomed && wins[slot].saved == old(wins[slot].at)
                   && (wins[slot].at.x, wins[slot].at.y) == (4, DESKBAR_H + TITLEBAR_H + 4)
                   && (wins[slot].at.w, wins[slot].at.h) == ZoomedSize(old(wins[slot]), k)
    {
      var availW, availH := scrW - 8, scrH - DESKBAR_H - TITLEBAR_H - 8;
      if wins[slot].state.Zoomed? {
        if wins[slot].resizable {
          var _ := SwapWindowShm(slot, wins[slot].saved.w, wins[slot].saved.h, k);
        }
        Dress(slot, wins[slot].(at := wins[slot].saved, state := Normal));
      } else {
        var x, y := 4, DESKBAR_H + TITLEBAR_H + 4;
        Dress(slot, wins[slot].(saved := wins[slot].at, state := Zoomed));
        if wins[slot].resizable {
          var ok := SwapWindowShm(slot, availW, availH, k);
          var w, h := if ok then wins[slot].at.w else availW, if ok then wins[slot].at.h else availH;
          Dress(slot, wins[slot].(at := Bounds(x, y, w, h)));
        } else {
          var w, h := Min(wins[slot].at.w * 2, availW), Min(wins[slot].at.h * 2, availH);
          Dress(slot, wins[slot].(at := Bounds(x, y, w, h)));
        }
      }
    }

    /** Resizable windows fill the screen, as far as buffers go; others double. */
    function ZoomedSize(win: Window, k: Kernel): (int, int) {
      var w, h := scrW - 8, scrH - DESKBAR_H - TITLEBAR_H - 8;
      if !win.resizable then (Min(win.at.w * 2, w), Min(win.at.h * 2, h))
      else if w > 0 && h > 0 && k.openOk && k.truncOk && k.mapOk then (Min(w, MAX_WIN_W), Min(h, MAX_WIN_H))
      else (w, h)
    }

    /** A zoomed window keeps four pixels from every edge of the screen below the Deskbar and its own title. It
        reaches all edges if it is resizable and buffers can be so large; otherwise it is at most doubled. */
    lemma ZoomFits(win: Window, k: Kernel)
      ensures var (w, h) := ZoomedSize(win, k); 4 + w + 4 <= scrW && 32 + 22 + 4 + h + 4 <= scrH
      ensures win.resizable && scrW <= 1032 && scrH <= 830 ==>
        var (w, h) := ZoomedSize(win, k); 4 + w + 4 == scrW && 32 + 22 + 4 + h + 4 == scrH
      ensures !win.resizable ==> var (w, h) := ZoomedSize(win, k);
        w <= win.at.w + win.at.w && h <= win.at.h + win.at.h
    {
    }

    /** Zooming twice comes back to the same bounds, whatever the kernel did in between. */
    method ZoomAndBack(slot: int, k: Kernel, l: Kernel)
      requires Valid() && Used(slot) && !wins[slot].state.Zoomed?
      modifies this, shm
      ensures Valid() && wins[slot].at == old(wins[slot].at) && wins[slot].state == Normal
      ensures forall i | 0 <= i < MAX_WINS && i != slot :: wins[i] == old(wins[i])
    {
      ZoomSlot(slot, k);
      ZoomSlot(slot, l);
    }

    /** Store a window that differs only in bounds and state. */
    method Dress(slot: int, w: Window)
      requires Valid() && Used(slot)
      requires w == wins[slot].(at := w.at, saved := w.saved, state := w.state)
      modifies this`wins
      ensures Valid() && wins == old(wins)[slot := w]
    {
      KeepsObjects(slot, w);
      wins := wins[slot := w];
    }

    // ----- any run -----

    method Handle(op: Request)
      requires Valid()
      modifies this, shm
      ensures Valid() && nextId >= old(nextId)
    {
      match op {
        case Create(owner, w, h, resizable, k) =>
          var _ := AllocWindow(owner, w, h, resizable, k);
        case Destroy(slot) => DestroySlot(slot);
        case Raise(slot) => RaiseSlot(slot);
        case Minimize(slot) => if Used(slot) { MinimizeSlot(slot); }
        case Restore(slot) => if Used(slot) { RestoreSlot(slot); }
        case Rotate => RotateStack();
        case Cycle(backward) => CycleFocus(backward);
        case Resize(slot, w, h, k) => CommitResize(slot, w, h, k);
        case Zoom(slot, k) => if Used(slot) { ZoomSlot(slot, k); }
        case Presented(pid, id) => Present(pid, id);
      }
    }

    /** In every reachable state, whatever the requests and whatever the kernel refuses: the stack
        holds exactly the used slots, and the live objects are exactly what the windows hold. */
    method Serve(ops: seq<Request>)
      requires Valid()
      modifies this, shm
      ensures Valid()
      ensures forall i | 0 <= i < MAX_WINS && wins[i].used ::
                wins[i].shmName in shm.linked && wins[i].back in shm.mapped
      ensures (forall i | 0 <= i < MAX_WINS :: !wins[i].used) ==>
                shm.linked == {} && shm.mapped == {} && stack == [] && focus == -1
    {
      for n := 0 to |ops|
        invariant Valid()
      {
        Handle(ops[n]);
      }
      forall i | 0 <= i < MAX_WINS && wins[i].used
        ensures wins[i].shmName in shm.linked && wins[i].back in shm.mapped
      {
        Held(wins, shm.linked, shm.mapped, i);
      }
      NothingLeft(wins, shm.linked, shm.mapped);
      assert stack != [] ==> wins[stack[0]].used;
    }

    /** Changing only a window's looks leaves the invariant alone. */
    lemma KeepsObjects(slot: int, w: Window)
      requires Valid() && Used(slot) && w.used && w.id == wins[slot].id && w.version == wins[slot].version
      requires w.back == wins[slot].back && w.shmName == wins[slot].shmName
      requires w.pendingBack == wins[slot].pendingBack && w.pendingShm == wins[slot].pendingShm
      ensures var ws := wins[slot := w];
        StackOk(ws, stack, focus) && IdsOk(ws, nextId) && Owned(ws, shm.linked, shm.mapped)
    {
      assert NamesOf(wins[slot := w]) == NamesOf(wins) && MapsOf(wins[slot := w]) == MapsOf(wins);
      assert WellNamed(wins[slot]);
    }
  }

  lemma Around(i: int, n: int)
    requires 0 <= i < n && n > 1
    ensures (i + 1) % n == if i == n - 1 then 0 else i + 1
    ensures (i + n - 1) % n == if i == 0 then n - 1 else i - 1
  {
    assert i > 0 ==> i + n - 1 == n + (i - 1);
  }

  function Rotation(s: seq<int>): seq<int>
    requires s != []
  {
    [s[|s| - 1]] + s[..|s| - 1]
  }

  /** `x` has gone below all others, whose order is what it was. */
  ghost predicate Sunk(before: seq<int>, x: int, after: seq<int>) {
    && (forall a | a in before && a != x :: Below(after, x, a))
    && forall a, b | a != x && b != x :: Below(after, a, b) <==> Below(before, a, b)
  }

  lemma RotationSinks(s: seq<int>)
    requires s != [] && Distinct(s)
    ensures Sunk(s, s[|s| - 1], Rotation(s))
  {
    var f, x := s[..|s| - 1], s[|s| - 1];
    assert s == f + [x];
    forall a, b ensures Below(Rotation(s), a, b) <==> Below(f, a, b) || (a == x && b in f) {
      BelowCons(x, f, a, b);
    }
    forall a, b | b != x ensures Below(s, a, b) <==> Below(f, a, b) {
      BelowSnoc(f, x, a, b);
    }
  }

  lemma RotationKeeps(wins: seq<Window>, stack: seq<int>, focus: int)
    requires StackOk(wins, stack, focus) && stack != []
    ensures Distinct(stack)
    ensures StackOk(wins, Rotation(stack), Rotation(stack)[|stack| - 1])
  {
    var r, n := Rotation(stack), |stack|;
    forall i | 0 <= i < |wins| && wins[i].used ensures i in r {
      var k :| 0 <= k < n && stack[k] == i;
      assert r[if k == n - 1 then 0 else k + 1] == i;
    }
  }

  lemma TopIsRaised(f: seq<int>, x: int)
    requires x !in f
    ensures Without(f + [x], x) == f
  {
    WithoutAbsent(f, x);
    assert (f + [x])[..|f|] == f;
  }

  lemma {:induction false} WithoutAbsent(s: seq<int>, x: int)
    requires x !in s
    ensures Without(s, x) == s
  {
    if s != [] {
      WithoutAbsent(s[..|s| - 1], x);
      assert s == s[..|s| - 1] + [s[|s| - 1]];
    }
  }

  lemma ToTop(wins: seq<Window>, stack: seq<int>, slot: int)
    requires StackOk(wins, stack, -1) && 0 <= slot < |wins| && wins[slot].used
    ensures StackOk(wins, Without(stack, slot) + [slot], slot)
  {
    WithoutMembers(stack, slot);
    WithoutDistinct(stack, slot);
    var t := Without(stack, slot);
    forall k | 0 <= k < |t| ensures IsSlot(t[k], |wins|) && wins[t[k]].used && t[k] != slot {
      assert t[k] in t && t[k] in stack;
    }
  }


  /** A new window, placed in a cascade below the Deskbar. */
  function NewWindow(id: nat, owner: int, w: int, h: int, resizable: bool, back: nat): Window
    requires id > 0
  {
    var step := (id - 1) % 8 * 30;
    var at := Bounds(40 + step, DESKBAR_H + TITLEBAR_H + 16 + step, w, h);
    Window(true, id, owner, Normal, at, at, resizable, back, ShmName(id, 0), w, h, 0, 0, "")
  }

  /** Each new window opens 30 pixels right of and below the one before, every eighth at the starting place,
      below the Deskbar and its own title. */
  lemma Cascade(id: nat, owner: int, w: int, h: int, r: bool, back: nat)
    requires id > 0
    ensures var here, next := NewWindow(id, owner, w, h, r, back).at, NewWindow(id + 1, owner, w, h, r, back).at;
      && (id % 8 != 0 ==> next.x == here.x + 30 && next.y == here.y + 30)
      && (id % 8 == 0 ==> next == NewWindow(1, owner, w, h, r, back).at)
      && NewWindow(1, owner, w, h, r, back).at == Bounds(40, 32 + 22 + 16, w, h)
  {
    Eighth(id);
  }

  lemma Eighth(id: nat)
    requires id > 0
    ensures id % 8 == if id % 8 == 0 then 0 else (id - 1) % 8 + 1
  {
  }

  /** A new window is what was asked for: normal, empty-handed except for its own buffer, of its own size. */
  lemma NewIsPlain(id: nat, owner: int, w: int, h: int, r: bool, back: nat)
    requires id > 0
    ensures var win := NewWindow(id, owner, w, h, r, back);
      && win.used && win.id == id && win.owner == owner && win.state == Normal && win.resizable == r
      && (win.at.w, win.at.h) == (w, h) == (win.bufW, win.bufH) && win.saved == win.at
      && win.back == back && win.version == 0 && Names(win) == {ShmName(id, 0)} && Maps(win) == {back}
  {
  }

  function Min(a: int, b: int): int { if a < b then a else b }

  function Distance(a: int, b: int): int { if a < b then b - a else a - b }

  /** `v` is the number from `lo` to `hi` nearest to `w`. */
  ghost predicate Nearest(v: int, lo: int, hi: int, w: int) {
    lo <= v <= hi && forall u | lo <= u <= hi :: Distance(v, w) <= Distance(u, w)
  }

  /** An old buffer's name is never the current one, and no name is empty. */
  lemma OlderName(w: Window)
    requires WellNamed(w)
    ensures w.pendingBack != 0 ==> w.pendingShm != w.shmName
  {
    if w.pendingBack != 0 {
      var v: nat :| v < w.version && w.pendingShm == ShmName(w.id, v);
      if w.pendingShm == w.shmName { ShmNameInjective(w.id, v, w.id, w.version); }
    }
  }

  lemma SwappedName(w: Window, s: Window)
    requires WellNamed(w) && s.id == w.id && s.version == w.version + 1 && s.shmName == ShmName(s.id, s.version)
    requires s.pendingBack == w.back && s.pendingShm == w.shmName && s.back != 0 && s.back != w.back
    ensures WellNamed(s)
  {
    assert w.version < s.version && s.pendingShm == ShmName(s.id, w.version);
  }

  lemma StackGrows(wins: seq<Window>, stack: seq<int>, focus: int, i: nat, w: Window)
    requires StackOk(wins, stack, focus) && i < |wins| && !wins[i].used && w.used
    ensures StackOk(wins[i := w], stack + [i], i) && |stack| < |wins|
  {
    assert i !in stack by {
      if i in stack {
        assert false;
      }
    }
    Pigeonhole(stack + [i], |wins|);
  }

  /** Losing the focused window passes the focus to the top of what is left. */
  function FocusAfter(kept: seq<int>, focus: int, slot: int): int {
    if focus != slot then focus else if |kept| > 0 then kept[|kept| - 1] else -1
  }

  /** The focus is on the topmost window, or there is no window. */
  ghost predicate OnTop(wins: seq<Window>, stack: seq<int>, focus: int) {
    && (focus == -1 <==> forall i | 0 <= i < |wins| :: !wins[i].used)
    && (focus != -1 ==> 0 <= focus < |wins| && wins[focus].used)
    && forall i | 0 <= i < |wins| && wins[i].used && i != focus :: Below(stack, i, focus)
  }

  lemma TopHasFocus(wins: seq<Window>, stack: seq<int>, focus: int)
    requires StackOk(wins, stack, focus) && focus == if |stack| > 0 then stack[|stack| - 1] else -1
    ensures OnTop(wins, stack, focus)
  {
    if |stack| > 0 {
      assert IsSlot(stack[|stack| - 1], |wins|);
      forall i | 0 <= i < |wins| && wins[i].used && i != focus ensures Below(stack, i, focus) {
        TopIsAbove(stack, i);
      }
    }
  }

  lemma StackShrinks(wins: seq<Window>, stack: seq<int>, focus: int, slot: int, w: Window)
    requires StackOk(wins, stack, focus) && 0 <= slot < |wins| && !w.used
    ensures StackOk(wins[slot := w], Without(stack, slot), FocusAfter(Without(stack, slot), focus, slot))
  {
    WithoutMembers(stack, slot);
    WithoutDistinct(stack, slot);
    var t := Without(stack, slot);
    forall k | 0 <= k < |t| ensures IsSlot(t[k], |wins|) && wins[slot := w][t[k]].used {
      assert t[k] in t && t[k] in stack;
    }
  }

  /** No windows, no objects. */
  lemma NothingLeft(wins: seq<Window>, linked: set<string>, mapped: set<nat>)
    requires Owned(wins, linked, mapped)
    ensures (forall i | 0 <= i < |wins| :: !wins[i].used) ==> linked == {} && mapped == {}
  {
    if forall i | 0 <= i < |wins| :: !wins[i].used {
      forall n ensures n !in linked {
        if n in linked {
          assert false;
        }
      }
      forall h ensures h !in mapped {
        if h in mapped {
          assert false;
        }
      }
    }
  }

  datatype Request =
    | Create(owner: int, w: int, h: int, resizable: bool, k: Kernel)
    | Destroy(slot: int)
    | Raise(slot: int)
    | Minimize(slot: int)
    | Restore(slot: int)
    | Rotate
    | Cycle(backward: bool)
    | Resize(slot: int, w: int, h: int, k: Kernel)
    | Zoom(slot: int, k: Kernel)
    | Presented(pid: int, id: nat)

  lemma StackStays(wins: seq<Window>, stack: seq<int>, focus: int, slot: int, w: Window)
    requires StackOk(wins, stack, focus) && 0 <= slot < |wins| && wins[slot].used && w.used
    ensures StackOk(wins[slot := w], stack, focus)
  {
  }

  lemma OnlyOne(wins: seq<Window>, nextId: nat, slot: int)
    requires IdsOk(wins, nextId) && 0 <= slot < |wins| && wins[slot].used
    ensures forall i | 0 <= i < |wins| && wins[i].used && wins[i].id == wins[slot].id :: i == slot
  {
  }

  lemma IdsShrink(wins: seq<Window>, nextId: nat, slot: int, w: Window)
    requires IdsOk(wins, nextId) && 0 <= slot < |wins| && (w.used ==> wins[slot].used && w.id == wins[slot].id)
    ensures IdsOk(wins[slot := w], nextId)
  {
  }

  /** No window has the next id yet, and using more ids does not disturb those given out. */
  lemma IdIsFresh(wins: seq<Window>, nextId: nat)
    requires IdsOk(wins, nextId)
    ensures nextId > 0 && IdsOk(wins, nextId + 1)
    ensures forall i | 0 <= i < |wins| && wins[i].used :: wins[i].id != nextId
  {
  }

  lemma IdsGrow(wins: seq<Window>, nextId: nat, slot: int, w: Window)
    requires IdsOk(wins, nextId) && 0 <= slot < |wins| && w.id == nextId
    ensures IdsOk(wins[slot := w], nextId + 1)
  {
  }

  predicate Hidden(wins: seq<Window>, slot: int) {
    0 <= slot < |wins| && wins[slot].state.Minimized?
  }

  /** `focus` is the topmost window that is not minimised, if there is one. */
  ghost predicate Topmost(wins: seq<Window>, stack: seq<int>, focus: int) {
    if focus == -1 then forall k | 0 <= k < |stack| :: Hidden(wins, stack[k])
    else exists i | 0 <= i < |stack| ::
           stack[i] == focus && !Hidden(wins, focus) && forall k | i < k < |stack| :: Hidden(wins, stack[k])
  }

  /** Said with the stacking order: without a focus all windows are minimised; otherwise the focused one is not,
      and all others that are not lie below it. */
  lemma TopmostIs(wins: seq<Window>, stack: seq<int>, focus: int)
    requires StackOk(wins, stack, focus) && Topmost(wins, stack, focus)
    ensures focus == -1 <==> forall i | 0 <= i < |wins| && wins[i].used :: wins[i].state == Minimized
    ensures focus != -1 ==> 0 <= focus < |wins| && wins[focus].used && wins[focus].state != Minimized
    ensures forall i | 0 <= i < |wins| && wins[i].used && wins[i].state != Minimized && i != focus ::
              Below(stack, i, focus)
  {
    if focus != -1 {
      var k :| 0 <= k < |stack| && stack[k] == focus && forall j | k < j < |stack| :: Hidden(wins, stack[j]);
      assert IsSlot(stack[k], |wins|);
      assert !Hidden(wins, focus);
      forall i | 0 <= i < |wins| && wins[i].used && wins[i].state != Minimized && i != focus
        ensures Below(stack, i, focus)
      {
        var j :| 0 <= j < |stack| && stack[j] == i;
        assert j < k;
      }
    } else {
      forall i | 0 <= i < |wins| && wins[i].used ensures wins[i].state == Minimized {
        var j :| 0 <= j < |stack| && stack[j] == i;
        assert Hidden(wins, stack[j]);
      }
    }
  }
}
