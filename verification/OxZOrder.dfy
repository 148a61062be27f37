/** Stacking order as a sequence of slots, bottom to top. */
module OxZOrder {

  ghost predicate Distinct(s: seq<int>) {
    forall i, j | 0 <= i < j < |s| :: s[i] != s[j]
  }

  function Without(s: seq<int>, x: int): (r: seq<int>) {
    if s == [] then []
    else
      var r := Without(s[..|s| - 1], x);
      if s[|s| - 1] == x then r else r + [s[|s| - 1]]
  }

  /** `a` lies somewhere below `b`. */
  ghost predicate Below(s: seq<int>, a: int, b: int) {
    exists i, j | 0 <= i < j < |s| :: s[i] == a && s[j] == b
  }

  lemma {:induction false} WithoutMembers(s: seq<int>, x: int)
    ensures forall y :: y in Without(s, x) <==> y in s && y != x
    ensures |Without(s, x)| <= |s|
  {
    if s != [] {
      WithoutMembers(s[..|s| - 1], x);
      assert forall y :: y in s <==> y in s[..|s| - 1] || y == s[|s| - 1];
    }
  }

  lemma {:induction false} WithoutDistinct(s: seq<int>, x: int)
    requires Distinct(s)
    ensures Distinct(Without(s, x))
  {
    if s != [] {
      var f := s[..|s| - 1];
      WithoutDistinct(f, x);
      WithoutMembers(f, x);
      var r := Without(f, x);
      forall i | 0 <= i < |r| ensures r[i] != s[|s| - 1] {
        var y := r[i];
        assert y in Without(f, x);
        assert y in f;
      }
    }
  }

  lemma BelowSnoc(s: seq<int>, z: int, a: int, b: int)
    ensures Below(s + [z], a, b) <==> Below(s, a, b) || (a in s && b == z)
  {
    var t := s + [z];
    if Below(s, a, b) {
      var i, j :| 0 <= i < j < |s| && s[i] == a && s[j] == b;
      assert t[i] == a && t[j] == b;
    }
    if a in s && b == z {
      var i :| 0 <= i < |s| && s[i] == a;
      assert t[i] == a && t[|s|] == b;
    }
    if Below(t, a, b) {
      var i, j :| 0 <= i < j < |t| && t[i] == a && t[j] == b;
      assert s[i] == a;
      if j < |s| { assert s[j] == b; }
    }
  }

  /** Taking a slot out keeps the order of all others. */
  lemma {:induction false} WithoutOrder(s: seq<int>, x: int, a: int, b: int)
    requires a != x && b != x
    ensures Below(Without(s, x), a, b) <==> Below(s, a, b)
  {
    if s != [] {
      var f, z := s[..|s| - 1], s[|s| - 1];
      WithoutOrder(f, x, a, b);
      WithoutMembers(f, x);
      assert s == f + [z];
      BelowSnoc(f, z, a, b);
      BelowSnoc(Without(f, x), z, a, b);
    }
  }

  /** Raising a slot puts it above all others and keeps their order. */
  lemma RaisedOrder(s: seq<int>, x: int, a: int, b: int)
    requires a != x && a in s
    ensures b != x ==> (Below(Without(s, x) + [x], a, b) <==> Below(s, a, b))
    ensures Below(Without(s, x) + [x], a, x)
  {
    WithoutMembers(s, x);
    BelowSnoc(Without(s, x), x, a, b);
    BelowSnoc(Without(s, x), x, a, x);
    if b != x { WithoutOrder(s, x, a, b); }
  }

  /** In a stack without duplicates everything else lies below the top. */
  lemma TopIsAbove(s: seq<int>, a: int)
    requires s != [] && a in s && a != s[|s| - 1]
    ensures Below(s, a, s[|s| - 1])
  {
    var f, z := s[..|s| - 1], s[|s| - 1];
    assert s == f + [z];
    BelowSnoc(f, z, a, z);
  }

  lemma BelowCons(z: int, s: seq<int>, a: int, b: int)
    ensures Below([z] + s, a, b) <==> Below(s, a, b) || (a == z && b in s)
  {
    var t := [z] + s;
    if Below(s, a, b) {
      var i, j :| 0 <= i < j < |s| && s[i] == a && s[j] == b;
      assert t[i + 1] == a && t[j + 1] == b;
    }
    if a == z && b in s {
      var j :| 0 <= j < |s| && s[j] == b;
      assert t[0] == a && t[j + 1] == b;
    }
    if Below(t, a, b) {
      var i, j :| 0 <= i < j < |t| && t[i] == a && t[j] == b;
      assert s[j - 1] == b;
      if i > 0 { assert s[i - 1] == a; }
    }
  }

  predicate IsSlot(x: int, n: nat) { 0 <= x < n }

  /** A duplicate-free stack of slots below `n` that misses one has room for it. */
  lemma {:induction false} Pigeonhole(s: seq<int>, n: nat)
    requires Distinct(s) && forall i | 0 <= i < |s| :: IsSlot(s[i], n)
    ensures |s| <= n
    decreases n
  {
    if s != [] {
      assert IsSlot(s[0], n);
      WithoutDistinct(s, n - 1);
      var r := Without(s, n - 1);
      WithoutTop(s, n, r);
      Pigeonhole(r, n - 1);
      WithoutLength(s, n - 1);
    }
  }

  lemma WithoutTop(s: seq<int>, n: nat, r: seq<int>)
    requires n > 0 && r == Without(s, n - 1) && forall i | 0 <= i < |s| :: IsSlot(s[i], n)
    ensures forall i | 0 <= i < |r| :: IsSlot(r[i], n - 1)
  {
    WithoutMembers(s, n - 1);
    forall i | 0 <= i < |r| ensures IsSlot(r[i], n - 1) {
      var y := r[i];
      assert y in Without(s, n - 1);
      assert y in s;
    }
  }

  lemma {:induction false} WithoutLength(s: seq<int>, x: int)
    requires Distinct(s)
    ensures |Without(s, x)| == if x in s then |s| - 1 else |s|
  {
    if s != [] {
      var f := s[..|s| - 1];
      WithoutLength(f, x);
      assert x in s <==> x in f || x == s[|s| - 1];
      assert x in f ==> x != s[|s| - 1];
    }
  }
}
