/** Searching and replacing, as functions of the text. */
module NotepadSearch {

  predicate MatchAt(t: string, needle: string, i: int) {
    0 <= i && i + |needle| <= |t| && t[i..i + |needle|] == needle
  }

  /** A match is where the text comes apart into something, the needle, and something. */
  lemma MatchIff(t: string, needle: string, i: nat)
    ensures MatchAt(t, needle, i) <==> exists a, b :: |a| == i && t == a + needle + b
  {
    if MatchAt(t, needle, i) {
      assert t == t[..i] + needle + t[i + |needle|..];
    }
    if a, b :| |a| == i && t == a + needle + b {
      assert t[i..i + |needle|] == needle;
    }
  }

  /** The leftmost match, or -1. */
  function First(t: string, needle: string): (i: int)
    ensures i >= 0 ==> MatchAt(t, needle, i) && forall j | 0 <= j < i :: !MatchAt(t, needle, j)
    ensures i < 0 ==> i == -1 && forall j :: !MatchAt(t, needle, j)
  {
    if MatchAt(t, needle, 0) then 0
    else if t == "" then -1
    else
      var k := First(t[1..], needle);
      assert forall j | j > 0 :: MatchAt(t, needle, j) <==> MatchAt(t[1..], needle, j - 1) by {
        forall j | j > 0 ensures MatchAt(t, needle, j) <==> MatchAt(t[1..], needle, j - 1) {
          MatchShift(t, needle, 1, j);
        }
      }
      if k < 0 then -1 else k + 1
  }

  /** Leftmost non-overlapping replacement, at most `limit` times; replaced text is not looked at again. */
  function Replaced(t: string, needle: string, by_: string, limit: nat): string
    requires needle != ""
    decreases limit
  {
    var k := First(t, needle);
    if limit == 0 || k < 0 then t
    else t[..k] + by_ + Replaced(t[k + |needle|..], needle, by_, limit - 1)
  }

  /** How many replacements that makes. */
  function Count(t: string, needle: string, limit: nat): (n: nat)
    requires needle != ""
    ensures n <= limit
    decreases limit
  {
    var k := First(t, needle);
    if limit == 0 || k < 0 then 0 else 1 + Count(t[k + |needle|..], needle, limit - 1)
  }

  /** A replacement at least as long as the needle never shortens the text. */
  lemma {:induction false} ReplacedGrows(t: string, needle: string, by_: string, limit: nat)
    requires 0 < |needle| <= |by_|
    ensures |Replaced(t, needle, by_, limit)| >= |t|
    decreases limit
  {
    hide First;
    var k := First(t, needle);
    if limit > 0 && k >= 0 {
      ReplacedGrows(t[k + |needle|..], needle, by_, limit - 1);
    }
  }

  /** With no more matches than the limit, every match is replaced, and a larger limit changes nothing. */
  lemma {:induction false} AllReplaced(t: string, needle: string, by_: string, limit: nat, more: nat)
    requires needle != "" && Count(t, needle, more) <= limit <= more
    ensures Replaced(t, needle, by_, limit) == Replaced(t, needle, by_, more)
    ensures Count(t, needle, more) == Count(t, needle, limit)
    decreases limit
  {
    hide First;
    var k := First(t, needle);
    if limit > 0 && k >= 0 {
      AllReplaced(t[k + |needle|..], needle, by_, limit - 1, more - 1);
    }
  }

  /** Each replacement changes the length by the same amount. */
  lemma {:induction false} ReplacedLength(t: string, needle: string, by_: string, limit: nat)
    requires needle != ""
    ensures |Replaced(t, needle, by_, limit)| == |t| + Count(t, needle, limit) * (|by_| - |needle|)
    decreases limit
  {
    hide First;
    var k := First(t, needle);
    if limit > 0 && k >= 0 {
      var rest := t[k + |needle|..];
      ReplacedLength(rest, needle, by_, limit - 1);
      OneMore(Count(rest, needle, limit - 1), |by_| - |needle|);
    }
  }

  lemma OneMore(n: nat, d: int)
    ensures (1 + n) * d == d + n * d
  {
  }

  /** Replacing a needle by itself changes nothing. */
  lemma {:induction false} ReplacedBySelf(t: string, needle: string, limit: nat)
    requires needle != ""
    ensures Replaced(t, needle, needle, limit) == t
    decreases limit
  {
    hide First;
    var k := First(t, needle);
    if limit > 0 && k >= 0 {
      ReplacedBySelf(t[k + |needle|..], needle, limit - 1);
      assert t == t[..k] + t[k..k + |needle|] + t[k + |needle|..];
    }
  }

  ghost predicate Lacks(t: string, needle: string) { forall i :: !MatchAt(t, needle, i) }

  /** Texts with `sep` between them. */
  function Joined(pieces: seq<string>, sep: string): string
    requires pieces != []
  {
    if |pieces| == 1 then pieces[0] else pieces[0] + sep + Joined(pieces[1..], sep)
  }

  /** Replacing is taking the text apart at its matches and putting it together with the replacement; no part
      contains the needle, the last one only if the limit was reached. */
  lemma {:induction false} ReplacedIsJoined(t: string, needle: string, by_: string, limit: nat)
    returns (pieces: seq<string>)
    requires needle != ""
    ensures |pieces| == Count(t, needle, limit) + 1
    ensures Joined(pieces, needle) == t && Joined(pieces, by_) == Replaced(t, needle, by_, limit)
    ensures forall i | 0 <= i < |pieces| - 1 :: Lacks(pieces[i], needle)
    ensures Count(t, needle, limit) < limit ==> Lacks(pieces[|pieces| - 1], needle)
    decreases limit
  {
    hide First;
    var k := First(t, needle);
    if limit == 0 || k < 0 {
      pieces := [t];
    } else {
      hide Lacks, MatchAt, Joined, Replaced, Count;
      FirstCut(t, needle, by_, limit);
      var rest := ReplacedIsJoined(t[k + |needle|..], needle, by_, limit - 1);
      pieces := [t[..k]] + rest;
      JoinedCons(t[..k], rest, needle);
      JoinedCons(t[..k], rest, by_);
    }
  }

  lemma FirstCut(t: string, needle: string, by_: string, limit: nat)
    requires needle != "" && limit > 0 && First(t, needle) >= 0
    ensures var k, n := First(t, needle), |needle|;
      && k + n <= |t| && t == t[..k] + needle + t[k + n..] && Lacks(t[..k], needle)
      && Replaced(t, needle, by_, limit) == t[..k] + by_ + Replaced(t[k + n..], needle, by_, limit - 1)
      && Count(t, needle, limit) == 1 + Count(t[k + n..], needle, limit - 1)
  {
    BeforeFirst(t, needle);
    hide First;
    var k, n := First(t, needle), |needle|;
    assert t == t[..k] + t[k..k + n] + t[k + n..];
  }

  lemma JoinedCons(x: string, rest: seq<string>, sep: string)
    requires rest != []
    ensures Joined([x] + rest, sep) == x + sep + Joined(rest, sep)
  {
    assert ([x] + rest)[1..] == rest;
  }

  lemma BeforeFirst(t: string, needle: string)
    requires needle != "" && First(t, needle) >= 0
    ensures Lacks(t[..First(t, needle)], needle)
  {
    var k := First(t, needle);
    forall j ensures !MatchAt(t[..k], needle, j) {
      if MatchAt(t[..k], needle, j) {
        assert t[..k][j..j + |needle|] == t[j..j + |needle|];
        assert MatchAt(t, needle, j);
      }
    }
  }

  lemma MatchShift(t: string, needle: string, from: nat, i: int)
    requires from <= |t| && i >= from
    ensures MatchAt(t, needle, i) <==> MatchAt(t[from..], needle, i - from)
  {
    if i + |needle| <= |t| {
      assert t[from..][i - from..i - from + |needle|] == t[i..i + |needle|];
    }
  }

  /** What a search from `from` finds is the leftmost match of the rest. */
  lemma FirstFrom(t: string, needle: string, from: nat, hit: int)
    requires from <= |t|
    requires hit == -1 || (from <= hit && MatchAt(t, needle, hit))
    requires forall i | from <= i && (hit == -1 || i < hit) :: !MatchAt(t, needle, i)
    ensures First(t[from..], needle) == if hit == -1 then -1 else hit - from
  {
    var k := First(t[from..], needle);
    if hit >= 0 { MatchShift(t, needle, from, hit); }
    if k >= 0 { MatchShift(t, needle, from, from + k); }
  }

  // ----- lines and columns -----

  function Line(t: string, off: nat): nat
    requires off <= |t|
  {
    if off == 0 then 0 else Line(t, off - 1) + if t[off - 1] == '\n' then 1 else 0
  }

  function Col(t: string, off: nat): nat
    requires off <= |t|
  {
    if off == 0 || t[off - 1] == '\n' then 0 else Col(t, off - 1) + 1
  }

  ghost function Newlines(t: string, off: nat): set<nat>
    requires off <= |t|
  {
    set i: nat | i < off && t[i] == '\n'
  }

  /** The line number is how many newlines come before. */
  lemma {:induction false} LineCounts(t: string, off: nat)
    requires off <= |t|
    ensures Line(t, off) == |Newlines(t, off)|
  {
    if off > 0 {
      LineCounts(t, off - 1);
      if t[off - 1] == '\n' {
        assert Newlines(t, off) == Newlines(t, off - 1) + {off - 1};
      } else {
        assert Newlines(t, off) == Newlines(t, off - 1);
      }
    } else {
      assert Newlines(t, off) == {};
    }
  }

  lemma {:induction false} LineGrows(t: string, a: nat, b: nat)
    requires a <= b <= |t|
    ensures Line(t, a) <= Line(t, b)
  {
    if a < b { LineGrows(t, a, b - 1); }
  }

  /** A position is its column after the start of its line; nothing before that start is on the line. */
  lemma {:induction false} ColumnIsDistance(t: string, off: nat)
    requires off <= |t|
    ensures Col(t, off) <= off
    ensures var s := off - Col(t, off);
      Line(t, s) == Line(t, off) && Col(t, s) == 0 && (s > 0 ==> t[s - 1] == '\n' && Line(t, s - 1) < Line(t, off))
  {
    if off > 0 && t[off - 1] != '\n' {
      ColumnIsDistance(t, off - 1);
    }
  }
}
