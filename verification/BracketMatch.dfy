/** Finding the partner of a bracket, ignoring brackets inside strings and comments. */
module BracketMatch {

  datatype Tok = Text | Keyword | String | Comment | Number

  function MatchingClose(c: char): char {
    match c
    case '{' => '}'
    case '[' => ']'
    case '(' => ')'
    case _ => '\0'
  }

  function MatchingOpen(c: char): char {
    match c
    case '}' => '{'
    case ']' => '['
    case ')' => '('
    case _ => '\0'
  }

  /** A buffer and its colouring. */
  datatype Source = Source(buf: string, color: seq<Tok>)

  predicate Coloured(s: Source) { |s.buf| == |s.color| }

  predicate InStringOrComment(s: Source, i: int)
    requires Coloured(s)
  {
    0 <= i < |s.buf| && (s.color[i].String? || s.color[i].Comment?)
  }

  /** +1 for an opening bracket of the kind, -1 for its closing one, if they count. */
  function Weight(s: Source, open: char, i: int): int
    requires Coloured(s) && 0 <= i < |s.buf|
  {
    if InStringOrComment(s, i) then 0
    else if s.buf[i] == open then 1
    else if s.buf[i] == MatchingClose(open) then -1
    else 0
  }

  function Sum(s: Source, open: char, lo: int, hi: int): int
    requires Coloured(s) && 0 <= lo <= hi <= |s.buf|
    decreases hi - lo
  {
    if lo == hi then 0 else Sum(s, open, lo, hi - 1) + Weight(s, open, hi - 1)
  }

  /** The stretch [lo, hi) is balanced: it closes what it opens and nothing else. */
  ghost predicate Balanced(s: Source, open: char, lo: int, hi: int)
    requires Coloured(s) && 0 <= lo <= hi <= |s.buf|
  {
    Sum(s, open, lo, hi) == 0 && forall k | lo <= k <= hi :: Sum(s, open, lo, k) >= 0
  }

  predicate IsOpen(open: char) { MatchingClose(open) != '\0' }

  /** `m` closes the bracket at `start`. */
  ghost predicate Closes(s: Source, open: char, start: int, m: int)
    requires Coloured(s)
  {
    0 <= start < m < |s.buf| && Weight(s, open, m) == -1 && Balanced(s, open, start + 1, m)
  }

  /** `m` opens the bracket at `start`. */
  ghost predicate Opens(s: Source, open: char, start: int, m: int)
    requires Coloured(s)
  {
    0 <= m < start < |s.buf| && Weight(s, open, m) == 1 && Balanced(s, open, m + 1, start)
  }

  lemma {:induction false} SumSplit(s: Source, open: char, lo: int, mid: int, hi: int)
    requires Coloured(s) && 0 <= lo <= mid <= hi <= |s.buf|
    ensures Sum(s, open, lo, hi) == Sum(s, open, lo, mid) + Sum(s, open, mid, hi)
    decreases hi - mid
  {
    if mid < hi { SumSplit(s, open, lo, mid, hi - 1); }
  }

  /** Seen from its end, a stretch with as many openings as closings is balanced when no suffix has more
      openings than closings. */
  lemma BalancedFromEnd(s: Source, open: char, lo: int, hi: int)
    requires Coloured(s) && 0 <= lo <= hi <= |s.buf| && Sum(s, open, lo, hi) == 0
    requires forall k | lo <= k <= hi :: Sum(s, open, k, hi) <= 0
    ensures Balanced(s, open, lo, hi)
  {
    forall k | lo <= k <= hi ensures Sum(s, open, lo, k) >= 0 {
      SumSplit(s, open, lo, k, hi);
      assert Sum(s, open, k, hi) <= 0;
    }
  }

  lemma ClosedAfter(s: Source, open: char, start: int, m: int)
    requires Coloured(s) && Closes(s, open, start, m)
    ensures Sum(s, open, start + 1, m + 1) == -1
  {
  }

  lemma OpenedBefore(s: Source, open: char, start: int, m: int)
    requires Coloured(s) && Opens(s, open, start, m)
    ensures Sum(s, open, m, start) == 1
  {
    SumSplit(s, open, m, m + 1, start);
    assert Sum(s, open, m, m + 1) == Sum(s, open, m, m) + Weight(s, open, m);
  }

  /** At most one bracket closes a given one, and at most one opens it. */
  lemma ClosesUnique(s: Source, open: char, start: int, m: int, n: int)
    requires Coloured(s) && Closes(s, open, start, m) && Closes(s, open, start, n)
    ensures m == n
  {
    ClosedAfter(s, open, start, m);
    ClosedAfter(s, open, start, n);
  }

  lemma OpensUnique(s: Source, open: char, start: int, m: int, n: int)
    requires Coloured(s) && Opens(s, open, start, m) && Opens(s, open, start, n)
    ensures m == n
  {
    OpenedBefore(s, open, start, m);
    OpenedBefore(s, open, start, n);
    if m < n {
      SumSplit(s, open, m + 1, n, start);
      assert false;
    } else if n < m {
      SumSplit(s, open, n + 1, m, start);
      assert false;
    }
  }

  /** Partners point at each other, as long as the first one is a bracket that counts. */
  lemma PartnersAgree(s: Source, open: char, start: int, m: int)
    requires Coloured(s) && IsOpen(open) && 0 <= start < |s.buf|
    ensures Closes(s, open, start, m) && Weight(s, open, start) == 1 ==> Opens(s, open, m, start)
    ensures Opens(s, open, start, m) && Weight(s, open, start) == -1 ==> Closes(s, open, m, start)
  {
  }

  /** Scan forward for the closing bracket (dir 1) or back for the opening one (dir -1); -1 if there
      is none. */
  method FindMatching(s: Source, start: int, dir: int) returns (m: int)
    requires Coloured(s) && 0 <= start < |s.buf| && (dir == 1 || dir == -1)
    ensures m == -1 || 0 <= m < |s.buf|
    ensures dir == 1 && IsOpen(s.buf[start]) && m != -1 ==> Closes(s, s.buf[start], start, m)
    ensures dir == 1 && IsOpen(s.buf[start]) && m == -1 ==> forall k :: !Closes(s, s.buf[start], start, k)
    ensures dir == -1 && MatchingOpen(s.buf[start]) != '\0' ==>
      var open := MatchingOpen(s.buf[start]);
      if m != -1 then Opens(s, open, start, m) else forall k :: !Opens(s, open, start, k)
    ensures (if dir == 1 then MatchingClose(s.buf[start]) else MatchingOpen(s.buf[start])) == '\0' ==> m == -1
  {
    var openC := s.buf[start];
    var closeC := if dir > 0 then MatchingClose(openC) else MatchingOpen(openC);
    if closeC == '\0' { return -1; }
    ghost var kind := if dir > 0 then openC else closeC;
    ghost var base := start + 1;
    var depth := 1;
    var i := start + dir;
    if dir < 0 { assert Sum(s, kind, start, start) == 0; }
    while 0 <= i < |s.buf|
      invariant dir > 0 ==> start < i <= |s.buf| && depth == 1 + Sum(s, kind, base, i)
      invariant dir > 0 ==> forall k | base <= k <= i :: Sum(s, kind, base, k) >= 0
      invariant dir < 0 ==> -1 <= i < start && depth == 1 - Sum(s, kind, i + 1, start)
      invariant dir < 0 ==> forall k | i + 1 <= k <= start :: Sum(s, kind, k, start) <= 0
      decreases if dir > 0 then |s.buf| - i else i + 1
    {
      if dir > 0 {
        assert Sum(s, kind, base, i + 1) == Sum(s, kind, base, i) + Weight(s, kind, i);
      } else {
        SumSplit(s, kind, i, i + 1, start);
        assert Sum(s, kind, i, i + 1) == Sum(s, kind, i, i) + Weight(s, kind, i);
      }
      if !InStringOrComment(s, i) {
        if s.buf[i] == openC {
          depth := depth + 1;
        } else if s.buf[i] == closeC {
          depth := depth - 1;
          if depth == 0 {
            if dir < 0 { BalancedFromEnd(s, kind, i + 1, start); }
            return i;
          }
        }
      }
      i := i + dir;
    }
    if dir > 0 {
      forall k ensures !Closes(s, kind, start, k) {
        if Closes(s, kind, start, k) {
          ClosedAfter(s, kind, start, k);
          assert false;
        }
      }
    } else {
      forall k ensures !Opens(s, kind, start, k) {
        if Opens(s, kind, start, k) {
          OpenedBefore(s, kind, start, k);
          assert false;
        }
      }
    }
    m := -1;
  }

  predicate IsClose(c: char) { MatchingOpen(c) != '\0' }

  /** `m` is the partner of the bracket at `p`. */
  ghost predicate Partner(s: Source, p: int, m: int)
    requires Coloured(s) && 0 <= p < |s.buf|
  {
    if IsOpen(s.buf[p]) then Closes(s, s.buf[p], p, m)
    else IsClose(s.buf[p]) && Opens(s, MatchingOpen(s.buf[p]), p, m)
  }

  ghost predicate Alone(s: Source, p: int)
    requires Coloured(s) && 0 <= p < |s.buf|
  {
    forall k :: !Partner(s, p, k)
  }

  /** The three kinds of brackets. */
  lemma PartnersMatch(s: Source, p: int, m: int)
    requires Coloured(s) && 0 <= p < |s.buf| && Partner(s, p, m)
    ensures 0 <= m < |s.buf|
    ensures (if p < m then [s.buf[p], s.buf[m]] else [s.buf[m], s.buf[p]]) in {"{}", "[]", "()"}
    ensures p < m <==> s.buf[p] in "{[("
  {
    PartnersMutual(s, p, m);
  }

  /** Partners that count are brackets of one kind, and being a partner goes both ways. */
  lemma PartnersMutual(s: Source, p: int, m: int)
    requires Coloured(s) && 0 <= p < |s.buf| && Partner(s, p, m)
    ensures 0 <= m < |s.buf| && !InStringOrComment(s, m)
    ensures IsOpen(s.buf[p]) ==> MatchingOpen(s.buf[m]) == s.buf[p] && !IsOpen(s.buf[m])
    ensures !IsOpen(s.buf[p]) ==> IsOpen(s.buf[m]) && s.buf[m] == MatchingOpen(s.buf[p])
    ensures Partner(s, m, p) <==> !InStringOrComment(s, p)
  {
    var open := if IsOpen(s.buf[p]) then s.buf[p] else MatchingOpen(s.buf[p]);
    PartnersAgree(s, open, p, m);
  }

  lemma PartnerUnique(s: Source, p: int, m: int, n: int)
    requires Coloured(s) && 0 <= p < |s.buf| && Partner(s, p, m) && Partner(s, p, n)
    ensures m == n
  {
    if IsOpen(s.buf[p]) {
      ClosesUnique(s, s.buf[p], p, m, n);
    } else {
      OpensUnique(s, MatchingOpen(s.buf[p]), p, m, n);
    }
  }

  /** The search in the direction the bracket at `p` asks for. */
  method FindPartner(s: Source, p: int) returns (m: int)
    requires Coloured(s) && 0 <= p < |s.buf|
    ensures m != -1 ==> Partner(s, p, m)
    ensures m == -1 ==> Alone(s, p)
  {
    if IsOpen(s.buf[p]) {
      m := FindMatching(s, p, 1);
    } else if IsClose(s.buf[p]) {
      m := FindMatching(s, p, -1);
    } else {
      m := -1;
    }
  }

  /** From a bracket, opening or closing, to its partner and back: the same bracket exactly when it is
      one that counts. */
  method ThereAndBack(s: Source, start: int) returns (m: int, again: int)
    requires Coloured(s) && 0 <= start < |s.buf|
    ensures m == -1 ==> again == -1 && Alone(s, start)
    ensures m != -1 ==> Partner(s, start, m) && (again == start <==> !InStringOrComment(s, start))
  {
    m := FindPartner(s, start);
    again := -1;
    if m != -1 {
      PartnersMutual(s, start, m);
      hide Partner;
      again := FindPartner(s, m);
      if !InStringOrComment(s, start) { PartnerUnique(s, m, start, again); }
    }
  }

  /** A position whose bracket is looked up: on the text, and outside strings and comments. */
  predicate Candidate(s: Source, p: int)
    requires Coloured(s)
  {
    0 <= p < |s.buf| && !InStringOrComment(s, p)
  }

  /** The pair to highlight: the bracket left of the cursor if it has a partner, else the one at the
      cursor. Each end of the pair is the other's partner. */
  method UpdateBracketMatch(s: Source, cur: int) returns (a: int, b: int)
    requires Coloured(s)
    ensures a != -1 ==>
      && (a == cur - 1 || a == cur) && Candidate(s, a) && 0 <= b < |s.buf| && Partner(s, a, b) && Partner(s, b, a)
    ensures a == -1 ==> b == -1
    ensures Candidate(s, cur - 1) && a != cur - 1 ==> Alone(s, cur - 1)
    ensures Candidate(s, cur) && a == -1 ==> Alone(s, cur)
  {
    a, b := -1, -1;
    var p := cur - 1;
    if Candidate(s, p) {
      var m := FindPartner(s, p);
      if m >= 0 {
        PartnersMutual(s, p, m);
        return p, m;
      }
    }
    p := cur;
    if Candidate(s, p) {
      var m := FindPartner(s, p);
      if m >= 0 {
        PartnersMutual(s, p, m);
        return p, m;
      }
    }
  }
}
