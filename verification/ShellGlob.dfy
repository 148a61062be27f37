/** The glob matcher: `*` stands for any run of characters, everything else for itself. */
module ShellGlob {

  function DropStars(p: string): (q: string)
    ensures |q| <= |p| && (q == "" || q[0] != '*')
    ensures p != "" && p[0] == '*' ==> |q| < |p|
  {
    if p != "" && p[0] == '*' then DropStars(p[1..]) else p
  }

  /** The matcher as written: walk literals, collapse stars, then try the rest at every suffix. */
  predicate GlobMatch(p: string, name: string)
    decreases |p|, |name|, 1
  {
    if p == "" then name == ""
    else if p[0] == '*' then
      var q := DropStars(p);
      q == "" || TrySuffixes(q, name, |p|)
    else name != "" && p[0] == name[0] && GlobMatch(p[1..], name[1..])
  }

  predicate TrySuffixes(q: string, name: string, ghost bound: nat)
    requires |q| < bound
    decreases bound, |name|, 0
  {
    GlobMatch(q, name) || (name != "" && TrySuffixes(q, name[1..], bound))
  }

  // ----- what matching means -----

  function Stars(p: string): nat {
    if p == "" then 0 else (if p[0] == '*' then 1 else 0) + Stars(p[1..])
  }

  /** The pattern with its stars filled in, left to right. */
  function Fill(p: string, pieces: seq<string>): string
    requires |pieces| == Stars(p)
  {
    if p == "" then ""
    else if p[0] == '*' then pieces[0] + Fill(p[1..], pieces[1..])
    else [p[0]] + Fill(p[1..], pieces)
  }

  /** Some choice of text for each star turns the pattern into the name. */
  ghost predicate Matches(p: string, name: string) {
    exists pieces: seq<string> :: |pieces| == Stars(p) && Fill(p, pieces) == name
  }

  lemma MatchesLiteral(p: string, name: string)
    requires p != "" && p[0] != '*'
    ensures Matches(p, name) <==> name != "" && name[0] == p[0] && Matches(p[1..], name[1..])
  {
    if Matches(p, name) {
      var pieces: seq<string> :| |pieces| == Stars(p) && Fill(p, pieces) == name;
      assert Fill(p[1..], pieces) == name[1..];
    }
    if name != "" && name[0] == p[0] && Matches(p[1..], name[1..]) {
      var pieces: seq<string> :| |pieces| == Stars(p[1..]) && Fill(p[1..], pieces) == name[1..];
      assert Fill(p, pieces) == name;
    }
  }

  /** The pattern matches some suffix of the name. */
  ghost predicate SuffixMatches(p: string, name: string) {
    exists k: nat :: k <= |name| && Matches(p, name[k..])
  }

  lemma SuffixOfSuffix(p: string, name: string, k: nat)
    requires k <= |name| && SuffixMatches(p, name[k..])
    ensures SuffixMatches(p, name)
  {
    var j: nat :| j <= |name[k..]| && Matches(p, name[k..][j..]);
    assert name[k..][j..] == name[k + j..];
  }

  lemma MatchesStar(p: string, name: string)
    requires p != "" && p[0] == '*'
    ensures Matches(p, name) <==> SuffixMatches(p[1..], name)
  {
    if Matches(p, name) {
      var pieces: seq<string> :| |pieces| == Stars(p) && Fill(p, pieces) == name;
      var k := |pieces[0]|;
      assert Fill(p[1..], pieces[1..]) == name[k..];
      assert Matches(p[1..], name[k..]);
    }
    if k: nat :| k <= |name| && Matches(p[1..], name[k..]) {
      var rest: seq<string> :| |rest| == Stars(p[1..]) && Fill(p[1..], rest) == name[k..];
      var pieces := [name[..k]] + rest;
      assert pieces[1..] == rest && name == name[..k] + name[k..];
      assert Fill(p, pieces) == name;
    }
  }

  /** Any further stars in a run change nothing. */
  lemma {:induction false} StarsCollapse(p: string, name: string)
    requires p != "" && p[0] == '*'
    ensures Matches(p, name) <==> Matches("*" + DropStars(p), name)
    decreases |p|
  {
    var d := DropStars(p);
    var q, r := "*" + d, p[1..];
    assert q[1..] == d;
    MatchesStar(p, name);
    MatchesStar(q, name);
    if r != "" && r[0] == '*' {
      if SuffixMatches(r, name) {
        var k: nat :| k <= |name| && Matches(r, name[k..]);
        StarsCollapse(r, name[k..]);
        MatchesStar(q, name[k..]);
        SuffixOfSuffix(d, name, k);
      }
      if SuffixMatches(d, name) {
        StarsCollapse(r, name);
        assert name[0..] == name && Matches(r, name[0..]);
      }
    }
  }

  lemma {:induction false} TryMeans(q: string, name: string, bound: nat)
    requires |q| < bound
    requires forall n: string | |n| <= |name| :: GlobMatch(q, n) <==> Matches(q, n)
    ensures TrySuffixes(q, name, bound) <==> SuffixMatches(q, name)
    decreases |name|
  {
    assert name[0..] == name;
    if name != "" {
      TryMeans(q, name[1..], bound);
      assert forall k: nat | k <= |name| - 1 :: name[1..][k..] == name[k + 1..];
      if k: nat :| k <= |name| && Matches(q, name[k..]) {
        if k > 0 { assert Matches(q, name[1..][k - 1..]); }
      }
    }
  }

  /** The matcher accepts exactly the names the pattern stands for. */
  lemma {:induction false} GlobMatchIff(p: string, name: string)
    ensures GlobMatch(p, name) <==> Matches(p, name)
    decreases |p|
  {
    if p == "" {
      assert name == "" ==> Fill(p, []) == name;
    } else if p[0] != '*' {
      MatchesLiteral(p, name);
      if name != "" { GlobMatchIff(p[1..], name[1..]); }
    } else {
      var q := DropStars(p);
      StarsCollapse(p, name);
      MatchesStar("*" + q, name);
      assert ("*" + q)[1..] == q;
      if q == "" {
        assert name[|name|..] == "" && Fill(q, []) == "";
        assert Matches(q, name[|name|..]);
      } else {
        forall n: string ensures GlobMatch(q, n) <==> Matches(q, n) { GlobMatchIff(q, n); }
        TryMeans(q, name, |p|);
      }
    }
  }
}
