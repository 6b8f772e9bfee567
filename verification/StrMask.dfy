/** The glob matcher: `*` stands for any run of characters, every other
    character for itself. The code commits to the leftmost place each literal
    piece fits. Strings here are C strings and hold no NUL. */
module StrMask {

  /** The meaning of a pattern. */
  ghost predicate Matches(p: string, s: string)
    decreases |p|
  {
    if p == "" then s == ""
    else if p[0] == '*' then exists k :: 0 <= k <= |s| && Matches(p[1..], s[k..])
    else s != "" && s[0] == p[0] && Matches(p[1..], s[1..])
  }

  // -------------------------------------------------------------- the pieces

  /** Index of the first `*`, the length when there is none. */
  function Star(r: string): (i: nat)
    ensures i <= |r|
    ensures i < |r| ==> r[i] == '*'
    ensures forall j :: 0 <= j < i ==> r[j] != '*'
  {
    if r == "" || r[0] == '*' then 0 else 1 + Star(r[1..])
  }

  function SkipStars(r: string): (t: string)
    ensures |t| <= |r| && (t == "" || t[0] != '*')
    ensures r != "" && r[0] == '*' ==> |t| < |r|
  {
    if r != "" && r[0] == '*' then SkipStars(r[1..]) else r
  }

  /** First place in s, short of its end, where the piece fits; else the length. */
  function Place(piece: string, s: string): (k: nat)
    ensures k <= |s|
    ensures k < |s| ==> piece <= s[k..]
    ensures forall j :: 0 <= j < k ==> !(piece <= s[j..])
  {
    if s == "" || piece <= s then 0 else
      var k := 1 + Place(piece, s[1..]);
      assert forall j :: 1 <= j < |s| ==> s[j..] == s[1..][j - 1..];
      k
  }

  /** A pattern with a star: literal head, run of stars, and the tail after them. */
  function Tail(r: string): (t: string)
    requires Star(r) < |r|
    ensures |t| < |r| && (t == "" || t[0] != '*')
  {
    SkipStars(r[Star(r)..])
  }

  /** What the matcher computes, as one recursion per literal piece. */
  predicate Greedy(r: string, s: string)
    decreases |r|, 1
  {
    if Star(r) == |r| then r == s
    else r[..Star(r)] <= s && Search(Tail(r), s[Star(r)..])
  }

  /** After a run of stars: find the next piece and go on behind it. */
  predicate Search(t: string, s: string)
    requires t == "" || t[0] != '*'
    decreases |t|, 0
  {
    t == ""
    || (var n := Star(t);
        var k := Place(t[..n], s);
        k < |s| && Greedy(t[n..], s[k..][n..]))
  }

  lemma GreedyRound(r: string, s: string)
    ensures Star(r) == |r| ==> (Greedy(r, s) <==> r == s)
    ensures Star(r) < |r| ==> (Greedy(r, s) <==> r[..Star(r)] <= s && Search(SkipStars(r[Star(r)..]), s[Star(r)..]))
  {
  }

  lemma SearchRound(t: string, s: string)
    requires t == "" || t[0] != '*'
    ensures t == "" ==> Search(t, s)
    ensures t != "" ==> var n := Star(t);
                        var k := Place(t[..n], s);
                        Search(t, s) <==> k < |s| && Greedy(t[n..], s[k..][n..])
  {
  }

  lemma LoneStar(s: string)
    ensures Greedy("*", s)
  {
  }

  /** strMask, with its two moving pointers. */
  method StrMask(str: string, reg: string) returns (ok: bool)
    ensures ok == Greedy(reg, str)
  {
    hide Star, Place, SkipStars, Greedy, Search;
    var s, r := str, reg;
    while true
      invariant Greedy(reg, str) == Greedy(r, s)
      decreases |r|
    {
      if r == "*" {
        LoneStar(s);
        return true;
      }
      GreedyRound(r, s);
      var l := FindStar(r);
      if l == |r| { return r == s; }
      if l > 0 {
        if !(r[..l] <= s) { return false; }
        r := r[l..];
        s := s[l..];
      }
      r := StripStars(r);
      SearchRound(r, s);
      if r == "" { return true; }
      l := FindStar(r);
      var k := FindPlace(r[..l], s);
      s := s[k..];
      if s == "" { return false; }
      r := r[l..];
      s := s[l..];
    }
  }

  /** The loop that steps over a run of stars. */
  method StripStars(r0: string) returns (r: string)
    ensures r == SkipStars(r0)
  {
    r := r0;
    while r != "" && r[0] == '*'
      invariant SkipStars(r) == SkipStars(r0)
      decreases |r|
    {
      r := r[1..];
    }
  }

  /** The loop that looks for a piece. */
  method FindPlace(piece: string, s0: string) returns (k: nat)
    ensures k == Place(piece, s0)
  {
    k := 0;
    var s := s0;
    while s != "" && !(piece <= s)
      invariant k <= |s0| && s == s0[k..]
      invariant Place(piece, s0) == k + Place(piece, s)
      decreases |s|
    {
      s := s[1..];
      k := k + 1;
    }
  }

  method FindStar(r: string) returns (i: nat)
    ensures i == Star(r)
  {
    i := 0;
    while i < |r| && r[i] != '*'
      invariant i <= |r| && Star(r) == i + Star(r[i..])
    {
      i := i + 1;
    }
  }

  // ------------------------------------------------------------- what it means

  lemma {:induction false} MatchPiece(piece: string, q: string, s: string)
    requires Star(piece) == |piece|
    ensures Matches(piece + q, s) <==> piece <= s && Matches(q, s[|piece|..])
    decreases |piece|
  {
    if piece == "" {
      assert piece + q == q && s[0..] == s;
    } else {
      assert (piece + q)[1..] == piece[1..] + q;
      if s != "" && s[0] == piece[0] {
        MatchPiece(piece[1..], q, s[1..]);
        assert piece <= s <==> piece[1..] <= s[1..];
        if piece <= s { assert s[1..][|piece| - 1..] == s[|piece|..]; }
      }
    }
  }

  /** Some suffix of s matches. */
  ghost predicate MatchesSomewhere(t: string, s: string) {
    exists k :: 0 <= k <= |s| && Matches(t, s[k..])
  }

  /** A run of stars is one star. */
  lemma {:induction false} MatchStars(r: string, s: string)
    requires r != "" && r[0] == '*'
    ensures Matches(r, s) <==> MatchesSomewhere(SkipStars(r), s)
    decreases |r|
  {
    var t := r[1..];
    if t != "" && t[0] == '*' {
      forall k | 0 <= k <= |s|
        ensures Matches(t, s[k..]) <==> exists j :: k <= j <= |s| && Matches(SkipStars(t), s[j..])
      {
        MatchStars(t, s[k..]);
        forall j | 0 <= j <= |s[k..]| ensures s[k..][j..] == s[k + j..] {}
        if j :| k <= j <= |s| && Matches(SkipStars(t), s[j..]) {
          assert s[k..][j - k..] == s[j..];
        }
      }
    }
  }

  /** A star in front can always absorb more. */
  lemma StarAbsorbs(q: string, t: string, m: nat)
    requires q != "" && q[0] == '*' && m <= |t|
    requires Matches(q, t[m..])
    ensures Matches(q, t)
  {
    var k :| 0 <= k <= |t[m..]| && Matches(q[1..], t[m..][k..]);
    assert t[m..][k..] == t[m + k..];
  }

  lemma StarOfPrefix(r: string, l: nat)
    requires l <= Star(r)
    ensures Star(r[..l]) == l
  {
  }

  /** A pattern matches piece first. */
  lemma SplitPiece(r: string, s: string)
    ensures var l := Star(r); Matches(r, s) <==> r[..l] <= s && Matches(r[l..], s[l..])
  {
    var l := Star(r);
    assert r == r[..l] + r[l..];
    StarOfPrefix(r, l);
    MatchPiece(r[..l], r[l..], s);
  }

  /** One round of the matcher, read off the meaning. */
  lemma MatchRound(r: string, s: string)
    requires Star(r) < |r|
    ensures Matches(r, s) <==> r[..Star(r)] <= s && MatchesSomewhere(Tail(r), s[Star(r)..])
  {
    SplitPiece(r, s);
    if r[..Star(r)] <= s { MatchStars(r[Star(r)..], s[Star(r)..]); }
  }

  lemma LiteralMatches(r: string, s: string)
    requires Star(r) == |r|
    ensures Matches(r, s) <==> r == s
  {
    SplitPiece(r, s);
    if r <= s { assert s == r + s[|r|..]; }
  }

  lemma EmptyMatchesSomewhere(s: string)
    ensures MatchesSomewhere("", s)
  {
    assert Matches("", s[|s|..]);
  }

  /** Sound for every string and pattern. */
  lemma {:induction false} GreedySound(r: string, s: string)
    requires Greedy(r, s)
    ensures Matches(r, s)
    decreases |r|, 1
  {
    hide Matches;
    if Star(r) == |r| {
      LiteralMatches(r, s);
    } else {
      SearchSound(Tail(r), s[Star(r)..]);
      MatchRound(r, s);
    }
  }

  lemma {:induction false} SearchSound(t: string, s: string)
    requires t == "" || t[0] != '*'
    requires Search(t, s)
    ensures MatchesSomewhere(t, s)
    decreases |t|, 0
  {
    hide Matches;
    if t == "" {
      EmptyMatchesSomewhere(s);
    } else {
      var n := Star(t);
      var k := Place(t[..n], s);
      GreedySound(t[n..], s[k..][n..]);
      SplitPiece(t, s[k..]);
    }
  }

  predicate EndsWithStar(r: string) { r != "" && r[|r| - 1] == '*' }

  lemma {:induction false} SkipStarsIsSuffix(r: string)
    ensures |SkipStars(r)| <= |r| && SkipStars(r) == r[|r| - |SkipStars(r)|..]
    ensures r != "" && SkipStars(r) == "" ==> EndsWithStar(r)
  {
    if r != "" && r[0] == '*' { SkipStarsIsSuffix(r[1..]); }
  }

  /** The tail ends as the pattern ends, */
  lemma TailEndsAlike(r: string)
    requires Star(r) < |r|
    ensures Tail(r) == "" ==> EndsWithStar(r)
    ensures Tail(r) != "" ==> (EndsWithStar(r) <==> EndsWithStar(Tail(r)))
  {
    hide Star;
    SkipStarsIsSuffix(r[Star(r)..]);
    var t := Tail(r);
    if t != "" { assert t[|t| - 1] == r[|r| - 1]; }
  }

  /** and so does what is left after its first piece. */
  lemma RestEndsAlike(t: string)
    ensures EndsWithStar(t) ==> Star(t) < |t| && EndsWithStar(t[Star(t)..])
    ensures !EndsWithStar(t) && Star(t) < |t| ==> !EndsWithStar(t[Star(t)..])
  {
    hide Star;
    var n := Star(t);
    if n < |t| { assert t[n..][|t| - n - 1] == t[|t| - 1]; }
  }

  lemma SameSuffix(s: string, k: nat, j: nat, n: nat)
    requires k <= j && j + n <= |s|
    ensures s[j..][n..] == s[k..][n..][j - k..]
  {
  }

  /** Leftmost is as good as any place, as long as a star follows the piece. */
  lemma {:induction false} GreedyComplete(r: string, s: string)
    requires Matches(r, s)
    requires Star(r) == |r| || EndsWithStar(r)
    ensures Greedy(r, s)
    decreases |r|, 1
  {
    hide Matches;
    if Star(r) == |r| {
      LiteralMatches(r, s);
    } else {
      MatchRound(r, s);
      TailEndsAlike(r);
      SearchComplete(Tail(r), s[Star(r)..]);
    }
  }

  lemma {:induction false} SearchComplete(t: string, s: string)
    requires t == "" || (t[0] != '*' && EndsWithStar(t))
    requires MatchesSomewhere(t, s)
    ensures Search(t, s)
    decreases |t|, 0
  {
    hide Matches, Star, Place;
    if t != "" {
      RestEndsAlike(t);
      var j :| 0 <= j <= |s| && Matches(t, s[j..]);
      SplitPiece(t, s[j..]);
      var n := Star(t);
      var k := Place(t[..n], s);
      assert t[..n] <= s[j..] && k <= j < |s|;
      SameSuffix(s, k, j, n);
      StarAbsorbs(t[n..], s[k..][n..], j - k);
      GreedyComplete(t[n..], s[k..][n..]);
    }
  }

  /** For any other pattern, a string that matches and is refused: the last
      literal twice over, where the leftmost fit leaves the second one behind. */
  function Refused(r: string): (s: string)
    requires Star(r) < |r| && !EndsWithStar(r)
    decreases |r|, 1
  {
    TailEndsAlike(r);
    r[..Star(r)] + RefusedTail(Tail(r))
  }

  function RefusedTail(t: string): (s: string)
    requires t != "" && t[0] != '*' && !EndsWithStar(t)
    decreases |t|, 0
  {
    RestEndsAlike(t);
    t[..Star(t)] + if Star(t) == |t| then t else Refused(t[Star(t)..])
  }

  lemma {:induction false} RefusedIsRefused(r: string)
    requires Star(r) < |r| && !EndsWithStar(r)
    ensures Matches(r, Refused(r)) && !Greedy(r, Refused(r))
    decreases |r|, 1
  {
    hide Matches, Star, Search;
    TailEndsAlike(r);
    RefusedTailIsRefused(Tail(r));
    assert Refused(r)[Star(r)..] == RefusedTail(Tail(r));
    MatchRound(r, Refused(r));
  }

  lemma {:induction false} RefusedTailIsRefused(t: string)
    requires t != "" && t[0] != '*' && !EndsWithStar(t)
    ensures MatchesSomewhere(t, RefusedTail(t)) && !Search(t, RefusedTail(t))
    decreases |t|, 0
  {
    hide Matches, Star;
    RestEndsAlike(t);
    var n, s := Star(t), RefusedTail(t);
    var more := s[n..];
    PlaceInFront(t[..n], more);
    assert s == t[..n] + more;
    if n == |t| {
      assert t[n..] == "" && more == t;
      LiteralMatches(t, s[n..]);
      StarOfEmpty();
    } else {
      RefusedIsRefused(t[n..]);
      SplitPiece(t, s);
      assert s[0..] == s;
    }
  }

  lemma PlaceInFront(piece: string, more: string)
    requires piece != ""
    ensures Place(piece, piece + more) == 0
  {
  }

  lemma StarOfEmpty()
    ensures Star("") == 0
  {
  }

  /** Exactly which patterns the matcher gets right for every string: those
      without a star, and those that end in one. */
  lemma MaskExactly(r: string)
    ensures (forall s :: Greedy(r, s) <==> Matches(r, s)) <==> Star(r) == |r| || EndsWithStar(r)
  {
    if Star(r) == |r| || EndsWithStar(r) {
      forall s ensures Greedy(r, s) <==> Matches(r, s) {
        if Greedy(r, s) { GreedySound(r, s); }
        if Matches(r, s) { GreedyComplete(r, s); }
      }
    } else {
      RefusedIsRefused(r);
      assert Greedy(r, Refused(r)) != Matches(r, Refused(r));
    }
  }
}
