/** Array elements in a data path: the indexes are lifted out of the path in
    place, checked against the dimensions and turned into an offset. */
module Quarks {
  import opened Bytes
  import opened Decimals
  import opened SubjectStates

  const MARK: byte := 63         // ?
  const OPEN: byte := 91         // [
  const CLOSE: byte := 93        // ]
  const DASH: byte := 45         // -
  const MAX_IND := 4

  type CInt = x: int | -0x8000_0000 <= x < 0x8000_0000

  /** What a 32-bit int makes of a number. */
  function Wrap(x: int): (k: CInt) {
    (x + 0x8000_0000) % 0x1_0000_0000 - 0x8000_0000
  }

  // ------------------------------------------------------------ the reference

  predicate Runs(runs: seq<seq<byte>>) { forall k :: 0 <= k < |runs| ==> runs[k] != [] && AllDigits(runs[k]) }

  /** The length of the number if the text starts with an index, else 0. */
  function IndexRun(s: seq<byte>): (n: nat)
    ensures n > 0 ==> n + 2 <= |s| && s[0] == OPEN && s[n + 1] == CLOSE && AllDigits(s[1..1 + n])
  {
    if s == [] || s[0] != OPEN then 0
    else
      var n := DigitRun(s[1..]);
      if n > 0 && n + 1 < |s| && s[n + 1] == CLOSE then n else 0
  }

  /** A path with its indexes replaced by marks, and the indexes as spelled. */
  datatype Lifted = Lifted(canon: seq<byte>, runs: seq<seq<byte>>)

  function Lift(s: seq<byte>): (r: Lifted)
    ensures |r.canon| <= |s| && Runs(r.runs)
  {
    if s == [] then Lifted([], [])
    else
      var n := IndexRun(s);
      if n > 0 then
        var r := Lift(s[n + 2..]);
        Lifted([MARK] + r.canon, [s[1..1 + n]] + r.runs)
      else
        var r := Lift(s[1..]);
        Lifted([s[0]] + r.canon, r.runs)
  }

  /** Put numbers back for the marks. */
  function Restore(canon: seq<byte>, runs: seq<seq<byte>>): seq<byte> {
    if canon == [] then []
    else if canon[0] == MARK && runs != [] then [OPEN] + runs[0] + [CLOSE] + Restore(canon[1..], runs[1..])
    else [canon[0]] + Restore(canon[1..], runs)
  }

  function Marks(canon: seq<byte>): nat {
    if canon == [] then 0 else (if canon[0] == MARK then 1 else 0) + Marks(canon[1..])
  }

  /** A path with the leading zeros of its indexes dropped. */
  function Squeeze(s: seq<byte>): seq<byte> {
    if s == [] then []
    else
      var n := IndexRun(s);
      if n > 0 then [OPEN] + StripZeros(s[1..1 + n]) + [CLOSE] + Squeeze(s[n + 2..]) else [s[0]] + Squeeze(s[1..])
  }

  function Stripped(runs: seq<seq<byte>>): (r: seq<seq<byte>>)
    ensures |r| == |runs|
    ensures forall k :: 0 <= k < |r| ==> r[k] == StripZeros(runs[k])
  {
    seq(|runs|, k requires 0 <= k < |runs| => StripZeros(runs[k]))
  }

  function Values(runs: seq<seq<byte>>): (r: seq<CInt>)
    requires Runs(runs)
    ensures |r| == |runs|
    ensures forall k :: 0 <= k < |r| ==> r[k] == Wrap(Number(runs[k]))
  {
    seq(|runs|, k requires 0 <= k < |runs| => Wrap(Number(runs[k])))
  }

  function Print(k: int): seq<byte> {
    if k < 0 then [DASH] + Decimal(-k) else Decimal(k)
  }

  function Printed(ks: seq<CInt>): (r: seq<seq<byte>>)
    ensures |r| == |ks|
    ensures forall k :: 0 <= k < |r| ==> r[k] == Print(ks[k])
  {
    seq(|ks|, k requires 0 <= k < |ks| => Print(ks[k]))
  }

  // -------------------------------------------------------------- inversion

  /** Nothing but the marks has been taken away. */
  lemma {:induction false} LiftRestores(s: seq<byte>)
    requires MARK !in s
    ensures var r := Lift(s);
            && Marks(r.canon) == |r.runs| && Restore(r.canon, r.runs) == s
            && Restore(r.canon, Stripped(r.runs)) == Squeeze(s)
  {
    hide IndexRun, StripZeros, Restore, Marks, Stripped;
    if s == [] {
      RestoreNothing();
    } else {
      var n := IndexRun(s);
      if n > 0 {
        LiftRestores(s[n + 2..]);
        LiftIndex(s[1..1 + n], s[n + 2..]);
        assert s == [OPEN] + s[1..1 + n] + [CLOSE] + s[n + 2..];
      } else {
        LiftRestores(s[1..]);
        LiftOther(s[0], Lift(s[1..]));
        assert s == [s[0]] + s[1..];
      }
    }
  }

  /** An index is a bracket, digits, and a bracket. */
  lemma IndexIsSpelled(run: seq<byte>, rest: seq<byte>)
    requires run != [] && AllDigits(run)
    ensures IndexRun([OPEN] + run + [CLOSE] + rest) == |run|
  {
    hide DigitRun;
    var s := [OPEN] + run + [CLOSE] + rest;
    assert s[1..] == run + ([CLOSE] + rest);
    DigitRunStops(run, [CLOSE] + rest);
  }

  lemma SameIndex(a: seq<byte>, b: seq<byte>)
    requires IndexRun(a) > 0 && IndexRun(a) + 2 <= |b| && b[..IndexRun(a) + 2] == a[..IndexRun(a) + 2]
    ensures IndexRun(b) == IndexRun(a)
  {
    hide DigitRun;
    var n := IndexRun(a);
    var run := b[1..1 + n];
    assert b[1..1 + n] == b[..n + 2][1..1 + n] && a[1..1 + n] == a[..n + 2][1..1 + n];
    assert b[n + 1] == b[..n + 2][n + 1] == a[n + 1];
    assert b[0] == b[..n + 2][0] == a[0];
    IndexIsSpelled(run, b[n + 2..]);
    assert b == [OPEN] + run + [CLOSE] + b[n + 2..];
  }

  /** What comes out without a mark was there before. */
  lemma {:induction false} LiteralPrefix(s: seq<byte>, m: nat)
    requires m <= |Lift(s).canon| && MARK !in Lift(s).canon[..m]
    ensures m <= |s| && s[..m] == Lift(s).canon[..m]
  {
    hide IndexRun;
    if m > 0 {
      var c := Lift(s).canon;
      LiftStep(s);
      assert c[..m][0] == c[0];
      assert c[..m][1..] == Lift(s[1..]).canon[..m - 1];
      LiteralPrefix(s[1..], m - 1);
      assert s[..m] == [s[0]] + s[1..][..m - 1];
    }
  }

  /** And every index has been taken out. */
  lemma {:induction false} NoIndexIsLeft(s: seq<byte>, i: nat)
    requires i <= |Lift(s).canon|
    ensures IndexRun(Lift(s).canon[i..]) == 0
    decreases |s|
  {
    hide IndexRun, Lift;
    if s == [] {
      NothingLifted();
    } else {
      LiftStep(s);
      var n := IndexRun(s);
      if i == 0 {
        assert Lift(s).canon[0..] == Lift(s).canon;
        NoIndexInFront(s);
      } else {
        var x, rest := if n > 0 then MARK else s[0], if n > 0 then s[n + 2..] else s[1..];
        TailOfCons(x, Lift(rest).canon, i);
        NoIndexIsLeft(rest, i - 1);
      }
    }
  }

  lemma TailOfCons(x: byte, s: seq<byte>, i: nat)
    requires 1 <= i <= |s| + 1
    ensures ([x] + s)[i..] == s[i - 1..]
  {
  }

  lemma NothingLifted()
    ensures Lift([]).canon == [] && [][0..] == Lift([]).canon && IndexRun(Lift([]).canon) == 0
  {
  }

  lemma NoIndexInFront(s: seq<byte>)
    requires s != []
    ensures IndexRun(Lift(s).canon) == 0
  {
    hide IndexRun, Lift;
    LiftStep(s);
    var c := Lift(s).canon;
    if IndexRun(s) > 0 {
      MarkIsNoIndex(c);
    } else if IndexRun(c) > 0 {
      IndexHasNoMark(c);
      LiteralPrefix(s, IndexRun(c) + 2);
      SameIndex(c, s);
    }
  }

  lemma IndexHasNoMark(c: seq<byte>)
    requires IndexRun(c) > 0
    ensures IndexRun(c) + 2 <= |c| && MARK !in c[..IndexRun(c) + 2]
  {
    hide DigitRun;
    var n := IndexRun(c);
    forall k | 0 <= k < n + 2 ensures c[k] != MARK {
      if 1 <= k <= n { assert IsDigit(c[1..1 + n][k - 1]); }
    }
  }

  lemma MarkIsNoIndex(c: seq<byte>)
    requires c != [] && c[0] == MARK
    ensures IndexRun(c) == 0
  {
  }

  lemma RestoreNothing()
    ensures Marks([]) == 0 && Restore([], []) == [] && Restore([], Stripped([])) == []
  {
  }

  lemma LiftIndex(run: seq<byte>, rest: seq<byte>)
    requires Marks(Lift(rest).canon) == |Lift(rest).runs|
    ensures var t := Lift(rest);
            var canon, runs := [MARK] + t.canon, [run] + t.runs;
            && Marks(canon) == |runs|
            && Restore(canon, runs) == [OPEN] + run + [CLOSE] + Restore(t.canon, t.runs)
            && Restore(canon, Stripped(runs)) == [OPEN] + StripZeros(run) + [CLOSE] + Restore(t.canon, Stripped(t.runs))
  {
    hide Lift, StripZeros;
    var t := Lift(rest);
    assert ([MARK] + t.canon)[1..] == t.canon && ([run] + t.runs)[1..] == t.runs;
    assert Stripped([run] + t.runs)[1..] == Stripped(t.runs);
  }

  lemma LiftOther(c: byte, t: Lifted)
    requires c != MARK
    ensures Marks([c] + t.canon) == Marks(t.canon)
    ensures Restore([c] + t.canon, t.runs) == [c] + Restore(t.canon, t.runs)
    ensures Restore([c] + t.canon, Stripped(t.runs)) == [c] + Restore(t.canon, Stripped(t.runs))
  {
    hide Stripped;
    assert ([c] + t.canon)[1..] == t.canon;
  }

  function UntilClose(s: seq<byte>): nat {
    if s == [] || s[0] == CLOSE then 0 else 1 + UntilClose(s[1..])
  }

  lemma {:induction false} ClosesHere(a: seq<byte>, s: seq<byte>)
    requires CLOSE !in a
    ensures UntilClose(a + [CLOSE] + s) == |a|
  {
    if a != [] {
      ClosesHere(a[1..], s);
      assert (a + [CLOSE] + s)[1..] == a[1..] + [CLOSE] + s;
    }
  }

  lemma ClosesOnce(a: seq<byte>, b: seq<byte>, s: seq<byte>, t: seq<byte>)
    requires CLOSE !in a && CLOSE !in b
    requires [OPEN] + a + [CLOSE] + s == [OPEN] + b + [CLOSE] + t
    ensures a == b && s == t
  {
    var x, y := a + [CLOSE] + s, b + [CLOSE] + t;
    assert ([OPEN] + a + [CLOSE] + s)[1..] == x && ([OPEN] + b + [CLOSE] + t)[1..] == y;
    ClosesHere(a, s);
    ClosesHere(b, t);
    assert x[..|a|] == a && y[..|b|] == b;
    assert x[1 + |a|..] == s && y[1 + |b|..] == t;
  }

  /** Different numbers make different paths. */
  lemma {:induction false} RestoreInjective(canon: seq<byte>, a: seq<seq<byte>>, b: seq<seq<byte>>)
    requires |a| == |b| == Marks(canon)
    requires forall k :: 0 <= k < |a| ==> CLOSE !in a[k] && CLOSE !in b[k]
    requires Restore(canon, a) == Restore(canon, b)
    ensures a == b
  {
    if canon == [] {
    } else if canon[0] == MARK {
      ClosesOnce(a[0], b[0], Restore(canon[1..], a[1..]), Restore(canon[1..], b[1..]));
      RestoreInjective(canon[1..], a[1..], b[1..]);
      assert a == [a[0]] + a[1..] && b == [b[0]] + b[1..];
    } else {
      assert Restore(canon, a)[1..] == Restore(canon[1..], a) && Restore(canon, b)[1..] == Restore(canon[1..], b);
      RestoreInjective(canon[1..], a, b);
    }
  }

  lemma WrapFits(n: nat)
    ensures Wrap(n) == n <==> n < 0x8000_0000
  {
  }

  /** Printing an int tells the int. */
  lemma PrintInjective(k: int, n: nat)
    requires Print(k) == Decimal(n)
    ensures k == n
  {
    hide Decimal;
    NumberOfDecimal(n);
    assert IsDigit(Decimal(n)[0]);
    if k >= 0 { DecimalInjective(k, n); }
  }

  lemma NoClose(k: int)
    ensures CLOSE !in Print(k)
  {
    hide Decimal;
    NumberOfDecimal(if k < 0 then -k else k);
  }

  /** An index as an int prints as it was spelled, zeros aside, exactly when an
      int can hold it. */
  lemma IndexPrints(run: seq<byte>)
    requires run != [] && AllDigits(run)
    ensures Print(Wrap(Number(run))) == StripZeros(run) <==> Number(run) < 0x8000_0000
    ensures CLOSE !in Print(Wrap(Number(run))) && CLOSE !in StripZeros(run)
  {
    hide Wrap, Decimal, StripZeros, Number;
    var n := Number(run);
    WrapFits(n);
    DecimalOfNumber(run);
    assert Print(n) == Decimal(n);
    if Print(Wrap(n)) == Decimal(n) { PrintInjective(Wrap(n), n); }
    NoClose(Wrap(n));
    NoClose(n);
  }

  predicate AllFit(runs: seq<seq<byte>>)
    requires Runs(runs)
  {
    forall k :: 0 <= k < |runs| ==> Number(runs[k]) < 0x8000_0000
  }

  /** Putting the extracted indexes back for the marks restores the path up to
      leading zeros exactly when every index fits an int. */
  lemma IndexesRestore(s: seq<byte>)
    requires MARK !in s
    ensures var r := Lift(s);
            Restore(r.canon, Printed(Values(r.runs))) == Squeeze(s) <==> AllFit(r.runs)
  {
    hide Print, Wrap, Number, StripZeros;
    var r := Lift(s);
    var a, b := Printed(Values(r.runs)), Stripped(r.runs);
    LiftRestores(s);
    forall k | 0 <= k < |r.runs|
      ensures (a[k] == b[k] <==> Number(r.runs[k]) < 0x8000_0000) && CLOSE !in a[k] && CLOSE !in b[k]
    {
      IndexPrints(r.runs[k]);
    }
    if Restore(r.canon, a) == Restore(r.canon, b) { RestoreInjective(r.canon, a, b); }
    if AllFit(r.runs) { assert a == b; }
  }

  // -------------------------------------------------------- lifting in place

  lemma LiftStep(s: seq<byte>)
    requires s != []
    ensures var n := IndexRun(s);
            Lift(s) == if n > 0 then Lifted([MARK] + Lift(s[n + 2..]).canon, [s[1..1 + n]] + Lift(s[n + 2..]).runs)
                       else Lifted([s[0]] + Lift(s[1..]).canon, Lift(s[1..]).runs)
  {
  }

  /** What is lifted already and what lies ahead make up the whole. */
  ghost predicate Ahead(all: Lifted, canon: seq<byte>, runs: seq<seq<byte>>, s: seq<byte>) {
    Runs(runs) && all.canon == canon + Lift(s).canon && all.runs == runs + Lift(s).runs
  }

  lemma AheadIndex(all: Lifted, canon: seq<byte>, runs: seq<seq<byte>>, s: seq<byte>)
    requires Ahead(all, canon, runs, s) && IndexRun(s) > 0
    ensures var n := IndexRun(s); Ahead(all, canon + [MARK], runs + [s[1..1 + n]], s[n + 2..])
  {
    hide IndexRun;
    LiftStep(s);
  }

  lemma AheadOther(all: Lifted, canon: seq<byte>, runs: seq<seq<byte>>, s: seq<byte>)
    requires Ahead(all, canon, runs, s) && s != [] && IndexRun(s) == 0
    ensures Ahead(all, canon + [s[0]], runs, s[1..])
  {
    hide IndexRun;
    LiftStep(s);
  }

  lemma AheadStart(s: seq<byte>)
    ensures Ahead(Lift(s), [], [], s)
  {
  }

  lemma AheadEnd(all: Lifted, canon: seq<byte>, runs: seq<seq<byte>>)
    requires Ahead(all, canon, runs, [])
    ensures all == Lifted(canon, runs)
  {
  }

  lemma AheadMore(all: Lifted, canon: seq<byte>, runs: seq<seq<byte>>, s: seq<byte>)
    requires Ahead(all, canon, runs, s)
    ensures |all.runs| >= |runs|
  {
  }

  lemma WrapDigit(digits: seq<byte>, d: byte)
    requires AllDigits(digits) && IsDigit(d)
    ensures AllDigits(digits + [d]) && Wrap(Number(digits + [d])) == Wrap(Wrap(Number(digits)) * 10 + (d as int - 48))
  {
    assert (digits + [d])[..|digits|] == digits;
    hide Number;
    var n, e := Number(digits), d as int - 48;
    var m := (n + 0x8000_0000) / 0x1_0000_0000;
    assert n == Wrap(n) + m * 0x1_0000_0000;
    assert n * 10 + e == Wrap(n) * 10 + e + 10 * m * 0x1_0000_0000;
    WrapPeriod(Wrap(n) * 10 + e, 10 * m);
  }

  lemma WrapPeriod(x: int, m: int)
    ensures Wrap(x + m * 0x1_0000_0000) == Wrap(x)
  {
    ModPeriod(x + 0x8000_0000, m);
  }

  lemma {:induction false} ModPeriod(x: int, m: int)
    ensures (x + m * 0x1_0000_0000) % 0x1_0000_0000 == x % 0x1_0000_0000
    decreases if m < 0 then -m else m
  {
    if m > 0 { ModPeriod(x + 0x1_0000_0000, m - 1); } else if m < 0 { ModPeriod(x - 0x1_0000_0000, m + 1); }
  }

  /** The digits after an opening bracket at p: how many there are and their value. */
  method ReadIndex(buf: array<byte>, p: nat, end: nat) returns (n: nat, k: CInt)
    requires p < end < buf.Length && buf[p] == OPEN && buf[end] == 0
    ensures n == IndexRun(buf[p..end])
    ensures n > 0 ==> p + n + 2 <= end && AllDigits(buf[p + 1..p + 1 + n]) && k == Wrap(Number(buf[p + 1..p + 1 + n]))
  {
    hide Number, Wrap;
    var q := p + 1;
    k := 0;
    ghost var s := buf[p..end];
    assert Wrap(Number(buf[p + 1..q])) == 0 by { NumberOfNothing(); WrapOfInt(0); assert buf[p + 1..q] == []; }
    while 48 <= buf[q] <= 57
      invariant p + 1 <= q <= end
      invariant AllDigits(buf[p + 1..q]) && k == Wrap(Number(buf[p + 1..q]))
      decreases end - q
    {
      WrapDigit(buf[p + 1..q], buf[q]);
      assert buf[p + 1..q + 1] == buf[p + 1..q] + [buf[q]];
      k := Wrap(k * 10 + (buf[q] as int - 48));
      q := q + 1;
    }
    n := q - (p + 1);
    assert s[1..] == buf[p + 1..q] + buf[q..end];
    DigitRunEnds(buf[p + 1..q], buf[q..end]);
    if n == 0 || buf[q] != CLOSE { n := 0; }
  }

  /** The loop's state: b is the buffer, which held `orig`. The write position d
      never passes the read position s, so nothing unread is overwritten. */
  ghost predicate Halfway(b: seq<byte>, orig: seq<byte>, t: nat, end: nat, s: nat, d: nat, all: Lifted, runs: seq<seq<byte>>) {
    && t <= d <= s <= end < |b| == |orig|
    && b[..t] == orig[..t] && b[s..] == orig[s..]
    && Ahead(all, b[t..d], runs, orig[s..end])
  }

  lemma HalfwayIndex(b: seq<byte>, orig: seq<byte>, t: nat, end: nat, s: nat, d: nat, all: Lifted, runs: seq<seq<byte>>)
    requires Halfway(b, orig, t, end, s, d, all, runs) && IndexRun(b[s..end]) > 0
    ensures var n := IndexRun(b[s..end]);
            && |all.runs| > |runs|
            && Halfway(b[d := MARK], orig, t, end, s + n + 2, d + 1, all, runs + [b[s + 1..s + 1 + n]])
  {
    hide IndexRun, Ahead;
    var n, rest := IndexRun(b[s..end]), orig[s..end];
    assert b[s..][..end - s] == b[s..end] && orig[s..][..end - s] == rest;
    AheadIndex(all, b[t..d], runs, rest);
    assert rest[n + 2..] == orig[s + n + 2..end] && rest[1..1 + n] == b[s + 1..s + 1 + n];
    AheadMore(all, b[t..d] + [MARK], runs + [rest[1..1 + n]], rest[n + 2..]);
    var b' := b[d := MARK];
    assert b'[t..d + 1] == b[t..d] + [MARK];
    assert b'[s + n + 2..] == b[s..][n + 2..] == orig[s + n + 2..];
  }

  lemma HalfwayOther(b: seq<byte>, orig: seq<byte>, t: nat, end: nat, s: nat, d: nat, all: Lifted, runs: seq<seq<byte>>)
    requires Halfway(b, orig, t, end, s, d, all, runs) && s < end && IndexRun(b[s..end]) == 0
    ensures Halfway(b[d := b[s]], orig, t, end, s + 1, d + 1, all, runs)
  {
    hide IndexRun, Ahead;
    var rest := orig[s..end];
    assert b[s..][..end - s] == b[s..end] && orig[s..][..end - s] == rest;
    AheadOther(all, b[t..d], runs, rest);
    assert rest[1..] == orig[s + 1..end];
    var b' := b[d := b[s]];
    assert b'[t..d + 1] == b[t..d] + [b[s]];
    assert b'[s + 1..] == b[s..][1..] == orig[s + 1..];
  }

  lemma HalfwayStart(b: seq<byte>, t: nat, end: nat)
    requires t <= end < |b|
    ensures Halfway(b, b, t, end, t, t, Lift(b[t..end]), [])
  {
    hide Lift;
    AheadStart(b[t..end]);
    assert b[t..t] == [];
  }

  lemma HalfwayEnd(b: seq<byte>, orig: seq<byte>, t: nat, end: nat, s: nat, d: nat, all: Lifted, runs: seq<seq<byte>>)
    requires Halfway(b, orig, t, end, s, d, all, runs) && b[s] == 0 && 0 !in orig[t..end]
    ensures s == end && all == Lifted(b[t..d], runs)
  {
    hide Ahead;
    assert orig[s..][0] == b[s..][0];
    assert forall j :: t <= j < end ==> orig[j] == orig[t..end][j - t] != 0;
    assert orig[s..end] == [];
    AheadEnd(all, b[t..d], runs);
  }

  /** The index extraction of ohubFindQuarkByDesc on the string buf[t..end], whose
      NUL is at end. The canonical path is written over it; a fifth index is an error. */
  method LiftInPlace(buf: array<byte>, t: nat, end: nat, ind: array<CInt>) returns (ok: bool, d: nat)
    requires buf as object != ind as object && t <= end < buf.Length && buf[end] == 0 && 0 !in buf[t..end]
    requires ind.Length == MAX_IND
    modifies buf, ind
    ensures ok <==> |Lift(old(buf[t..end])).runs| <= MAX_IND
    ensures ok ==> t <= d <= end && buf[t..d] == Lift(old(buf[t..end])).canon && buf[d] == 0
    ensures ok ==> IndexesOf(ind[..], Lift(old(buf[t..end])).runs)
    ensures buf[..t] == old(buf[..t])
  {
    hide Lift, IndexRun, Ahead, Wrap, Number, Halfway;
    ghost var orig, runs := buf[..], [];
    ghost var all := Lift(buf[t..end]);
    var s, i := t, 0;
    d := t;
    HalfwayStart(orig, t, end);
    while buf[s] != 0
      invariant Halfway(buf[..], orig, t, end, s, d, all, runs) && t <= d <= s <= end && buf[end] == 0
      invariant i == |runs| <= MAX_IND && Runs(runs)
      invariant forall j :: 0 <= j < i ==> ind[j] == Wrap(Number(runs[j]))
      decreases end - s
    {
      var n, k := 0, 0;
      HalfwayPrefix(buf[..], orig, t, end, s, d, all, runs);
      assert buf[..t] == buf[..][..t] == orig[..t] == old(buf[..t]);
      assert buf[..][s..end] == buf[s..end];
      if buf[s] == OPEN { n, k := ReadIndex(buf, s, end); } else { NoIndex(buf[s..end]); }
      if n > 0 {
        HalfwayIndex(buf[..], orig, t, end, s, d, all, runs);
        if i >= MAX_IND { return false, d; }
        ind[i] := k;
        i := i + 1;
        assert buf[..][s + 1..s + 1 + n] == buf[s + 1..s + 1 + n];
        runs := runs + [buf[s + 1..s + 1 + n]];
        s := s + n + 2;
        buf[d] := MARK;
      } else {
        HalfwayOther(buf[..], orig, t, end, s, d, all, runs);
        buf[d] := buf[s];
        s := s + 1;
      }
      d := d + 1;
    }
    assert buf[..][s] == 0 && orig[t..end] == old(buf[t..end]);
    HalfwayEnd(buf[..], orig, t, end, s, d, all, runs);
    HalfwayPrefix(buf[..], orig, t, end, s, d, all, runs);
    ghost var canon := buf[t..d];
    assert buf[..][t..d] == canon && buf[..][..t] == orig[..t];
    buf[d] := 0;
    assert buf[t..d] == canon && buf[..t] == orig[..t];
    ClearRest(ind, i);
    ok := true;
  }

  lemma HalfwayPrefix(b: seq<byte>, orig: seq<byte>, t: nat, end: nat, s: nat, d: nat, all: Lifted, runs: seq<seq<byte>>)
    requires Halfway(b, orig, t, end, s, d, all, runs)
    ensures t <= |b| == |orig| && b[..t] == orig[..t]
  {
  }

  /** Indexes that are not spelled are 0. */
  method ClearRest(ind: array<CInt>, from: nat)
    requires from <= ind.Length
    modifies ind
    ensures ind[..] == old(ind[..from]) + seq(ind.Length - from, _ => 0)
  {
    var i := from;
    while i < ind.Length
      invariant from <= i <= ind.Length && ind[..from] == old(ind[..from])
      invariant forall j :: from <= j < i ==> ind[j] == 0
    {
      ind[i] := 0;
      i := i + 1;
    }
  }

  lemma NoIndex(s: seq<byte>)
    requires s != [] && s[0] != OPEN
    ensures IndexRun(s) == 0
  {
  }

  /** The indexes spelled, and 0 for those that are not. */
  ghost predicate IndexesOf(ind: seq<CInt>, runs: seq<seq<byte>>)
    requires Runs(runs)
  {
    && |ind| == MAX_IND && |runs| <= MAX_IND
    && ind == Values(runs) + seq(MAX_IND - |runs|, _ => 0)
  }

  // ------------------------------------------------------- offset and address

  /** An index fits its dimension; where there is no dimension only 0 does. */
  predicate InDim(n: CInt, k: CInt) {
    if n == 0 then k == 0 else 0 <= k < n
  }

  function Times(a: int, b: int): int { a * b }

  /** The distance of an element from the start of its array. */
  function Distance(coef: seq<CInt>, ind: seq<CInt>, n: nat): int
    requires n <= |coef| && n <= |ind|
  {
    if n == 0 then 0 else Distance(coef, ind, n - 1) + Times(ind[n - 1], coef[n - 1])
  }

  lemma DistanceMeans(coef: seq<CInt>, ind: seq<CInt>)
    requires |coef| == |ind| == 4
    ensures Distance(coef, ind, 4) == (ind[0] as int) * (coef[0] as int) + (ind[1] as int) * (coef[1] as int) + (ind[2] as int) * (coef[2] as int) + (ind[3] as int) * (coef[3] as int)
  {
    assert Distance(coef, ind, 1) == Times(ind[0], coef[0]);
    assert Distance(coef, ind, 2) == Distance(coef, ind, 1) + Times(ind[1], coef[1]);
    assert Distance(coef, ind, 3) == Distance(coef, ind, 2) + Times(ind[2], coef[2]);
  }

  lemma WrapMeans(x: int)
    ensures (x - Wrap(x)) % 0x1_0000_0000 == 0
  {
    var m := (x + 0x8000_0000) / 0x1_0000_0000;
    assert x - Wrap(x) == m * 0x1_0000_0000;
    ModPeriod(0, m);
  }

  lemma OffsetMeans(off0: CInt, coef: seq<CInt>, ind: seq<CInt>, off: CInt)
    requires |coef| == |ind| == 4 && off == Wrap(off0 + Distance(coef, ind, 4))
    ensures (off0 as int + (ind[0] as int) * (coef[0] as int) + (ind[1] as int) * (coef[1] as int)
             + (ind[2] as int) * (coef[2] as int) + (ind[3] as int) * (coef[3] as int) - off as int) % 0x1_0000_0000 == 0
  {
    hide Wrap, Distance;
    DistanceMeans(coef, ind);
    WrapMeans(off0 + Distance(coef, ind, 4));
  }

  lemma WrapAdd(a: int, b: int)
    ensures Wrap(Wrap(a) + b) == Wrap(a + b)
  {
    var m := (a + 0x8000_0000) / 0x1_0000_0000;
    assert a == Wrap(a) + m * 0x1_0000_0000;
    WrapPeriod(Wrap(a) + b, m);
  }

  /** An index that wraps is accepted: the path [4294967296] names element 0 of every
      array, with no distance. */
  lemma WrappedIndexIsAccepted(ind: seq<CInt>, dim: seq<CInt>, coef: seq<CInt>)
    requires |dim| == |coef| == MAX_IND && forall i :: 0 <= i < MAX_IND ==> dim[i] >= 0
    requires IndexesOf(ind, Lift([OPEN] + Decimal(0x1_0000_0000) + [CLOSE]).runs)
    ensures Lift([OPEN] + Decimal(0x1_0000_0000) + [CLOSE]).canon == [MARK]
    ensures ind == [0, 0, 0, 0] && (forall i :: 0 <= i < MAX_IND ==> InDim(dim[i], ind[i]))
    ensures Distance(coef, ind, MAX_IND) == 0
  {
    hide Decimal, Number, DigitRun;
    var run := Decimal(0x1_0000_0000);
    var s := [OPEN] + run + [CLOSE];
    NumberOfDecimal(0x1_0000_0000);
    assert s[1..] == run + [CLOSE];
    DigitRunEnds(run, [CLOSE]);
    assert IndexRun(s) == |run| && s[1..1 + |run|] == run;
    LiftStep(s);
    assert Lift(s).runs == [run];
    hide Lift, IndexRun;
    assert Wrap(Number(run)) == 0;
    assert ind[0] == 0 && ind == [0, 0, 0, 0];
    NoDistance(coef, ind, MAX_IND);
  }

  lemma {:induction false} NoDistance(coef: seq<CInt>, ind: seq<CInt>, n: nat)
    requires n <= |coef| && n <= |ind| && forall i :: 0 <= i < n ==> ind[i] == 0
    ensures Distance(coef, ind, n) == 0
  {
    if n > 0 { NoDistance(coef, ind, n - 1); }
  }

  class Quark {
    const adr: Long
    const seg: byte
    const mod: CInt                // the number of its module
    const dim: seq<CInt>
    const coef: seq<CInt>
    var off: CInt
    var ind: seq<CInt>
    var physAddr: Long             // NO_ADDR when not known

    ghost predicate Valid()
      reads this
    {
      |dim| == |coef| == |ind| == MAX_IND
    }

    constructor (adr: Long, seg: byte, mod: CInt, dim: seq<CInt>, coef: seq<CInt>, off: CInt)
      requires |dim| == |coef| == MAX_IND
      ensures Valid() && this.adr == adr && this.seg == seg && this.mod == mod && this.dim == dim && this.coef == coef
      ensures this.off == off && ind == [0, 0, 0, 0] && physAddr == 0
    {
      this.adr, this.seg, this.mod, this.dim, this.coef, this.off := adr, seg, mod, dim, coef, off;
      ind, physAddr := [0, 0, 0, 0], 0;
    }

    /** The offset loop: it stops at the first index out of its dimension. */
    method CrunchOffset(idx: array<CInt>) returns (bad: Option<nat>)
      requires Valid() && idx.Length == MAX_IND
      modifies this`off, this`ind
      ensures Valid()
      ensures bad.None? <==> forall i :: 0 <= i < MAX_IND ==> InDim(dim[i], idx[i])
      ensures bad.None? <==> forall i :: 0 <= i < 4 ==> 0 <= idx[i] && if dim[i] == 0 then idx[i] == 0 else idx[i] < dim[i]
      ensures bad.None? ==> ind == idx[..] && off == Wrap(old(off) + Distance(coef, idx[..], MAX_IND))
      ensures bad.None? ==>
                (old(off) as int + (idx[0] as int) * (coef[0] as int) + (idx[1] as int) * (coef[1] as int)
                 + (idx[2] as int) * (coef[2] as int) + (idx[3] as int) * (coef[3] as int) - off as int) % 0x1_0000_0000 == 0
      ensures bad.Some? ==> bad.value < MAX_IND && !InDim(dim[bad.value], idx[bad.value])
                            && forall i :: 0 <= i < bad.value ==> InDim(dim[i], idx[i])
    {
      hide Wrap, Times;
      assert Wrap(old(off)) == old(off) by { WrapOfInt(old(off)); }
      var i := 0;
      while i < MAX_IND
        invariant 0 <= i <= MAX_IND && Valid()
        invariant forall j :: 0 <= j < i ==> InDim(dim[j], idx[j]) && ind[j] == idx[j]
        invariant off == Wrap(old(off) + Distance(coef, idx[..], i))
      {
        var k, n := idx[i], dim[i];
        if (n == 0 && k != 0) || (n != 0 && k >= n) || k < 0 { return Some(i); }
        WrapAdd(old(off) + Distance(coef, idx[..], i), Times(k, coef[i]));
        off := Wrap(off + Times(k, coef[i]));
        ind := ind[i := k];
        i := i + 1;
      }
      bad := None;
      OffsetMeans(old(off), coef, idx[..], off);
    }

    /** Where a segment is, if that is known, and the offset behind it. */
    function Addr(d: Domain): Long
      reads d
      requires d.Valid()
    {
      var known := 0 <= mod < |d.modules| && IsSegmentName(seg) && d.addrs[mod][seg as int - 32] != NO_ADDR;
      if known then (d.addrs[mod][seg as int - 32] + adr) % 0x1_0000_0000 else NO_ADDR
    }

    /** ohubRefineQuarkAddress: the address is that of the segment in its module,
        when the hub knows one. */
    method RefineAddress(d: Domain) returns (changed: bool)
      requires d.Valid()
      modifies this`physAddr
      ensures changed == (physAddr != old(physAddr)) && physAddr == Addr(d)
      ensures physAddr == if 0 <= mod < |d.modules| && 32 <= seg < 127 && d.addrs[mod][seg as int - 32] != NO_ADDR
                          then (d.addrs[mod][seg as int - 32] + adr) % 0x1_0000_0000 else NO_ADDR
      ensures d.OffIsBlank() && 0 <= mod < |d.modules| && d.states[d.modules[mod].subject] == OFF ==> physAddr == NO_ADDR
    {
      var phys := NO_ADDR;
      if 0 <= mod < |d.modules| && IsSegmentName(seg) {
        var segAddr := d.addrs[mod][seg as int - 32];
        if segAddr != NO_ADDR { phys := (segAddr + adr) % 0x1_0000_0000; }
      }
      changed := phys != physAddr;
      if changed { physAddr := phys; }
    }
  }

  lemma WrapOfInt(k: CInt)
    ensures Wrap(k) == k
  {
  }

  datatype Outcome = TooManyIndexes | OutOfRange(i: nat) | Found

  /** The element a path names, once its record is found: the indexes it spells,
      in their dimensions, at their distance from the record's offset. */
  method Locate(buf: array<byte>, t: nat, end: nat, q: Quark) returns (r: Outcome)
    requires t <= end < buf.Length && buf[end] == 0 && 0 !in buf[t..end] && q.Valid()
    modifies buf, q
    ensures q.Valid()
    ensures r == TooManyIndexes <==> |Lift(old(buf[t..end])).runs| > MAX_IND
    ensures forall ind: seq<CInt> :: IndexesOf(ind, Lift(old(buf[t..end])).runs) ==>
              (r == Found <==> forall i :: 0 <= i < MAX_IND ==> InDim(q.dim[i], ind[i]))
    ensures r == Found ==>
      && IndexesOf(q.ind, Lift(old(buf[t..end])).runs)
      && (forall i :: 0 <= i < MAX_IND ==> InDim(q.dim[i], q.ind[i]))
      && q.off == Wrap(old(q.off) + Distance(q.coef, q.ind, MAX_IND))
    ensures r.OutOfRange? ==> exists ind: seq<CInt> ::
      IndexesOf(ind, Lift(old(buf[t..end])).runs) && r.i < MAX_IND && !InDim(q.dim[r.i], ind[r.i])
  {
    hide Lift, Wrap, Distance;
    var ind := new CInt[MAX_IND](_ => 0);
    var ok, d := LiftInPlace(buf, t, end, ind);
    if !ok { return TooManyIndexes; }
    var bad := q.CrunchOffset(ind);
    if bad.Some? {
      assert IndexesOf(ind[..], Lift(old(buf[t..end])).runs) && !InDim(q.dim[bad.value], ind[..][bad.value]);
      return OutOfRange(bad.value);
    }
    r := Found;
  }
}
