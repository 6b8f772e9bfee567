/** The repeater of the "see" tool: a description with index ranges is split into
    a format and ranges, and an odometer runs through every element once. */
module Repeater {
  import opened Bytes
  import opened Decimals

  const MAX_IDX := 4
  const OPEN: byte := 91         // [
  const CLOSE: byte := 93        // ]
  const COLON: byte := 58
  const DOT: byte := 46
  const QUESTION: byte := 63
  const DASH: byte := 45

  // ----------------------------------------------------- descriptions, spelled

  /** A plain character, an index, or a range of indexes spelled a:b, a:.b or a..b. */
  datatype Item = Char(b: byte) | One(run: seq<byte>) | Span(lo: seq<byte>, sep: seq<byte>, hi: seq<byte>)

  predicate Digits(run: seq<byte>) { run != [] && AllDigits(run) }

  predicate Separator(sep: seq<byte>) { sep == [COLON] || sep == [COLON, DOT] || sep == [DOT, DOT] }

  predicate WellFormed(x: Item) {
    match x
    case Char(b) => b != OPEN && b != QUESTION && b != COLON
    case One(run) => Digits(run)
    case Span(lo, sep, hi) => Digits(lo) && Separator(sep) && Digits(hi)
  }

  predicate AllWellFormed(xs: seq<Item>) { forall i :: 0 <= i < |xs| ==> WellFormed(xs[i]) }

  function ItemBytes(x: Item): (s: seq<byte>)
    ensures s != []
  {
    match x
    case Char(b) => [b]
    case One(run) => [OPEN] + run + [CLOSE]
    case Span(lo, sep, hi) => [OPEN] + lo + sep + hi + [CLOSE]
  }

  function Spell(xs: seq<Item>): seq<byte> {
    if xs == [] then [] else ItemBytes(xs[0]) + Spell(xs[1..])
  }

  // -------------------------------------------------------------- and read

  /** How long the separator at the front is, 0 for none. */
  function SeparatorLength(s: seq<byte>): (k: nat)
    ensures k > 0 ==> k <= |s| && Separator(s[..k])
  {
    if s != [] && s[0] == COLON then if |s| > 1 && s[1] == DOT then 2 else 1
    else if |s| > 1 && s[0] == DOT && s[1] == DOT then 2
    else 0
  }

  datatype Taken = Taken(item: Item, rest: seq<byte>)

  /** The end of a range, after its separator. */
  function TakeHi(lo: seq<byte>, sep: seq<byte>, u: seq<byte>): (r: Option<Taken>)
    ensures r.Some? ==> r.value.item.Span? && Digits(r.value.item.hi) && r.value.item.lo == lo && r.value.item.sep == sep
    ensures r.Some? ==> u == r.value.item.hi + [CLOSE] + r.value.rest
  {
    var m := DigitRun(u);
    if m == 0 || u[m..] == [] || u[m] != CLOSE then None
    else Some(Taken(Span(lo, sep, u[..m]), u[m + 1..]))
  }

  /** What follows the first number of an index. */
  function TakeTail(lo: seq<byte>, t: seq<byte>): (r: Option<Taken>)
    requires Digits(lo)
  {
    var k := SeparatorLength(t);
    if k > 0 then TakeHi(lo, t[..k], t[k..])
    else if t == [] || t[0] != CLOSE then None
    else Some(Taken(One(lo), t[1..]))
  }

  function TakeIndex(s: seq<byte>): (r: Option<Taken>)
    requires s != []
  {
    var n := DigitRun(s[1..]);
    if n == 0 then None else TakeTail(s[1..1 + n], s[1 + n..])
  }

  lemma TailPrints(lo: seq<byte>, t: seq<byte>)
    requires Digits(lo) && TakeTail(lo, t).Some?
    ensures var r := TakeTail(lo, t).value; WellFormed(r.item) && [OPEN] + lo + t == ItemBytes(r.item) + r.rest
  {
    hide Digits, TakeHi, SeparatorLength, Separator;
    var k, r := SeparatorLength(t), TakeTail(lo, t).value;
    if k > 0 {
      assert t == t[..k] + t[k..];
      SpanPrints(lo, t[..k], r.item.hi, r.rest);
    } else {
      assert t == [CLOSE] + r.rest;
    }
  }

  lemma SpanPrints(lo: seq<byte>, sep: seq<byte>, hi: seq<byte>, rest: seq<byte>)
    ensures [OPEN] + lo + (sep + (hi + [CLOSE] + rest)) == [OPEN] + lo + sep + hi + [CLOSE] + rest
  {
    Regroup([OPEN] + lo, sep, hi + [CLOSE] + rest);
    Regroup([OPEN] + lo + sep, hi + [CLOSE], rest);
    Regroup([OPEN] + lo + sep, hi, [CLOSE]);
  }

  lemma IndexPrints(s: seq<byte>)
    requires s != [] && s[0] == OPEN && TakeIndex(s).Some?
    ensures var r := TakeIndex(s).value; WellFormed(r.item) && s == ItemBytes(r.item) + r.rest
  {
    hide ItemBytes, DigitRun, WellFormed, TakeTail;
    var n := DigitRun(s[1..]);
    TailPrints(s[1..1 + n], s[1 + n..]);
    assert s == [OPEN] + s[1..1 + n] + s[1 + n..];
  }

  /** What is taken is what was spelled. */
  lemma TakePrints(s: seq<byte>)
    requires s != [] && Take(s).Some?
    ensures var r := Take(s).value; WellFormed(r.item) && s == ItemBytes(r.item) + r.rest
  {
    hide TakeIndex, Digits, Separator;
    if s[0] == OPEN {
      hide WellFormed, ItemBytes;
      IndexPrints(s);
    }
  }

  function Take(s: seq<byte>): (r: Option<Taken>)
    requires s != []
  {
    if s[0] == OPEN then TakeIndex(s)
    else if s[0] == QUESTION || s[0] == COLON then None
    else Some(Taken(Char(s[0]), s[1..]))
  }

  /** The items a description is spelled from. */
  function Items(s: seq<byte>): (r: Option<seq<Item>>)
    ensures r.Some? ==> AllWellFormed(r.value)
    decreases |s|
  {
    if s == [] then Some([])
    else
      var x := Take(s);
      if x.None? then None
      else
        TakePrints(s);
        var more := Items(x.value.rest);
        if more.None? then None else Some([x.value.item] + more.value)
  }

  /** A description that is accepted is spelled from the items it is read as. */
  lemma {:induction false} ItemsPrint(s: seq<byte>)
    requires Items(s).Some?
    ensures Spell(Items(s).value) == s
    decreases |s|
  {
    hide Take, WellFormed, ItemBytes;
    if s != [] {
      var x := Take(s).value;
      TakePrints(s);
      ItemsPrint(x.rest);
      assert ([x.item] + Items(x.rest).value)[1..] == Items(x.rest).value;
    }
  }

  lemma SeparatorSpelled(sep: seq<byte>, u: seq<byte>)
    requires Separator(sep) && u != [] && IsDigit(u[0])
    ensures SeparatorLength(sep + u) == |sep|
  {
  }

  lemma TakeIndexSpelled(lo: seq<byte>, t: seq<byte>)
    requires Digits(lo) && t != [] && !IsDigit(t[0])
    ensures Take([OPEN] + lo + t) == TakeTail(lo, t)
  {
    hide TakeTail, DigitRun;
    var s := [OPEN] + lo + t;
    assert s[1..] == lo + t;
    DigitRunStops(lo, t);
    assert s[1..1 + |lo|] == lo && s[1 + |lo|..] == t;
  }

  lemma TakeHiSpelled(lo: seq<byte>, sep: seq<byte>, hi: seq<byte>, rest: seq<byte>)
    requires Digits(lo) && Separator(sep) && Digits(hi)
    ensures TakeTail(lo, sep + (hi + ([CLOSE] + rest))) == Some(Taken(Span(lo, sep, hi), rest))
  {
    var tail := [CLOSE] + rest;
    var u := hi + tail;
    var t := sep + u;
    assert IsDigit(hi[0]) && u[0] == hi[0];
    SeparatorSpelled(sep, u);
    assert t[..|sep|] == sep && t[|sep|..] == u;
    hide DigitRun, Separator;
    DigitRunStops(hi, tail);
    assert u[..|hi|] == hi && u[|hi|..] == tail && u[|hi| + 1..] == rest;
  }

  lemma TakeCharSpelled(b: byte, rest: seq<byte>)
    requires WellFormed(Char(b))
    ensures Take([b] + rest) == Some(Taken(Char(b), rest))
  {
    assert ([b] + rest)[1..] == rest;
  }

  lemma TakeOneSpelled(run: seq<byte>, rest: seq<byte>)
    requires Digits(run)
    ensures Take([OPEN] + run + [CLOSE] + rest) == Some(Taken(One(run), rest))
  {
    hide Digits, Take;
    var t := [CLOSE] + rest;
    assert [OPEN] + run + [CLOSE] + rest == [OPEN] + run + t;
    TakeIndexSpelled(run, t);
    assert t[1..] == rest;
  }

  lemma TakeSpanSpelled(lo: seq<byte>, sep: seq<byte>, hi: seq<byte>, rest: seq<byte>)
    requires Digits(lo) && Separator(sep) && Digits(hi)
    ensures Take([OPEN] + lo + sep + hi + [CLOSE] + rest) == Some(Taken(Span(lo, sep, hi), rest))
  {
    hide Digits, Take, TakeTail;
    var t := sep + (hi + ([CLOSE] + rest));
    assert [OPEN] + lo + sep + hi + [CLOSE] + rest == [OPEN] + lo + t;
    assert !IsDigit(t[0]);
    TakeIndexSpelled(lo, t);
    TakeHiSpelled(lo, sep, hi, rest);
  }

  lemma TakeSpelled(x: Item, rest: seq<byte>)
    requires WellFormed(x)
    ensures Take(ItemBytes(x) + rest) == Some(Taken(x, rest))
  {
    hide Take, Digits, Separator;
    match x
    case Char(b) => TakeCharSpelled(b, rest);
    case One(run) => TakeOneSpelled(run, rest);
    case Span(lo, sep, hi) => TakeSpanSpelled(lo, sep, hi, rest);
  }

  /** Every spelling of well-formed items is read as those items. */
  lemma {:induction false} ItemsSpelled(xs: seq<Item>)
    requires forall i :: 0 <= i < |xs| ==> WellFormed(xs[i])
    ensures Items(Spell(xs)) == Some(xs)
  {
    hide Take, WellFormed, ItemBytes;
    if xs != [] {
      TakeSpelled(xs[0], Spell(xs[1..]));
      ItemsSpelled(xs[1..]);
      assert xs == [xs[0]] + xs[1..];
    }
  }

  // ------------------------------------------------------ format and ranges

  /** The format: plain bytes, and a slot for each range. */
  datatype Piece = Lit(b: byte) | Slot

  datatype Range = Range(lo: int, hi: int)

  datatype Plan = Plan(format: seq<Piece>, ranges: seq<Range>)

  function Lits(s: seq<byte>): (r: seq<Piece>)
    ensures |r| == |s| && forall i :: 0 <= i < |s| ==> r[i] == Lit(s[i])
  {
    seq(|s|, i requires 0 <= i < |s| => Lit(s[i]))
  }

  /** What one item adds; a range of one index is spelled out. */
  function AddItem(p: Plan, x: Item): (r: Option<Plan>)
    requires WellFormed(x)
  {
    match x
    case Char(b) => Some(Plan(p.format + [Lit(b)], p.ranges))
    case One(run) => Some(Plan(p.format + Lits([OPEN] + Decimal(Number(run)) + [CLOSE]), p.ranges))
    case Span(lo, _, hi) =>
      var a, b := Number(lo), Number(hi);
      if a > b then None
      else if a == b then Some(Plan(p.format + Lits([OPEN] + Decimal(a) + [CLOSE]), p.ranges))
      else if |p.ranges| >= MAX_IDX then None
      else Some(Plan(p.format + [Lit(OPEN), Slot, Lit(CLOSE)], p.ranges + [Range(a, b)]))
  }

  function Compile(p: Plan, xs: seq<Item>): (r: Option<Plan>)
    requires AllWellFormed(xs)
    decreases |xs|
  {
    if xs == [] then Some(p)
    else
      var q := AddItem(p, xs[0]);
      if q.None? then None else Compile(q.value, xs[1..])
  }

  /** What a whole description comes to. */
  function Meaning(desc: seq<byte>): Option<Plan> {
    var xs := Items(desc);
    if xs.None? then None else Compile(Plan([], []), xs.value)
  }

  /** The items that are ranges of more than one index. */
  function Wide(xs: seq<Item>): (w: seq<Item>)
    requires AllWellFormed(xs)
    ensures AllWellFormed(w) && forall i :: 0 <= i < |w| ==> !w[i].Char?
  {
    if xs == [] then []
    else (if !xs[0].Char? && Low(xs[0]) != High(xs[0]) then [xs[0]] else []) + Wide(xs[1..])
  }

  function RangesOf(w: seq<Item>): (r: seq<Range>)
    requires AllWellFormed(w) && forall i :: 0 <= i < |w| ==> !w[i].Char?
    ensures |r| == |w| && forall i :: 0 <= i < |w| ==> r[i] == Range(Low(w[i]), High(w[i]))
  {
    seq(|w|, i requires 0 <= i < |w| => Range(Low(w[i]), High(w[i])))
  }

  predicate Forward(xs: seq<Item>)
    requires AllWellFormed(xs)
  {
    forall i :: 0 <= i < |xs| && !xs[i].Char? ==> Low(xs[i]) <= High(xs[i])
  }

  /** What a description comes to: it has a meaning if and only if no range runs
      backwards and at most four are ranges proper, and these are its ranges. */
  lemma {:induction false} RangesOfItems(p: Plan, xs: seq<Item>)
    requires AllWellFormed(xs) && |p.ranges| <= 4
    ensures Compile(p, xs).Some? <==> Forward(xs) && |p.ranges| + |Wide(xs)| <= 4
    ensures Compile(p, xs).Some? ==> Compile(p, xs).value.ranges == p.ranges + RangesOf(Wide(xs))
    decreases |xs|
  {
    hide Low, High, Decimal, Lits, Number, AddItem, Wide, RangesOf, Forward, WellFormed;
    if xs == [] {
      NoneWide(p);
    } else {
      WideStep(xs, p);
      var q := AddItem(p, xs[0]);
      ItemAdds(p, xs[0]);
      if q.Some? { RangesOfItems(q.value, xs[1..]); }
    }
  }

  lemma NoneWide(p: Plan)
    ensures Wide([]) == [] && Forward([]) && p.ranges + RangesOf([]) == p.ranges
  {
  }

  /** Whether an item can be added, and the range it adds. */
  lemma ItemAdds(p: Plan, x: Item)
    requires WellFormed(x) && |p.ranges| <= 4
    ensures AddItem(p, x).Some? <==>
              x.Char? || (Low(x) <= High(x) && (Low(x) != High(x) ==> |p.ranges| < 4))
    ensures AddItem(p, x).Some? ==>
              AddItem(p, x).value.ranges == p.ranges + if !x.Char? && Low(x) != High(x) then [Range(Low(x), High(x))] else []
  {
    hide Decimal, Number, Low, High;
    if !x.Char? { RangeAdded(p, x); } else { assert p.ranges + [] == p.ranges; }
  }

  lemma WideStep(xs: seq<Item>, p: Plan)
    requires AllWellFormed(xs) && xs != []
    ensures var x := xs[0];
            var isWide := !x.Char? && Low(x) != High(x);
            && AllWellFormed(xs[1..])
            && (Forward(xs) <==> (!x.Char? ==> Low(x) <= High(x)) && Forward(xs[1..]))
            && |Wide(xs)| == |Wide(xs[1..])| + (if isWide then 1 else 0)
            && p.ranges + RangesOf(Wide(xs))
               == p.ranges + (if isWide then [Range(Low(x), High(x))] else []) + RangesOf(Wide(xs[1..]))
  {
    hide Low, High, WellFormed;
    assert forall i :: 1 <= i < |xs| ==> xs[i] == xs[1..][i - 1];
    assert forall i :: 0 <= i < |xs[1..]| ==> xs[1..][i] == xs[i + 1];
  }

  predicate Growing(ranges: seq<Range>) { forall i :: 0 <= i < |ranges| ==> ranges[i].lo < ranges[i].hi }

  // ----------------------------------------------------------- the odometer

  predicate Box(lo: seq<int>, hi: seq<int>) { |lo| == |hi| && forall i :: 0 <= i < |lo| ==> lo[i] < hi[i] }

  predicate InBox(lo: seq<int>, hi: seq<int>, t: seq<int>)
    requires Box(lo, hi)
  {
    |t| == |lo| && forall i :: 0 <= i < |t| ==> lo[i] <= t[i] <= hi[i]
  }

  function Times(a: int, b: int): int { a * b }

  /** How many tuples there are. */
  function Size(lo: seq<int>, hi: seq<int>): (n: int)
    requires Box(lo, hi)
    ensures n > 0
  {
    if lo == [] then 1
    else
      var k := |lo| - 1;
      var before, width := Size(lo[..k], hi[..k]), hi[k] - lo[k] + 1;
      assert before * width > 0;
      Times(before, width)
  }

  /** The place of a tuple when the last index runs fastest. */
  function Rank(lo: seq<int>, hi: seq<int>, t: seq<int>): int
    requires Box(lo, hi) && |t| == |lo|
  {
    if lo == [] then 0
    else
      var k := |lo| - 1;
      Times(Rank(lo[..k], hi[..k], t[..k]), hi[k] - lo[k] + 1) + (t[k] - lo[k])
  }

  lemma {:induction false} RankInRange(lo: seq<int>, hi: seq<int>, t: seq<int>)
    requires Box(lo, hi) && InBox(lo, hi, t)
    ensures 0 <= Rank(lo, hi, t) < Size(lo, hi)
  {
    if lo != [] {
      var k := |lo| - 1;
      RankInRange(lo[..k], hi[..k], t[..k]);
      var r, n, w := Rank(lo[..k], hi[..k], t[..k]), Size(lo[..k], hi[..k]), hi[k] - lo[k] + 1;
      TimesLess(r, n, w, t[k] - lo[k], 0);
      TimesLess(-1, r, w, w - 1, t[k] - lo[k]);
      assert Times(-1, w) + (w - 1) == -1;
    }
  }

  predicate LexLess(a: seq<int>, b: seq<int>) {
    exists k :: 0 <= k < |a| && k < |b| && LessAt(a, b, k)
  }

  predicate LessAt(a: seq<int>, b: seq<int>, k: nat)
    requires k < |a| && k < |b|
  {
    a[..k] == b[..k] && a[k] < b[k]
  }

  lemma TimesGrow(r: int, s: int, w: int)
    requires w > 0 && r < s
    ensures Times(r, w) + w <= Times(s, w)
  {
    assert Times(s, w) - Times(r, w) - w == (s - r - 1) * w >= 0;
  }

  lemma TimesLess(r: int, s: int, w: int, x: int, y: int)
    requires w > 0 && 0 <= x < w && 0 <= y < w
    ensures Times(r, w) + x < Times(s, w) + y <==> r < s || (r == s && x < y)
  {
    hide Times;
    if r < s { TimesGrow(r, s, w); }
    if s < r { TimesGrow(s, r, w); }
  }

  /** Ranks are in lexicographic order, so no two tuples share one. */
  lemma {:induction false} RankIsLexicographic(lo: seq<int>, hi: seq<int>, a: seq<int>, b: seq<int>)
    requires Box(lo, hi) && InBox(lo, hi, a) && InBox(lo, hi, b)
    ensures Rank(lo, hi, a) < Rank(lo, hi, b) <==> LexLess(a, b)
    ensures Rank(lo, hi, a) == Rank(lo, hi, b) <==> a == b
  {
    if lo == [] {
    } else {
      var k := |lo| - 1;
      RankIsLexicographic(lo[..k], hi[..k], a[..k], b[..k]);
      var r, s, w := Rank(lo[..k], hi[..k], a[..k]), Rank(lo[..k], hi[..k], b[..k]), hi[k] - lo[k] + 1;
      TimesLess(r, s, w, a[k] - lo[k], b[k] - lo[k]);
      TimesLess(s, r, w, b[k] - lo[k], a[k] - lo[k]);
      LexSplit(a, b);
      assert a == a[..k] + [a[k]] && b == b[..k] + [b[k]];
    }
  }

  lemma LexSplit(a: seq<int>, b: seq<int>)
    requires |a| == |b| > 0
    ensures var k := |a| - 1; LexLess(a, b) <==> LexLess(a[..k], b[..k]) || (a[..k] == b[..k] && a[k] < b[k])
  {
    var k := |a| - 1;
    if LexLess(a, b) {
      var j :| 0 <= j < |a| && j < |b| && LessAt(a, b, j);
      if j < k { assert a[..k][..j] == a[..j] && b[..k][..j] == b[..j]; assert LessAt(a[..k], b[..k], j); }
    }
    if LexLess(a[..k], b[..k]) {
      var j :| 0 <= j < k && LessAt(a[..k], b[..k], j);
      assert a[..k][..j] == a[..j] && b[..k][..j] == b[..j];
      assert LessAt(a, b, j);
    }
    if a[..k] == b[..k] && a[k] < b[k] { assert LessAt(a, b, k); }
  }

  /** One turn: the last index moves on; one that passes its end starts again and
      moves the one before it, but the first is left past its end. */
  function Succ(lo: seq<int>, hi: seq<int>, t: seq<int>): (r: seq<int>)
    requires Box(lo, hi) && |t| == |lo|
    ensures |r| == |t|
  {
    if t == [] then []
    else
      var k := |t| - 1;
      if t[k] + 1 <= hi[k] || k == 0 then t[..k] + [t[k] + 1]
      else Succ(lo[..k], hi[..k], t[..k]) + [lo[k]]
  }

  /** Where the odometer stands between turns: in the box, or just before it. */
  predicate Standing(lo: seq<int>, hi: seq<int>, t: seq<int>)
    requires Box(lo, hi)
  {
    && |t| == |lo| > 0
    && (forall i :: 0 <= i < |t| - 1 ==> lo[i] <= t[i] <= hi[i])
    && lo[|t| - 1] - 1 <= t[|t| - 1] <= hi[|t| - 1]
  }

  lemma {:induction false} RankStep(lo: seq<int>, hi: seq<int>, t: seq<int>)
    requires Box(lo, hi) && |t| == |lo| > 0
    ensures var k := |lo| - 1;
            && Rank(lo, hi, t) == Times(Rank(lo[..k], hi[..k], t[..k]), hi[k] - lo[k] + 1) + (t[k] - lo[k])
            && Size(lo, hi) == Times(Size(lo[..k], hi[..k]), hi[k] - lo[k] + 1)
  {
  }

  /** A turn raises the rank by one, and it leaves the box only at its end. */
  lemma {:induction false} TurnRaisesRank(lo: seq<int>, hi: seq<int>, t: seq<int>)
    requires Box(lo, hi) && Standing(lo, hi, t)
    ensures Rank(lo, hi, Succ(lo, hi, t)) == Rank(lo, hi, t) + 1
    ensures InBox(lo, hi, Succ(lo, hi, t)) || (Succ(lo, hi, t)[0] > hi[0] && Rank(lo, hi, t) + 1 == Size(lo, hi))
  {
    hide Times, Rank, Size, Succ;
    var k := |t| - 1;
    var s, w := Succ(lo, hi, t), hi[k] - lo[k] + 1;
    SuccStep(lo, hi, t);
    RankStep(lo, hi, t);
    RankStep(lo, hi, s);
    if k == 0 {
      assert t[..0] == s[..0];
      EmptyRank(lo[..0], hi[..0], t[..0]);
      TimesFew(w);
    } else if t[k] + 1 <= hi[k] {
      assert s[..k] == t[..k];
    } else {
      TurnRaisesRank(lo[..k], hi[..k], t[..k]);
      assert s[..k] == Succ(lo[..k], hi[..k], t[..k]);
      TimesOneMore(Rank(lo[..k], hi[..k], t[..k]), w);
    }
  }

  lemma EmptyRank(lo: seq<int>, hi: seq<int>, t: seq<int>)
    requires |lo| == |hi| == |t| == 0
    ensures Rank(lo, hi, t) == 0 && Size(lo, hi) == 1
  {
  }

  lemma TimesFew(w: int)
    ensures Times(0, w) == 0 && Times(1, w) == w
  {
  }

  lemma TimesOneMore(r: int, w: int)
    ensures Times(r + 1, w) == Times(r, w) + w
  {
  }

  function Lows(ranges: seq<Range>): (r: seq<int>)
    ensures |r| == |ranges| && forall i :: 0 <= i < |r| ==> r[i] == ranges[i].lo
  {
    seq(|ranges|, i requires 0 <= i < |ranges| => ranges[i].lo)
  }

  function Highs(ranges: seq<Range>): (r: seq<int>)
    ensures |r| == |ranges| && forall i :: 0 <= i < |r| ==> r[i] == ranges[i].hi
  {
    seq(|ranges|, i requires 0 <= i < |ranges| => ranges[i].hi)
  }

  // ------------------------------------------------------------ names

  function Slots(format: seq<Piece>): nat {
    if format == [] then 0 else (if format[0].Slot? then 1 else 0) + Slots(format[1..])
  }

  /** %d */
  function Show(i: int): seq<byte> {
    if i < 0 then [DASH] + Decimal(-i) else Decimal(i)
  }

  /** What is printed for an index is read as that index. */
  lemma ShowMeans(i: nat)
    ensures Show(i) != [] && AllDigits(Show(i)) && Number(Show(i)) == i
  {
    NumberOfDecimal(i);
  }

  /** sprintf(format, ...) */
  function Fill(format: seq<Piece>, t: seq<int>): seq<byte> {
    if format == [] then []
    else if format[0].Lit? then [format[0].b] + Fill(format[1..], t)
    else if t == [] then Fill(format[1..], t)
    else Show(t[0]) + Fill(format[1..], t[1..])
  }

  /** A description with every range replaced by an index out of t. */
  function Expand(xs: seq<Item>, t: seq<int>): seq<byte>
    requires AllWellFormed(xs)
  {
    if xs == [] then []
    else
      match xs[0]
      case Char(b) => [b] + Expand(xs[1..], t)
      case One(run) => [OPEN] + Decimal(Number(run)) + [CLOSE] + Expand(xs[1..], t)
      case Span(lo, _, hi) =>
        if Number(lo) == Number(hi) then [OPEN] + Decimal(Number(lo)) + [CLOSE] + Expand(xs[1..], t)
        else if t == [] then []
        else [OPEN] + Show(t[0]) + [CLOSE] + Expand(xs[1..], t[1..])
  }

  lemma {:induction false} FillTwo(f: seq<Piece>, g: seq<Piece>, t: seq<int>, u: seq<int>)
    requires Slots(f) == |t|
    ensures Slots(f + g) == |t| + Slots(g) && Fill(f + g, t + u) == Fill(f, t) + Fill(g, u)
  {
    hide Show;
    if f == [] {
      assert f + g == g && t + u == u;
    } else {
      assert (f + g)[1..] == f[1..] + g;
      if f[0].Lit? {
        FillTwo(f[1..], g, t, u);
      } else {
        assert (t + u)[1..] == t[1..] + u;
        FillTwo(f[1..], g, t[1..], u);
      }
    }
  }

  lemma {:induction false} FillLits(s: seq<byte>)
    ensures Slots(Lits(s)) == 0 && Fill(Lits(s), []) == s
  {
    if s != [] {
      assert Lits(s)[1..] == Lits(s[1..]);
      FillLits(s[1..]);
    }
  }

  lemma FillBracketed(i: int)
    ensures var f := [Lit(OPEN), Slot, Lit(CLOSE)]; Slots(f) == 1 && Fill(f, [i]) == [OPEN] + Show(i) + [CLOSE]
  {
    hide Show;
    var f := [Lit(OPEN), Slot, Lit(CLOSE)];
    assert f[1..] == [Slot, Lit(CLOSE)] && f[1..][1..] == [Lit(CLOSE)] && [Lit(CLOSE)][1..] == [];
    assert [i][1..] == [];
    assert Fill([Lit(CLOSE)], []) == [CLOSE];
    assert Slots([Lit(CLOSE)]) == 0;
  }

  lemma FillOneLit(b: byte)
    ensures Slots([Lit(b)]) == 0 && Fill([Lit(b)], []) == [b]
  {
    assert [Lit(b)][1..] == [];
  }

  /** The name made for a tuple is the description with the tuple's indexes put
      for its ranges. */
  lemma {:induction false} NamesExpand(p: Plan, xs: seq<Item>, t: seq<int>, u: seq<int>)
    requires AllWellFormed(xs) && Compile(p, xs).Some?
    requires Slots(p.format) == |p.ranges| == |t| && |Compile(p, xs).value.ranges| == |t| + |u|
    ensures Slots(Compile(p, xs).value.format) == |t| + |u|
    ensures Fill(Compile(p, xs).value.format, t + u) == Fill(p.format, t) + Expand(xs, u)
    decreases |xs|
  {
    hide Decimal, Number, Fill, Slots, Lits, Show, Added, AddItem, Expand;
    if xs == [] {
      ExpandNothing(u);
      assert t + u == t;
    } else {
      var x, q := xs[0], AddItem(p, xs[0]).value;
      RangesGrow(q, xs[1..]);
      FillAdded(p, x, t, 0);
      ExpandStep(xs, u);
      var base := Fill(p.format, t);
      if |q.ranges| == |p.ranges| {
        NamesExpand(q, xs[1..], t, u);
        Regroup(base, Added(x, 0), Expand(xs[1..], u));
        AddedPlain(x, 0, if u == [] then 0 else u[0]);
      } else {
        FillAdded(p, x, t, u[0]);
        assert (t + [u[0]]) + u[1..] == t + u;
        NamesExpand(q, xs[1..], t + [u[0]], u[1..]);
        Regroup(base, Added(x, u[0]), Expand(xs[1..], u[1..]));
      }
    }
  }

  lemma AddedPlain(x: Item, i: int, j: int)
    requires WellFormed(x) && (x.Char? || Low(x) == High(x))
    ensures Added(x, i) == Added(x, j)
  {
  }

  /** Every name sent for a description is the description with indexes put for
      its ranges. */
  lemma NamesOfDescription(desc: seq<byte>, t: seq<int>)
    requires Meaning(desc).Some? && |t| == |Meaning(desc).value.ranges|
    ensures Items(desc).Some? && Spell(Items(desc).value) == desc
    ensures Fill(Meaning(desc).value.format, t) == Expand(Items(desc).value, t)
  {
    hide Fill, Items, Spell, Compile, Expand;
    ItemsPrint(desc);
    NoSlots();
    NamesExpand(Plan([], []), Items(desc).value, [], t);
    assert [] + t == t && [] + Expand(Items(desc).value, t) == Expand(Items(desc).value, t);
  }

  lemma NoSlots()
    ensures Slots([]) == 0 && Fill([], []) == []
  {
  }

  /** What an item adds to a name: its own text, or the next index. */
  function Added(x: Item, i: int): seq<byte>
    requires WellFormed(x)
  {
    if x.Char? then [x.b]
    else if Low(x) == High(x) then [OPEN] + Decimal(Low(x)) + [CLOSE]
    else [OPEN] + Show(i) + [CLOSE]
  }

  lemma ExpandNothing(u: seq<int>)
    ensures Expand([], u) == []
  {
  }

  lemma ExpandStep(xs: seq<Item>, u: seq<int>)
    requires AllWellFormed(xs) && xs != []
    requires !xs[0].Char? && Low(xs[0]) != High(xs[0]) ==> u != []
    ensures Expand(xs, u) == Added(xs[0], if u == [] then 0 else u[0])
                             + Expand(xs[1..], if !xs[0].Char? && Low(xs[0]) != High(xs[0]) then u[1..] else u)
  {
    hide Decimal, Number, Show;
  }

  lemma FillAdded(p: Plan, x: Item, t: seq<int>, i: int)
    requires WellFormed(x) && AddItem(p, x).Some? && Slots(p.format) == |t|
    ensures var q, isRange := AddItem(p, x).value, !x.Char? && Low(x) != High(x);
            var more := if isRange then [i] else [];
            && |q.ranges| == |p.ranges| + |more| && (|more| == 1 <==> isRange)
            && Slots(q.format) == |t| + |more| && Fill(q.format, t + more) == Fill(p.format, t) + Added(x, i)
            && (!isRange ==> t + more == t)
  {
    hide Decimal, Number, Fill, Slots, Lits, Show;
    if x.Char? {
      FillOneLit(x.b);
      FillTwo(p.format, [Lit(x.b)], t, []);
    } else if Low(x) == High(x) {
      var added := [OPEN] + Decimal(Low(x)) + [CLOSE];
      FillLits(added);
      FillTwo(p.format, Lits(added), t, []);
    } else {
      FillBracketed(i);
      FillTwo(p.format, [Lit(OPEN), Slot, Lit(CLOSE)], t, [i]);
    }
  }

  lemma {:induction false} RangesGrow(p: Plan, xs: seq<Item>)
    requires AllWellFormed(xs) && Compile(p, xs).Some?
    ensures |Compile(p, xs).value.ranges| >= |p.ranges|
    decreases |xs|
  {
    hide Decimal, Number, Lits;
    if xs != [] { RangesGrow(AddItem(p, xs[0]).value, xs[1..]); }
  }

  /** The tuples sent so far: one of each rank, in the order of their ranks. */
  ghost predicate InOrder(lo: seq<int>, hi: seq<int>, sent: seq<seq<int>>) {
    Box(lo, hi) && forall k :: 0 <= k < |sent| ==> InBox(lo, hi, sent[k]) && Rank(lo, hi, sent[k]) == k
  }

  /** When as many have been sent as there are, every tuple of the box has been
      sent, just once, and the order was lexicographic. */
  lemma AllOnce(lo: seq<int>, hi: seq<int>, sent: seq<seq<int>>)
    requires InOrder(lo, hi, sent)
    ensures |sent| <= Size(lo, hi)
    ensures forall j, k :: 0 <= j < k < |sent| ==> LexLess(sent[j], sent[k]) && sent[j] != sent[k]
    ensures |sent| == Size(lo, hi) ==> forall t :: InBox(lo, hi, t) ==> t in sent
  {
    hide Rank, Size, LexLess;
    if sent != [] { RankInRange(lo, hi, sent[|sent| - 1]); }
    forall j, k | 0 <= j < k < |sent| ensures LexLess(sent[j], sent[k]) && sent[j] != sent[k] {
      RankIsLexicographic(lo, hi, sent[j], sent[k]);
    }
    if |sent| == Size(lo, hi) {
      forall t | InBox(lo, hi, t) ensures t in sent {
        RankInRange(lo, hi, t);
        RankIsLexicographic(lo, hi, t, sent[Rank(lo, hi, t)]);
      }
    }
  }

  /** What the view makes of a name: it refuses it, is done with it at once, or
      will answer later. */
  datatype Reply = Refused | DoneOk | DoneError | Pending(no: int)

  /** What comes in while a name is waited for: the end of an operation, by its
      number, or the user's wish to stop. */
  datatype Event = Answer(no: int, ok: bool) | Abort

  datatype End = Inactive | Waiting | Finished | Cancelled

  /** How the round goes after a reply; Inactive stands for going on. */
  predicate Ends(e: End, r: Reply) {
    match e
    case Inactive => r == DoneOk
    case Waiting => r.Pending?
    case Finished => false
    case Cancelled => r == Refused || r == DoneError
  }

  /** The names from the `from`-th up to the `upTo`-th were done with at once. */
  ghost predicate AllDone(reply: (nat, seq<byte>) -> Reply, format: seq<Piece>, sent: seq<seq<int>>, from: nat, upTo: int) {
    forall k: nat :: from <= k < upTo && k < |sent| ==> reply(k, Fill(format, sent[k])) == DoneOk
  }

  lemma NoneDone(reply: (nat, seq<byte>) -> Reply, format: seq<Piece>, sent: seq<seq<int>>)
    ensures AllDone(reply, format, sent, |sent|, |sent|) && sent[..|sent|] == sent
  {
  }

  lemma FedOneMore(reply: (nat, seq<byte>) -> Reply, format: seq<Piece>, was: seq<seq<int>>, from: nat, sent: seq<seq<int>>)
    requires AllDone(reply, format, was, from, |was|) && from <= |was|
    requires sent == was || (|sent| == |was| + 1 && sent == was + [sent[|was|]])
    ensures sent[..from] == was[..from] && AllDone(reply, format, sent, from, |was|) && AllDone(reply, format, sent, from, |was| - 1)
    ensures |sent| > |was| && Ends(Inactive, reply(|was|, Fill(format, sent[|was|]))) ==> AllDone(reply, format, sent, from, |sent|)
  {
    hide Fill;
  }

  /** The first event that ends the waiting for operation no, or none of them. */
  function Await(events: seq<Event>, no: int): (i: nat)
    ensures i <= |events|
    ensures i < |events| ==> events[i] == Abort || events[i].no == no
    ensures forall j :: 0 <= j < i ==> events[j].Answer? && events[j].no != no
  {
    if events == [] || events[0] == Abort || events[0].no == no then 0 else 1 + Await(events[1..], no)
  }

  /** What becomes of a run with a name and what comes in after it: it goes on with
      the events that are left, or stops. */
  datatype Course = Go(rest: seq<Event>) | Stop(e: End)

  function CourseOf(r: Reply, events: seq<Event>): (c: Course)
    ensures c.Go? ==> |c.rest| <= |events|
    ensures c.Stop? ==> c.e in {Waiting, Cancelled}
  {
    match r
    case DoneOk => Go(events)
    case Pending(no) =>
      var i := Await(events, no);
      if i == |events| then Stop(Waiting) else if events[i] == Answer(no, true) then Go(events[i + 1..]) else Stop(Cancelled)
    case _ => Stop(Cancelled)
  }

  /** A whole run explained: from the k-th name on, a name follows only when the
      one before it was done with at once or answered OK; e is what the last name
      came to, or Finished where no name follows. */
  ghost predicate Explains(reply: (nat, seq<byte>) -> Reply, format: seq<Piece>, sent: seq<seq<int>>, k: nat, events: seq<Event>, e: End)
    requires k <= |sent|
    decreases |sent| - k
  {
    if k == |sent| then e == Finished
    else
      match CourseOf(reply(k, Fill(format, sent[k])), events)
      case Go(rest) => Explains(reply, format, sent, k + 1, rest, e)
      case Stop(x) => e == x && k + 1 == |sent|
  }

  /** The k-th name was done with at once, or its operation was answered OK. */
  ghost predicate Accepted(reply: (nat, seq<byte>) -> Reply, format: seq<Piece>, sent: seq<seq<int>>, k: nat, events: seq<Event>)
    requires k < |sent|
  {
    var r := reply(k, Fill(format, sent[k]));
    r == DoneOk || (r.Pending? && Answer(r.no, true) in events)
  }

  /** Every name but the last was accepted, and a run comes to its end only when
      the last was, too. */
  lemma {:induction false} FollowersAreAccepted(reply: (nat, seq<byte>) -> Reply, format: seq<Piece>, sent: seq<seq<int>>, k: nat,
                                                events: seq<Event>, e: End)
    requires k <= |sent| && Explains(reply, format, sent, k, events, e)
    ensures forall j: nat :: k <= j < |sent| && (j + 1 < |sent| || e == Finished) ==> Accepted(reply, format, sent, j, events)
    decreases |sent| - k
  {
    hide Fill, CourseOf;
    if k < |sent| && (k + 1 < |sent| || e == Finished) {
      var r := reply(k, Fill(format, sent[k]));
      var rest := CourseOf(r, events).rest;
      GoesOn(r, events);
      FollowersAreAccepted(reply, format, sent, k + 1, rest, e);
      forall j: nat | k < j < |sent| && (j + 1 < |sent| || e == Finished) ensures Accepted(reply, format, sent, j, events) {
        assert Accepted(reply, format, sent, j, rest);
      }
    }
  }

  lemma GoesOn(r: Reply, events: seq<Event>)
    requires CourseOf(r, events).Go?
    ensures r == DoneOk || (r.Pending? && Answer(r.no, true) in events)
    ensures forall a :: a in CourseOf(r, events).rest ==> a in events
  {
    hide Await;
  }

  lemma SameAt(lo: seq<int>, hi: seq<int>, s: seq<seq<int>>, t: seq<seq<int>>, k: nat)
    requires InOrder(lo, hi, s) && InOrder(lo, hi, t) && k < |s| && k < |t| && s[..k] == t[..k]
    ensures s[k] == t[k] && s[..k + 1] == t[..k + 1]
  {
    hide Rank, LexLess, InBox, Box;
    RankIsLexicographic(lo, hi, s[k], t[k]);
    assert s[..k + 1] == s[..k] + [s[k]] && t[..k + 1] == t[..k] + [t[k]];
  }

  lemma NotTooMany(lo: seq<int>, hi: seq<int>, sent: seq<seq<int>>)
    requires InOrder(lo, hi, sent)
    ensures |sent| <= Size(lo, hi)
  {
    hide *;
    AllOnce(lo, hi, sent);
  }

  lemma SameUpTo<T>(s: seq<T>, t: seq<T>, k: nat)
    requires k == |s| == |t| && s[..k] == t[..k]
    ensures s == t
  {
    assert s == s[..k] && t == t[..k];
  }

  /** Replies and events determine the names sent and the end of a run. */
  lemma {:induction false} RunIsDetermined(lo: seq<int>, hi: seq<int>, reply: (nat, seq<byte>) -> Reply, format: seq<Piece>,
                                           s: seq<seq<int>>, t: seq<seq<int>>, k: nat, events: seq<Event>, e: End, f: End)
    requires InOrder(lo, hi, s) && InOrder(lo, hi, t) && k <= |s| && k <= |t| && s[..k] == t[..k]
    requires Explains(reply, format, s, k, events, e) && (e == Finished ==> |s| == Size(lo, hi))
    requires Explains(reply, format, t, k, events, f) && (f == Finished ==> |t| == Size(lo, hi))
    ensures s == t && e == f
    decreases |s| - k
  {
    hide Fill, Size, CourseOf, InOrder;
    NotTooMany(lo, hi, s);
    NotTooMany(lo, hi, t);
    if k == |s| || k == |t| {
      SameUpTo(s, t, k);
    } else {
      SameAt(lo, hi, s, t, k);
      var c := CourseOf(reply(k, Fill(format, s[k])), events);
      if c.Go? {
        RunIsDetermined(lo, hi, reply, format, s, t, k + 1, c.rest, e, f);
      } else {
        SameUpTo(s, t, k + 1);
      }
    }
  }

  /** One call of next() explains the names it sent. */
  lemma {:induction false} CallExplained(reply: (nat, seq<byte>) -> Reply, format: seq<Piece>, sent: seq<seq<int>>, k: nat, e: End)
    requires k <= |sent| && e != Inactive
    requires AllDone(reply, format, sent, k, if e == Finished then |sent| else |sent| - 1)
    requires e != Finished ==> k < |sent| && Ends(e, reply(|sent| - 1, Fill(format, sent[|sent| - 1])))
    ensures Explains(reply, format, sent, k, [], e)
    decreases |sent| - k
  {
    hide Fill;
    if k < |sent| && (k + 1 < |sent| || e == Finished) {
      assert reply(k, Fill(format, sent[k])) == DoneOk;
      CallExplained(reply, format, sent, k + 1, e);
    }
  }

  lemma {:induction false} AwaitOneMore(events: seq<Event>, no: int, a: Event)
    ensures var i, j := Await(events, no), Await(events + [a], no);
            if i < |events| then j == i
            else if a == Abort || a.no == no then j == |events| else j == |events| + 1
    decreases |events|
  {
    if events != [] && events[0] != Abort && events[0].no != no {
      assert (events + [a])[1..] == events[1..] + [a];
      AwaitOneMore(events[1..], no, a);
    } else if events == [] {
      assert (events + [a])[1..] == [];
    }
  }

  /** One more event at the end matters only to a name still waited for. */
  lemma CourseOneMore(r: Reply, events: seq<Event>, a: Event)
    ensures var c, d := CourseOf(r, events), CourseOf(r, events + [a]);
            match c
            case Go(rest) => d == Go(rest + [a])
            case Stop(e) =>
              if e == Cancelled then d == c
              else r.Pending? && d == if a == Answer(r.no, true) then Go([]) else if a == Abort || a.no == r.no then Stop(Cancelled) else c
  {
    hide Await;
    if r.Pending? {
      AwaitOneMore(events, r.no, a);
      var i := Await(events, r.no);
      if i < |events| {
        assert (events + [a])[i + 1..] == events[i + 1..] + [a];
      } else {
        assert (events + [a])[|events| + 1..] == [];
      }
    }
  }

  /** What one more event makes of a run that waits: it goes on waiting, is
      cancelled, or more names have been sent. */
  lemma {:induction false} EventExplained(reply: (nat, seq<byte>) -> Reply, format: seq<Piece>, was: seq<seq<int>>, sent: seq<seq<int>>, k: nat,
                                          events: seq<Event>, a: Event, no: int, e: End)
    requires k < |was| <= |sent| && sent[..|was|] == was && Explains(reply, format, was, k, events, Waiting)
    requires reply(|was| - 1, Fill(format, was[|was| - 1])) == Pending(no)
    requires if a.Answer? && a.no != no then sent == was && e == Waiting
             else if a.Answer? && a.ok then Explains(reply, format, sent, |was|, [], e)
             else sent == was && e == Cancelled
    ensures Explains(reply, format, sent, k, events + [a], e)
    decreases |was| - k
  {
    hide Fill, CourseOf;
    assert was[k] == sent[..|was|][k];
    var r := reply(k, Fill(format, was[k]));
    CourseOneMore(r, events, a);
    var c := CourseOf(r, events);
    if c.Go? {
      EventExplained(reply, format, was, sent, k + 1, c.rest, a, no, e);
    }
  }

  /** A run that no longer waits is not changed by what still comes in. */
  lemma {:induction false} OverIsOver(reply: (nat, seq<byte>) -> Reply, format: seq<Piece>, sent: seq<seq<int>>, k: nat,
                                      events: seq<Event>, a: Event, e: End)
    requires k <= |sent| && Explains(reply, format, sent, k, events, e) && e != Waiting
    ensures Explains(reply, format, sent, k, events + [a], e)
    decreases |sent| - k
  {
    hide Fill, CourseOf;
    if k < |sent| {
      var r := reply(k, Fill(format, sent[k]));
      CourseOneMore(r, events, a);
      var c := CourseOf(r, events);
      if c.Go? {
        OverIsOver(reply, format, sent, k + 1, c.rest, a, e);
      }
    }
  }

  class Repeater {
    var active: bool
    var curNo: int                // the operation waited for
    var format: seq<Piece>
    var idxNum: nat
    var idxCur: array<int>
    var idxMin: array<int>
    var idxMax: array<int>
    var sent: seq<seq<int>>       // the index tuples whose names the view was given

    ghost predicate Valid()
      reads this, idxMin, idxMax
    {
      && idxCur.Length == idxMin.Length == idxMax.Length == MAX_IDX
      && idxCur != idxMin && idxMin != idxMax && idxMax != idxCur
      && idxNum <= MAX_IDX && Box(idxMin[..idxNum], idxMax[..idxNum])
    }

    /** The odometer stands at the tuple sent last, or just before the first. */
    ghost predicate Running()
      reads this, idxCur, idxMin, idxMax
    {
      && Valid() && idxNum > 0
      && Standing(idxMin[..idxNum], idxMax[..idxNum], idxCur[..idxNum])
      && InOrder(idxMin[..idxNum], idxMax[..idxNum], sent)
      && Rank(idxMin[..idxNum], idxMax[..idxNum], idxCur[..idxNum]) == |sent| - 1
    }

    constructor ()
      ensures Valid() && !active && fresh(idxCur) && fresh(idxMin) && fresh(idxMax)
    {
      active, curNo, format, idxNum := false, 0, [], 0;
      idxCur, idxMin, idxMax := new int[MAX_IDX](_ => 0), new int[MAX_IDX](_ => 0), new int[MAX_IDX](_ => 0);
      sent := [];
    }

    /** The loop of next(): one turn of the odometer. */
    method Turn()
      requires Valid() && idxNum > 0
      modifies idxCur
      ensures idxCur[..idxNum] == Succ(idxMin[..idxNum], idxMax[..idxNum], old(idxCur[..idxNum]))
    {
      hide Box, Succ, Carrying;
      ghost var lo, hi, was := idxMin[..idxNum], idxMax[..idxNum], idxCur[..idxNum];
      var i := idxNum - 1;
      CarryStart(lo, hi, was);
      while i >= 0
        invariant -1 <= i < idxNum
        invariant if i >= 0 then Carrying(lo, hi, was, idxCur[..idxNum], i) else idxCur[..idxNum] == Succ(lo, hi, was)
      {
        ghost var cur := idxCur[..idxNum];
        CarryOn(lo, hi, was, cur, i);
        idxCur[i] := idxCur[i] + 1;
        assert idxCur[..idxNum] == cur[i := cur[i] + 1];
        if idxCur[i] <= idxMax[i] { break; }
        if i > 0 {
          idxCur[i] := idxMin[i];
          assert idxCur[..idxNum] == cur[i := lo[i]];
        }
        i := i - 1;
      }
    }

    /** parse(): read the description into the format and the ranges. A check only
        says whether this is a repeater at all; errors in one show up later. */
    method Parse(desc: seq<byte>, onlyCheck: bool) returns (ok: bool)
      requires Valid() && 0 !in desc
      modifies this`format, this`idxNum, this`sent, idxCur, idxMin, idxMax
      ensures Valid()
      ensures onlyCheck ==> ok == (Meaning(desc).None? || Meaning(desc).value.ranges != [])
      ensures !onlyCheck ==> ok == Meaning(desc).Some?
      ensures !onlyCheck && ok ==>
        && format == Meaning(desc).value.format && idxNum == |Meaning(desc).value.ranges| && sent == []
        && (forall i :: 0 <= i < idxNum ==> Range(idxMin[i], idxMax[i]) == Meaning(desc).value.ranges[i])
        && (idxNum > 0 ==> Running())
      ensures onlyCheck || !ok ==> format == old(format) && idxNum == old(idxNum)
    {
      hide Items, Compile, Take, AddItem, MeaningFrom, Meaning, Rank, Standing, Decimal, Number;
      var p, i := 0, 0;
      var fmt: seq<Piece> := [];
      ghost var plan := Plan([], []);
      MeaningStart(desc);
      while p < |desc|
        invariant p <= |desc| && Meaning(desc) == MeaningFrom(plan, desc[p..])
        invariant fmt == plan.format && i == |plan.ranges| <= MAX_IDX && Growing(plan.ranges)
        invariant !onlyCheck ==> forall j :: 0 <= j < i ==> Range(idxMin[j], idxMax[j]) == plan.ranges[j]
        invariant Valid() && format == old(format) && idxNum == old(idxNum)
      {
        MeaningStep(plan, desc[p..]);
        if desc[p] != OPEN {
          PlainTaken(plan, desc[p..]);
          if desc[p] == QUESTION || desc[p] == COLON { return onlyCheck; }
          fmt := fmt + [Lit(desc[p])];
          p := p + 1;
          plan := Plan(fmt, plan.ranges);
          continue;
        }
        ghost var here := desc[p..];
        var imin, imax;
        ok, imin, imax, p := ParseIndex(desc, p);
        if !ok { return onlyCheck; }
        RangeAdded(plan, Take(here).value.item);
        if imin > imax { return onlyCheck; }
        if imin == imax {
          fmt := fmt + Lits([OPEN] + Decimal(imin) + [CLOSE]);
          plan := Plan(fmt, plan.ranges);
          continue;
        }
        if i >= MAX_IDX { return onlyCheck; }
        if !onlyCheck { idxMin[i], idxMax[i] := imin, imax; }
        i := i + 1;
        fmt := fmt + [Lit(OPEN), Slot, Lit(CLOSE)];
        plan := Plan(fmt, plan.ranges + [Range(imin, imax)]);
      }
      assert desc[p..] == [];
      MeaningEnd(plan);
      if onlyCheck { return i > 0; }
      format, idxNum, sent := fmt, i, [];
      SetUp();
      ok := true;
    }

    /** next(): names are sent until one has to be waited for, one goes wrong, or
        the last tuple has been sent. */
    method Next(reply: (nat, seq<byte>) -> Reply) returns (e: End)
      requires Valid() && (active ==> Running())
      modifies this`active, this`curNo, this`sent, idxCur
      ensures Valid() && (active ==> Running())
      ensures !old(active) ==> e == Inactive && sent == old(sent) && !active
      ensures old(active) ==> |old(sent)| <= |sent| && sent[..|old(sent)|] == old(sent) && InOrder(Ranges().0, Ranges().1, sent)
      ensures old(active) ==> e != Inactive && active == (e == Waiting)
      ensures e == Finished ==> |sent| == Size(Ranges().0, Ranges().1)
      ensures Ranges() == old(Ranges())
      ensures e in {Waiting, Cancelled} ==> |sent| > |old(sent)| && Ends(e, reply(|sent| - 1, Fill(format, sent[|sent| - 1])))
      ensures AllDone(reply, format, sent, |old(sent)|, if e == Finished then |sent| else |sent| - 1)
      ensures e == Waiting ==> reply(|sent| - 1, Fill(format, sent[|sent| - 1])) == Pending(curNo)
      ensures e in {Finished, Waiting, Cancelled} ==> old(active)
    {
      if !active { return Inactive; }
      hide *;
      e := Rounds(reply);
    }

    /** The loop of next(). */
    method Rounds(reply: (nat, seq<byte>) -> Reply) returns (e: End)
      requires active && Running()
      modifies this`active, this`curNo, this`sent, idxCur
      ensures Valid() && (active ==> Running()) && e != Inactive && active == (e == Waiting)
      ensures Ranges() == old(Ranges()) && InOrder(Ranges().0, Ranges().1, sent)
      ensures |old(sent)| <= |sent| && sent[..|old(sent)|] == old(sent)
      ensures e == Finished ==> |sent| == Size(Ranges().0, Ranges().1)
      ensures e != Finished ==> |sent| > |old(sent)| && Ends(e, reply(|sent| - 1, Fill(format, sent[|sent| - 1])))
      ensures AllDone(reply, format, sent, |old(sent)|, if e == Finished then |sent| else |sent| - 1)
      ensures e == Waiting ==> reply(|sent| - 1, Fill(format, sent[|sent| - 1])) == Pending(curNo)
    {
      hide *;
      e := Inactive;
      NoneDone(reply, format, sent);
      RunningParts();
      ghost var (lo, hi) := Ranges();
      ghost var from := |sent|;
      while e == Inactive
        invariant Valid() && Ranges() == (lo, hi) && InOrder(lo, hi, sent) && from <= |sent| && sent[..from] == old(sent)
        invariant active == (e in {Inactive, Waiting}) && (active ==> Running())
        invariant AllDone(reply, format, sent, from, if e in {Inactive, Finished} then |sent| else |sent| - 1)
        invariant e == Finished ==> |sent| == Size(lo, hi)
        invariant e in {Waiting, Cancelled} ==> |sent| > from && Ends(e, reply(|sent| - 1, Fill(format, sent[|sent| - 1])))
        invariant e == Waiting ==> reply(|sent| - 1, Fill(format, sent[|sent| - 1])) == Pending(curNo)
        decreases e == Inactive, Size(lo, hi) - |sent|
      {
        ghost var was := sent;
        RunningParts();
        e := Feed(reply);
        FedOneMore(reply, format, was, from, sent);
      }
    }

    /** One round: the next name, if there is one, and what the view says to it. */
    method Feed(reply: (nat, seq<byte>) -> Reply) returns (e: End)
      requires Running() && active
      modifies this`active, this`curNo, this`sent, idxCur
      ensures Valid() && active == (e in {Inactive, Waiting})
      ensures Ranges() == old(Ranges())
      ensures var (lo, hi) := Ranges();
              InOrder(lo, hi, sent) && if e == Finished then sent == old(sent) && |sent| == Size(lo, hi) else |sent| <= Size(lo, hi)
      ensures e != Finished ==>
        && Running() && |sent| == |old(sent)| + 1 && sent == old(sent) + [sent[|old(sent)|]]
        && Ends(e, reply(|old(sent)|, Fill(format, sent[|old(sent)|])))
      ensures e == Waiting ==> reply(|old(sent)|, Fill(format, sent[|old(sent)|])) == Pending(curNo)
    {
      hide Rank, Size, Box, InBox, InOrder, Standing, Fill;
      var more, cur := Advance();
      active := false;
      if !more { return Finished; }
      var r := reply(|sent|, Fill(format, cur));
      Record(cur);
      if r.Pending? { curNo := r.no; }
      active := r.Pending? || r == DoneOk;
      e := if r.Pending? then Waiting else if r == DoneOk then Inactive else Cancelled;
    }

    /** initMonitor() and initWrite(), for what parse() calls a repeater. Should all
        names be done with at once, every element of the description is sent, once,
        in lexicographic order. */
    method Init(desc: seq<byte>, reply: (nat, seq<byte>) -> Reply) returns (ok: bool, e: End)
      requires Valid() && 0 !in desc && (Meaning(desc).None? || Meaning(desc).value.ranges != [])
      modifies this, idxCur, idxMin, idxMax
      ensures unchanged(`idxCur, `idxMin, `idxMax)
      ensures Valid() && (active ==> Running()) && (ok <==> Meaning(desc).Some?) && (!ok ==> !active)
      ensures ok ==> Ranges() == (Lows(Meaning(desc).value.ranges), Highs(Meaning(desc).value.ranges))
                     && format == Meaning(desc).value.format && InOrder(Ranges().0, Ranges().1, sent)
      ensures ok ==> e != Inactive && Explains(reply, format, sent, 0, [], e) && active == (e == Waiting)
      ensures ok && e == Waiting ==> sent != [] && reply(|sent| - 1, Fill(format, sent[|sent| - 1])) == Pending(curNo)
      ensures ok && e == Finished ==>
        && |sent| == Size(Ranges().0, Ranges().1)
        && (forall t :: InBox(Ranges().0, Ranges().1, t) ==> t in sent)
        && (forall j, k :: 0 <= j < k < |sent| ==> LexLess(sent[j], sent[k]) && sent[j] != sent[k])
    {
      hide Rank, Size, Box, InBox, InOrder, Standing, Fill, Meaning, LexLess;
      active := false;
      ok := Parse(desc, false);
      if !ok { return false, Inactive; }
      active := true;
      ghost var lo, hi, ranges := idxMin[..idxNum], idxMax[..idxNum], Meaning(desc).value.ranges;
      assert forall i :: 0 <= i < idxNum ==> Range(lo[i], hi[i]) == ranges[i];
      assert lo == Lows(ranges) && hi == Highs(ranges);
      e := Next(reply);
      CallExplained(reply, format, sent, 0, e);
      AllOnce(lo, hi, sent);
    }

    /** done(): an operation has ended. Only the end of the one waited for counts;
        it lets the next names go out, or ends the run. */
    method Done(no: int, err: bool, reply: (nat, seq<byte>) -> Reply) returns (e: End)
      requires Valid() && (active ==> Running())
      modifies this`active, this`curNo, this`sent, idxCur
      ensures Valid() && (active ==> Running()) && Ranges() == old(Ranges())
      ensures !old(active) ==> e == Inactive && sent == old(sent) && !active
      ensures old(active) ==> e != Inactive && active == (e == Waiting)
      ensures old(active) ==> |old(sent)| <= |sent| && sent[..|old(sent)|] == old(sent) && InOrder(Ranges().0, Ranges().1, sent)
      ensures old(active) && no != old(curNo) ==> e == Waiting && sent == old(sent) && curNo == old(curNo)
      ensures old(active) && no == old(curNo) && err ==> e == Cancelled && sent == old(sent)
      ensures old(active) && no == old(curNo) && !err ==> Explains(reply, format, sent, |old(sent)|, [], e)
      ensures e == Finished ==> |sent| == Size(Ranges().0, Ranges().1)
      ensures e == Waiting && no == old(curNo) ==> |sent| > |old(sent)| && reply(|sent| - 1, Fill(format, sent[|sent| - 1])) == Pending(curNo)
    {
      hide *;
      if !active { return Inactive; }
      RunningParts();
      WholeIsPrefix(sent);
      e := Waiting;
      if no == curNo {
        if !err {
          ghost var from := |sent|;
          e := Next(reply);
          CallExplained(reply, format, sent, from, e);
        } else {
          Cancel();
          e := Cancelled;
        }
      }
    }

    /** cancel(): nothing is waited for any more. */
    method Cancel()
      requires Valid()
      modifies this`active
      ensures Valid() && !active && Ranges() == old(Ranges())
    {
      active := false;
    }

    /** A whole run: started on a description, and then whatever comes in. The names
        sent and the end it comes to are explained by the replies and the events;
        where it comes to its end, every element of the description was sent once,
        in lexicographic order, and accepted before the next one went out. */
    method Run(desc: seq<byte>, reply: (nat, seq<byte>) -> Reply, events: seq<Event>) returns (ok: bool, e: End)
      requires Valid() && 0 !in desc && (Meaning(desc).None? || Meaning(desc).value.ranges != [])
      modifies this, idxCur, idxMin, idxMax
      ensures Valid() && (ok <==> Meaning(desc).Some?) && (!ok ==> !active)
      ensures ok ==> Ranges() == (Lows(Meaning(desc).value.ranges), Highs(Meaning(desc).value.ranges))
                     && format == Meaning(desc).value.format && InOrder(Ranges().0, Ranges().1, sent)
      ensures ok ==> e != Inactive && Explains(reply, format, sent, 0, events, e) && active == (e == Waiting)
      ensures ok ==> forall k: nat :: k + 1 < |sent| ==> Accepted(reply, format, sent, k, events)
      ensures ok && e == Finished ==>
        && |sent| == Size(Ranges().0, Ranges().1)
        && (forall t :: InBox(Ranges().0, Ranges().1, t) ==> t in sent)
        && (forall j, k :: 0 <= j < k < |sent| ==> LexLess(sent[j], sent[k]) && sent[j] != sent[k])
        && (forall k: nat :: k < |sent| ==> Accepted(reply, format, sent, k, events))
    {
      hide *;
      ok, e := Init(desc, reply);
      if !ok { return; }
      var i := 0;
      NoEvents(events);
      while i < |events|
        invariant unchanged(`idxCur, `idxMin, `idxMax) && i <= |events|
        invariant Valid() && (active ==> Running()) && e != Inactive && active == (e == Waiting)
        invariant Ranges() == (Lows(Meaning(desc).value.ranges), Highs(Meaning(desc).value.ranges))
        invariant format == Meaning(desc).value.format && InOrder(Ranges().0, Ranges().1, sent)
        invariant Explains(reply, format, sent, 0, events[..i], e)
        invariant e == Waiting ==> sent != [] && reply(|sent| - 1, Fill(format, sent[|sent| - 1])) == Pending(curNo)
        invariant e == Finished ==> |sent| == Size(Ranges().0, Ranges().1)
      {
        OneMoreEvent(events, i);
        e := Happens(reply, events[..i], events[i], e);
        i := i + 1;
      }
      FollowersAreAccepted(reply, format, sent, 0, events, e);
      AllOnce(Ranges().0, Ranges().1, sent);
    }

    /** One event: an answer goes to done(), the user's wish to cancel(). */
    method Happens(reply: (nat, seq<byte>) -> Reply, ghost events: seq<Event>, a: Event, was: End) returns (e: End)
      requires Valid() && (active ==> Running()) && was != Inactive && active == (was == Waiting)
      requires Explains(reply, format, sent, 0, events, was) && InOrder(Ranges().0, Ranges().1, sent)
      requires was == Waiting ==> sent != [] && reply(|sent| - 1, Fill(format, sent[|sent| - 1])) == Pending(curNo)
      modifies this`active, this`curNo, this`sent, idxCur
      ensures Valid() && (active ==> Running()) && e != Inactive && active == (e == Waiting)
      ensures Ranges() == old(Ranges()) && InOrder(Ranges().0, Ranges().1, sent)
      ensures Explains(reply, format, sent, 0, events + [a], e)
      ensures e == Waiting ==> sent != [] && reply(|sent| - 1, Fill(format, sent[|sent| - 1])) == Pending(curNo)
      ensures was != Waiting ==> e == was && sent == old(sent)
      ensures was == Waiting && e == Finished ==> |sent| == Size(Ranges().0, Ranges().1)
    {
      hide *;
      ghost var before, no := sent, curNo;
      WholeIsPrefix(sent);
      if !active {
        OverIsOver(reply, format, sent, 0, events, a, was);
        if a.Answer? { e := Done(a.no, !a.ok, reply); }
        return was;
      }
      if a == Abort {
        Cancel();
        e := Cancelled;
      } else {
        e := Done(a.no, !a.ok, reply);
      }
      EventExplained(reply, format, before, sent, 0, events, a, no, e);
    }

    ghost function Ranges(): (r: (seq<int>, seq<int>))
      reads this, idxMin, idxMax
      requires Valid()
      ensures Box(r.0, r.1)
    {
      (idxMin[..idxNum], idxMax[..idxNum])
    }

    lemma RunningParts()
      requires Running()
      ensures Valid() && idxNum <= idxMin.Length && idxNum <= idxMax.Length && idxNum <= idxCur.Length
      ensures Box(idxMin[..idxNum], idxMax[..idxNum]) && Ranges() == (idxMin[..idxNum], idxMax[..idxNum])
      ensures InOrder(idxMin[..idxNum], idxMax[..idxNum], sent)
    {
      hide Rank, Box, InOrder;
    }

    /** The name of the tuple the odometer stands at has been given to the view. */
    method Record(cur: seq<int>)
      requires Valid() && idxNum > 0 && cur == idxCur[..idxNum]
      requires var lo, hi := idxMin[..idxNum], idxMax[..idxNum];
               Standing(lo, hi, cur) && InOrder(lo, hi, sent + [cur]) && Rank(lo, hi, cur) == |sent|
      modifies this`sent
      ensures Running() && sent == old(sent) + [cur]
    {
      sent := sent + [cur];
    }

    /** One turn and the test for the end: either there is a next tuple to send or
        all have been sent. */
    method Advance() returns (more: bool, cur: seq<int>)
      requires Running()
      modifies idxCur
      ensures Valid() && cur == idxCur[..idxNum]
      ensures var lo, hi := idxMin[..idxNum], idxMax[..idxNum];
              if more then Standing(lo, hi, cur) && InOrder(lo, hi, sent + [cur]) && Rank(lo, hi, cur) == |sent| < Size(lo, hi)
              else |sent| == Size(lo, hi)
    {
      hide Rank, Size, Succ, Box, InBox, InOrder, Standing;
      ghost var lo, hi, was := idxMin[..idxNum], idxMax[..idxNum], idxCur[..idxNum];
      TurnRaisesRank(lo, hi, was);
      Turn();
      cur := idxCur[..idxNum];
      assert cur[0] == idxCur[0] && hi[0] == idxMax[0];
      more := idxCur[0] <= idxMax[0];
      if more {
        StillBounded(lo, hi, cur);
        RankInRange(lo, hi, cur);
        SentOneMore(lo, hi, sent, cur);
      } else {
        StillBounded(lo, hi, cur);
      }
    }

    /** The end of parse(): indexes not used are 0, and the odometer is set one
        before the first tuple. */
    method SetUp()
      requires idxCur.Length == idxMin.Length == idxMax.Length == MAX_IDX && sent == []
      requires idxCur != idxMin && idxMin != idxMax && idxMax != idxCur
      requires idxNum <= MAX_IDX && Box(idxMin[..idxNum], idxMax[..idxNum])
      modifies idxCur, idxMin, idxMax
      ensures Valid() && (idxNum > 0 ==> Running())
      ensures forall i :: 0 <= i < idxNum ==> idxMin[i] == old(idxMin[i]) && idxMax[i] == old(idxMax[i])
    {
      hide Rank, Box;
      var i := idxNum;
      while i < MAX_IDX
        invariant idxNum <= i <= MAX_IDX
        invariant idxMin[..idxNum] == old(idxMin[..idxNum]) && idxMax[..idxNum] == old(idxMax[..idxNum])
      {
        idxMin[i], idxMax[i] := 0, 0;
        i := i + 1;
      }
      i := 0;
      while i < MAX_IDX
        invariant 0 <= i <= MAX_IDX
        invariant idxMin[..idxNum] == old(idxMin[..idxNum]) && idxMax[..idxNum] == old(idxMax[..idxNum])
        invariant forall j :: 0 <= j < i ==> idxCur[j] == idxMin[j]
      {
        idxCur[i] := idxMin[i];
        i := i + 1;
      }
      if idxNum > 0 {
        idxCur[idxNum - 1] := idxCur[idxNum - 1] - 1;
        ghost var lo := idxMin[..idxNum];
        assert idxCur[..idxNum] == lo[idxNum - 1 := lo[idxNum - 1] - 1];
        BeforeFirst(lo, idxMax[..idxNum]);
      }
      assert forall i :: 0 <= i < idxNum ==> idxMin[i] == idxMin[..idxNum][i] && idxMax[i] == idxMax[..idxNum][i];
    }
  }

  lemma WholeIsPrefix<T>(s: seq<T>)
    ensures s[..|s|] == s
  {
  }

  lemma NoEvents(events: seq<Event>)
    ensures events[..0] == [] && events[..|events|] == events
  {
  }

  lemma OneMoreEvent(events: seq<Event>, i: nat)
    requires i < |events|
    ensures events[..i + 1] == events[..i] + [events[i]]
  {
  }

  lemma StillBounded(lo: seq<int>, hi: seq<int>, cur: seq<int>)
    requires Box(lo, hi) && |lo| > 0
    ensures InBox(lo, hi, cur) ==> |cur| > 0 && cur[0] <= hi[0] && Standing(lo, hi, cur)
  {
  }

  lemma SentOneMore(lo: seq<int>, hi: seq<int>, sent: seq<seq<int>>, cur: seq<int>)
    requires InOrder(lo, hi, sent) && InBox(lo, hi, cur) && Rank(lo, hi, cur) == |sent|
    ensures InOrder(lo, hi, sent + [cur])
  {
    hide Rank, InBox, Box;
  }

  lemma BeforeFirst(lo: seq<int>, hi: seq<int>)
    requires Box(lo, hi) && |lo| > 0
    ensures var k := |lo| - 1;
            Standing(lo, hi, lo[k := lo[k] - 1]) && Rank(lo, hi, lo[k := lo[k] - 1]) == -1
  {
    var k := |lo| - 1;
    assert lo[k := lo[k] - 1][..k] == lo[..k];
    FirstRank(lo[..k], hi[..k]);
  }

  lemma {:induction false} FirstRank(lo: seq<int>, hi: seq<int>)
    requires Box(lo, hi)
    ensures Rank(lo, hi, lo) == 0
  {
    if lo != [] { FirstRank(lo[..|lo| - 1], hi[..|lo| - 1]); }
  }

  // ------------------------------------------------------ reading step by step

  /** What the rest of a description comes to after a plan. */
  function MeaningFrom(p: Plan, s: seq<byte>): Option<Plan> {
    var xs := Items(s);
    if xs.None? then None else Compile(p, xs.value)
  }

  lemma MeaningStart(desc: seq<byte>)
    ensures desc[0..] == desc && Meaning(desc) == MeaningFrom(Plan([], []), desc)
  {
    hide Items, Compile;
  }

  lemma MeaningEnd(p: Plan)
    ensures MeaningFrom(p, []) == Some(p)
  {
  }

  lemma MeaningStep(p: Plan, s: seq<byte>)
    requires s != []
    ensures Take(s).Some? ==> WellFormed(Take(s).value.item)
    ensures var q := if Take(s).Some? then AddItem(p, Take(s).value.item) else None;
            MeaningFrom(p, s) == if q.None? then None else MeaningFrom(q.value, Take(s).value.rest)
  {
    hide Take, AddItem;
    if Take(s).Some? {
      TakePrints(s);
      var x, more := Take(s).value, Items(Take(s).value.rest);
      if more.Some? { assert ([x.item] + more.value)[1..] == more.value; }
    }
  }

  lemma PlainTaken(p: Plan, s: seq<byte>)
    requires s != [] && s[0] != OPEN
    ensures if s[0] == QUESTION || s[0] == COLON then Take(s).None?
            else Take(s) == Some(Taken(Char(s[0]), s[1..])) && AddItem(p, Char(s[0])) == Some(Plan(p.format + [Lit(s[0])], p.ranges))
  {
  }

  function Low(x: Item): nat
    requires WellFormed(x) && !x.Char?
  {
    Number(if x.One? then x.run else x.lo)
  }

  function High(x: Item): nat
    requires WellFormed(x) && !x.Char?
  {
    Number(if x.One? then x.run else x.hi)
  }

  /** What an index or a range adds to the plan. */
  lemma RangeAdded(p: Plan, x: Item)
    requires WellFormed(x) && !x.Char?
    ensures AddItem(p, x) ==
            if Low(x) > High(x) then None
            else if Low(x) == High(x) then Some(Plan(p.format + Lits([OPEN] + Decimal(Low(x)) + [CLOSE]), p.ranges))
            else if |p.ranges| >= MAX_IDX then None
            else Some(Plan(p.format + [Lit(OPEN), Slot, Lit(CLOSE)], p.ranges + [Range(Low(x), High(x))]))
  {
    hide Decimal, Number;
  }

  /** A byte of the description; the NUL after its end can be looked at. */
  function At(desc: seq<byte>, p: nat): byte {
    if p < |desc| then desc[p] else 0
  }

  /** The digit loops of parse(). */
  method ReadNumber(desc: seq<byte>, p: nat) returns (n: nat, q: nat)
    requires p <= |desc|
    ensures q == p + DigitRun(desc[p..]) <= |desc| && AllDigits(desc[p..q]) && n == Number(desc[p..q])
  {
    hide Number;
    n, q := 0, p;
    assert desc[p..q] == [] && Number([]) == 0 by { NumberOfNothing(); }
    while 48 <= At(desc, q) <= 57
      invariant p <= q <= |desc| && AllDigits(desc[p..q]) && n == Number(desc[p..q])
      decreases |desc| - q
    {
      NumberGrows(desc[p..q], desc[q]);
      assert desc[p..q + 1] == desc[p..q] + [desc[q]];
      n := n * 10 + (desc[q] as int - 48);
      q := q + 1;
    }
    assert desc[p..] == desc[p..q] + desc[q..];
    DigitRunEnds(desc[p..q], desc[q..]);
  }

  /** The end of a range, from the byte after its separator. */
  method ParseHi(desc: seq<byte>, q: nat, ghost lo: seq<byte>, ghost sep: seq<byte>) returns (ok: bool, imax: nat, p: nat)
    requires q <= |desc| && 0 !in desc
    ensures ok <==> TakeHi(lo, sep, desc[q..]).Some?
    ensures ok ==> var r := TakeHi(lo, sep, desc[q..]).value;
                   q < p <= |desc| && desc[p..] == r.rest && Digits(r.item.hi) && imax == Number(r.item.hi)
  {
    hide DigitRun, Number, Digits;
    ghost var u := desc[q..];
    imax, p := ReadNumber(desc, q);
    ghost var m := p - q;
    assert u[..m] == desc[q..p] && u[m..] == desc[p..];
    if p == q { return false, imax, p; }
    if At(desc, p) != CLOSE { return false, imax, p; }
    assert u[m + 1..] == desc[p + 1..];
    p := p + 1;
    ok := true;
  }

  /** What follows the first number, n, spelled lo. */
  method ParseTail(desc: seq<byte>, start: nat, n: nat, ghost lo: seq<byte>) returns (ok: bool, imax: nat, p: nat)
    requires start <= |desc| && 0 !in desc && Digits(lo) && n == Number(lo)
    ensures ok <==> TakeTail(lo, desc[start..]).Some?
    ensures ok ==> start < p <= |desc| && desc[p..] == TakeTail(lo, desc[start..]).value.rest
    ensures ok ==> var x := TakeTail(lo, desc[start..]).value.item; WellFormed(x) && !x.Char? && n == Low(x) && imax == High(x)
  {
    hide Number, Digits, TakeHi, Separator;
    imax, p := n, start;
    ghost var t := desc[p..];
    if At(desc, p) == COLON || (At(desc, p) == DOT && At(desc, p + 1) == DOT) {
      var q := p + 1;
      if At(desc, q) == DOT { q := q + 1; }
      assert SeparatorLength(t) == q - p && t[q - p..] == desc[q..];
      ok, imax, p := ParseHi(desc, q, lo, t[..q - p]);
      return;
    }
    assert SeparatorLength(t) == 0;
    if At(desc, p) != CLOSE { return false, imax, p; }
    assert t[1..] == desc[p + 1..];
    p := p + 1;
    ok := true;
  }

  /** One index or range, from its bracket on. */
  method ParseIndex(desc: seq<byte>, start: nat) returns (ok: bool, imin: nat, imax: nat, p: nat)
    requires start < |desc| && desc[start] == OPEN && 0 !in desc
    ensures ok <==> Take(desc[start..]).Some?
    ensures ok ==> start < p <= |desc| && desc[p..] == Take(desc[start..]).value.rest
    ensures ok ==> var x := Take(desc[start..]).value.item; WellFormed(x) && !x.Char? && imin == Low(x) && imax == High(x)
  {
    hide DigitRun, Number, Digits, TakeTail, WellFormed, Low, High;
    ghost var s := desc[start..];
    assert s[1..] == desc[start + 1..];
    imin, p := ReadNumber(desc, start + 1);
    imax := imin;
    if p == start + 1 { return false, imin, imax, p; }
    ghost var lo := desc[start + 1..p];
    assert s[1..p - start] == lo && s[p - start..] == desc[p..];
    DigitsOf(lo);
    ok, imax, p := ParseTail(desc, p, imin, lo);
  }

  lemma DigitsOf(run: seq<byte>)
    requires AllDigits(run) && run != []
    ensures Digits(run)
  {
  }

  /** Indexes above i have started again, the others still have to be turned. */
  ghost predicate Carrying(lo: seq<int>, hi: seq<int>, was: seq<int>, cur: seq<int>, i: nat)
    requires Box(lo, hi)
  {
    && |cur| == |was| == |lo| && i < |lo| && cur[..i + 1] == was[..i + 1]
    && Box(lo[..i + 1], hi[..i + 1])
    && Succ(lo, hi, was) == Succ(lo[..i + 1], hi[..i + 1], was[..i + 1]) + cur[i + 1..]
  }

  lemma CarryStart(lo: seq<int>, hi: seq<int>, was: seq<int>)
    requires Box(lo, hi) && |was| == |lo| > 0
    ensures Carrying(lo, hi, was, was, |lo| - 1)
  {
    hide Succ;
    assert lo[..|lo|] == lo && hi[..|lo|] == hi && was[..|lo|] == was;
  }

  /** Either the turn ends at index i or it goes on one further to the front. */
  lemma CarryOn(lo: seq<int>, hi: seq<int>, was: seq<int>, cur: seq<int>, i: nat)
    requires Box(lo, hi) && Carrying(lo, hi, was, cur, i)
    ensures |cur| == |lo| == |hi| && i < |cur|
    ensures if cur[i] + 1 <= hi[i] || i == 0 then cur[i := cur[i] + 1] == Succ(lo, hi, was)
            else Carrying(lo, hi, was, cur[i := lo[i]], i - 1)
  {
    hide Succ;
    SuccStep(lo[..i + 1], hi[..i + 1], was[..i + 1]);
    assert lo[..i + 1][..i] == lo[..i] && hi[..i + 1][..i] == hi[..i] && was[..i + 1][..i] == was[..i] == cur[..i];
    assert was[i] == was[..i + 1][i] == cur[..i + 1][i] == cur[i];
    if cur[i] + 1 <= hi[i] || i == 0 {
      assert cur[i := cur[i] + 1] == (cur[..i] + [cur[i] + 1]) + cur[i + 1..];
    } else {
      assert cur[i := lo[i]][i..] == [lo[i]] + cur[i + 1..];
      assert cur[i := lo[i]][..i] == cur[..i];
    }
  }

  lemma {:induction false} SuccStep(lo: seq<int>, hi: seq<int>, t: seq<int>)
    requires Box(lo, hi) && |t| == |lo| > 0
    ensures var k := |t| - 1;
            Succ(lo, hi, t) == if t[k] + 1 <= hi[k] || k == 0 then t[..k] + [t[k] + 1]
                               else Succ(lo[..k], hi[..k], t[..k]) + [lo[k]]
  {
  }
}
