/** The segments packet: an agent's subjects, their modules and the segments of
    each. The agent prints it into a fixed buffer; the hub first checks a whole
    packet and only then works on it. */
module SegmentReport {
  import opened Bytes

  const BUFFER := 2048
  const MAX_NAME := 40
  const MAX_QTY := 127

  datatype Segment = Segment(name: byte, addr: Long)
  datatype Mod = Mod(name: seq<byte>, segments: seq<Segment>)
  datatype Subject = Subject(name: seq<byte>, mods: seq<Mod>)
  datatype Report = Report(clean: bool, subjects: seq<Subject>)

  // ---------------------------------------------------------------- printing

  function SegmentBytes(s: Segment): (w: seq<byte>)
    ensures |w| == 5
  {
    [s.name] + Be32(s.addr)
  }

  function SegmentsBytes(ss: seq<Segment>): (w: seq<byte>)
    ensures |w| == 5 * |ss|
  {
    if ss == [] then [] else SegmentsBytes(ss[..|ss| - 1]) + SegmentBytes(ss[|ss| - 1])
  }

  /** Counts fit a signed char; names do by their declared size. */
  predicate Countable(m: Mod) { |m.name| < MAX_NAME && |m.segments| <= MAX_QTY }

  predicate AllCountable(ms: seq<Mod>) { forall j :: 0 <= j < |ms| ==> Countable(ms[j]) }

  function Named(name: seq<byte>, qty: nat): (w: seq<byte>)
    requires |name| < MAX_NAME && qty <= MAX_QTY
    ensures |w| == |name| + 2
  {
    [|name| as byte] + name + [qty as byte]
  }

  function ModBytes(m: Mod): (w: seq<byte>)
    requires Countable(m)
    ensures |w| >= |m.name| + 2
  {
    Named(m.name, |m.segments|) + SegmentsBytes(m.segments)
  }

  function ModsBytes(ms: seq<Mod>): seq<byte>
    requires AllCountable(ms)
  {
    if ms == [] then [] else ModsBytes(ms[..|ms| - 1]) + ModBytes(ms[|ms| - 1])
  }

  predicate CountableSubject(s: Subject) { |s.name| < MAX_NAME && |s.mods| <= MAX_QTY && AllCountable(s.mods) }

  predicate AllCountableSubjects(ss: seq<Subject>) { forall i :: 0 <= i < |ss| ==> CountableSubject(ss[i]) }

  function SubjectBytes(s: Subject): (w: seq<byte>)
    requires CountableSubject(s)
    ensures |w| >= |s.name| + 2
  {
    Named(s.name, |s.mods|) + ModsBytes(s.mods)
  }

  function SubjectsBytes(ss: seq<Subject>): seq<byte>
    requires AllCountableSubjects(ss)
  {
    if ss == [] then [] else SubjectsBytes(ss[..|ss| - 1]) + SubjectBytes(ss[|ss| - 1])
  }

  predicate Printable(r: Report) { |r.subjects| <= MAX_QTY && AllCountableSubjects(r.subjects) }

  function ReportBytes(r: Report): seq<byte>
    requires Printable(r)
  {
    [if r.clean then 1 else 0, |r.subjects| as byte] + SubjectsBytes(r.subjects) + [0]
  }

  // ----------------------------------------------------------------- parsing

  /** Items read and the bytes after them. */
  datatype Got<T> = Got(items: seq<T>, rest: seq<byte>)

  datatype Header = Header(name: seq<byte>, qty: nat, rest: seq<byte>)

  /** A name of 1 to 39 bytes and a count of at most 127. */
  function ReadHeader(s: seq<byte>): (r: Option<Header>)
    ensures r.Some? ==> |r.value.rest| < |s| && 0 < |r.value.name| < MAX_NAME && r.value.qty <= MAX_QTY
    ensures r.Some? ==> s == Named(r.value.name, r.value.qty) + r.value.rest
  {
    if s == [] || s[0] == 0 || s[0] as int >= MAX_NAME then None
    else
      var q := s[0] as int;
      if 1 + q >= |s| || s[1 + q] as int > MAX_QTY then None
      else Some(Header(s[1..1 + q], s[1 + q] as int, s[2 + q..]))
  }

  function ReadSegments(s: seq<byte>, n: nat): (r: Option<Got<Segment>>)
    ensures r.Some? ==> |r.value.rest| <= |s|
    decreases n
  {
    if n == 0 then Some(Got([], s))
    else if |s| < 5 then None
    else
      var g := ReadSegments(s[5..], n - 1);
      if g.None? then None else Some(Got([Segment(s[0], Un32(s[1..5]))] + g.value.items, g.value.rest))
  }

  function ReadMod(s: seq<byte>): (r: Option<(Mod, seq<byte>)>)
    ensures r.Some? ==> |r.value.1| < |s|
  {
    var h := ReadHeader(s);
    if h.None? then None
    else
      var g := ReadSegments(h.value.rest, h.value.qty);
      if g.None? then None else Some((Mod(h.value.name, g.value.items), g.value.rest))
  }

  function ReadMods(s: seq<byte>, n: nat): (r: Option<Got<Mod>>)
    ensures r.Some? ==> |r.value.rest| <= |s|
    decreases n
  {
    if n == 0 then Some(Got([], s))
    else
      var m := ReadMod(s);
      if m.None? then None
      else
        var g := ReadMods(m.value.1, n - 1);
        if g.None? then None else Some(Got([m.value.0] + g.value.items, g.value.rest))
  }

  function ReadSubject(s: seq<byte>): (r: Option<(Subject, seq<byte>)>)
    ensures r.Some? ==> |r.value.1| < |s|
  {
    var h := ReadHeader(s);
    if h.None? then None
    else
      var g := ReadMods(h.value.rest, h.value.qty);
      if g.None? then None else Some((Subject(h.value.name, g.value.items), g.value.rest))
  }

  function ReadSubjects(s: seq<byte>, n: nat): (r: Option<Got<Subject>>)
    ensures r.Some? ==> |r.value.rest| <= |s|
    decreases n
  {
    if n == 0 then Some(Got([], s))
    else
      var m := ReadSubject(s);
      if m.None? then None
      else
        var g := ReadSubjects(m.value.1, n - 1);
        if g.None? then None else Some(Got([m.value.0] + g.value.items, g.value.rest))
  }

  function ReadReport(s: seq<byte>): (r: Option<Report>) {
    if |s| < 2 || s[0] > 1 || s[1] as int > MAX_QTY then None
    else
      var g := ReadSubjects(s[2..], s[1] as int);
      if g.None? || g.value.rest != [0] then None else Some(Report(s[0] == 1, g.value.items))
  }

  // ------------------------------------------------------------- round trips

  /** The hub takes no empty names. */
  predicate NamedMods(ms: seq<Mod>) { forall j :: 0 <= j < |ms| ==> ms[j].name != [] }

  predicate NamedSubject(s: Subject) { s.name != [] && NamedMods(s.mods) }

  lemma HeaderReadsBack(name: seq<byte>, qty: nat, rest: seq<byte>)
    requires |name| < MAX_NAME && qty <= MAX_QTY
    ensures ReadHeader(Named(name, qty) + rest) == if name == [] then None else Some(Header(name, qty, rest))
  {
    var s := Named(name, qty) + rest;
    if name != [] {
      assert s[1..1 + |name|] == name && s[2 + |name|..] == rest;
    }
  }

  /** Lists are printed at the end and read from the front. */
  lemma {:induction false} SegmentsFront(s: Segment, ss: seq<Segment>)
    ensures SegmentsBytes([s] + ss) == SegmentBytes(s) + SegmentsBytes(ss)
  {
    if ss == [] {
      assert [s] + ss == [s];
      assert [s][..0] == [];
    } else {
      var all, n := [s] + ss, |ss|;
      SegmentsFront(s, ss[..n - 1]);
      assert all[..n] == [s] + ss[..n - 1];
    }
  }

  lemma {:induction false} SegmentsReadBack(ss: seq<Segment>, rest: seq<byte>)
    ensures ReadSegments(SegmentsBytes(ss) + rest, |ss|) == Some(Got(ss, rest))
  {
    hide SegmentsBytes;
    if ss == [] {
      assert SegmentsBytes(ss) + rest == rest;
    } else {
      var s := SegmentsBytes(ss) + rest;
      assert ss == [ss[0]] + ss[1..];
      SegmentsFront(ss[0], ss[1..]);
      assert s[5..] == SegmentsBytes(ss[1..]) + rest && s[1..5] == Be32(ss[0].addr);
      Un32OfBe32(ss[0].addr, []);
      assert s[1..5] + [] == s[1..5];
      SegmentsReadBack(ss[1..], rest);
    }
  }

  /** And the other way: what was read prints as the bytes that were read. */
  lemma {:induction false} SegmentsPrintBack(s: seq<byte>, n: nat)
    requires ReadSegments(s, n).Some?
    ensures var g := ReadSegments(s, n).value; |g.items| == n && s == SegmentsBytes(g.items) + g.rest
    decreases n
  {
    hide SegmentsBytes;
    if n == 0 {
      assert SegmentsBytes([]) + s == s;
    } else {
      SegmentsPrintBack(s[5..], n - 1);
      var g := ReadSegments(s[5..], n - 1).value;
      var one := Segment(s[0], Un32(s[1..5]));
      SegmentsFront(one, g.items);
      Be32OfUn32(s[1..5]);
      assert s[1..5][..4] == s[1..5];
      assert SegmentBytes(one) == s[..5];
      assert s == s[..5] + s[5..];
    }
  }

  lemma ModReadsBack(m: Mod, rest: seq<byte>)
    requires Countable(m)
    ensures ReadMod(ModBytes(m) + rest) == if m.name == [] then None else Some((m, rest))
  {
    hide Named, SegmentsBytes, ReadSegments, ReadHeader;
    var more := SegmentsBytes(m.segments) + rest;
    assert ModBytes(m) + rest == Named(m.name, |m.segments|) + more;
    HeaderReadsBack(m.name, |m.segments|, more);
    SegmentsReadBack(m.segments, rest);
  }

  lemma ModPrintsBack(s: seq<byte>)
    requires ReadMod(s).Some?
    ensures var (m, rest) := ReadMod(s).value; Countable(m) && m.name != [] && s == ModBytes(m) + rest
  {
    hide Named, SegmentsBytes, ReadSegments, ReadHeader;
    var h := ReadHeader(s).value;
    SegmentsPrintBack(h.rest, h.qty);
  }

  lemma {:induction false} ModsFront(m: Mod, ms: seq<Mod>)
    requires AllCountable([m] + ms) && Countable(m) && AllCountable(ms)
    ensures ModsBytes([m] + ms) == ModBytes(m) + ModsBytes(ms)
    decreases |ms|
  {
    hide ModBytes, Countable;
    if ms == [] {
      assert [m] + ms == [m];
      assert [m][..0] == [];
    } else {
      var all, n := [m] + ms, |ms|;
      ModsFront(m, ms[..n - 1]);
      assert all[..n] == [m] + ms[..n - 1];
    }
  }

  lemma ModsSplit(m: Mod, ms: seq<Mod>)
    requires AllCountable([m] + ms)
    ensures Countable(m) && AllCountable(ms)
    ensures NamedMods([m] + ms) <==> m.name != [] && NamedMods(ms)
  {
    var all := [m] + ms;
    assert all[0] == m;
    forall k | 0 <= k < |ms| ensures all[k + 1] == ms[k] {}
  }

  lemma {:induction false} ModsReadBack(ms: seq<Mod>, rest: seq<byte>)
    requires AllCountable(ms)
    ensures ReadMods(ModsBytes(ms) + rest, |ms|) == if NamedMods(ms) then Some(Got(ms, rest)) else None
  {
    hide *;
    if ms == [] {
      NoMods();
      assert ModsBytes([]) + rest == rest;
      ReadModsNone(rest);
    } else {
      var m, tail := ms[0], ms[1..];
      assert ms == [m] + tail;
      ModsSplit(m, tail);
      ModsFront(m, tail);
      var more := ModsBytes(tail) + rest;
      assert ModsBytes(ms) + rest == ModBytes(m) + more;
      ReadModsStep(ModsBytes(ms) + rest, |ms|);
      ModReadsBack(m, more);
      ModsReadBack(tail, rest);
    }
  }

  lemma FrontOf(s: seq<byte>, a: seq<byte>, more: seq<byte>, b: seq<byte>, rest: seq<byte>)
    requires s == a + more && more == b + rest
    ensures s == (a + b) + rest
  {
  }

  lemma NoMods()
    ensures AllCountable([]) && NamedMods([]) && ModsBytes([]) == []
  {
  }

  lemma FrontMod(m: Mod, ms: seq<Mod>)
    requires Countable(m) && m.name != [] && AllCountable(ms) && NamedMods(ms)
    ensures AllCountable([m] + ms) && NamedMods([m] + ms)
  {
  }

  lemma ReadModsStep(s: seq<byte>, n: nat)
    requires n > 0
    ensures var one := ReadMod(s);
            var more := if one.Some? then ReadMods(one.value.1, n - 1) else None;
            ReadMods(s, n) == if more.None? then None else Some(Got([one.value.0] + more.value.items, more.value.rest))
  {
  }

  lemma ReadModsNone(s: seq<byte>)
    ensures ReadMods(s, 0) == Some(Got([], s))
  {
  }

  lemma ModsJoin(s: seq<byte>, m: Mod, more: seq<byte>, ms: seq<Mod>, rest: seq<byte>)
    requires Countable(m) && m.name != [] && AllCountable(ms) && NamedMods(ms)
    requires s == ModBytes(m) + more && more == ModsBytes(ms) + rest
    ensures AllCountable([m] + ms) && NamedMods([m] + ms) && s == ModsBytes([m] + ms) + rest
  {
    hide *;
    FrontMod(m, ms);
    ModsFront(m, ms);
    FrontOf(s, ModBytes(m), more, ModsBytes(ms), rest);
  }

  lemma {:induction false} ModsPrintBack(s: seq<byte>, n: nat)
    requires ReadMods(s, n).Some?
    ensures var g := ReadMods(s, n).value;
            |g.items| == n && AllCountable(g.items) && NamedMods(g.items) && s == ModsBytes(g.items) + g.rest
    decreases n
  {
    hide *;
    if n == 0 {
      NoMods();
      ReadModsNone(s);
      assert ModsBytes([]) + s == s;
    } else {
      ReadModsStep(s, n);
      var (m, more) := ReadMod(s).value;
      ModPrintsBack(s);
      ModsPrintBack(more, n - 1);
      var g := ReadMods(more, n - 1).value;
      ModsJoin(s, m, more, g.items, g.rest);
    }
  }

  lemma SubjectReadsBack(x: Subject, rest: seq<byte>)
    requires CountableSubject(x)
    ensures ReadSubject(SubjectBytes(x) + rest) == if NamedSubject(x) then Some((x, rest)) else None
  {
    hide Named, ModsBytes, ReadMods, ReadHeader, AllCountable, NamedMods;
    var more := ModsBytes(x.mods) + rest;
    assert SubjectBytes(x) + rest == Named(x.name, |x.mods|) + more;
    HeaderReadsBack(x.name, |x.mods|, more);
    ModsReadBack(x.mods, rest);
  }

  lemma SubjectPrintsBack(s: seq<byte>)
    requires ReadSubject(s).Some?
    ensures var (x, rest) := ReadSubject(s).value; CountableSubject(x) && NamedSubject(x) && s == SubjectBytes(x) + rest
  {
    hide Named, ModsBytes, ReadMods, ReadHeader, AllCountable, NamedMods;
    var h := ReadHeader(s).value;
    ModsPrintBack(h.rest, h.qty);
  }

  lemma {:induction false} SubjectsFront(x: Subject, xs: seq<Subject>)
    requires AllCountableSubjects([x] + xs) && CountableSubject(x) && AllCountableSubjects(xs)
    ensures SubjectsBytes([x] + xs) == SubjectBytes(x) + SubjectsBytes(xs)
    decreases |xs|
  {
    hide SubjectBytes, CountableSubject;
    if xs == [] {
      assert [x] + xs == [x];
      assert [x][..0] == [];
    } else {
      var all, n := [x] + xs, |xs|;
      SubjectsFront(x, xs[..n - 1]);
      assert all[..n] == [x] + xs[..n - 1];
    }
  }

  predicate AllNamedSubjects(xs: seq<Subject>) { forall i :: 0 <= i < |xs| ==> NamedSubject(xs[i]) }

  lemma SubjectsSplit(x: Subject, xs: seq<Subject>)
    requires AllCountableSubjects([x] + xs)
    ensures CountableSubject(x) && AllCountableSubjects(xs)
    ensures AllNamedSubjects([x] + xs) <==> NamedSubject(x) && AllNamedSubjects(xs)
  {
    var all := [x] + xs;
    assert all[0] == x;
    forall k | 0 <= k < |xs| ensures all[k + 1] == xs[k] {}
  }

  lemma {:induction false} SubjectsReadBack(xs: seq<Subject>, rest: seq<byte>)
    requires AllCountableSubjects(xs)
    ensures ReadSubjects(SubjectsBytes(xs) + rest, |xs|) == if AllNamedSubjects(xs) then Some(Got(xs, rest)) else None
  {
    hide *;
    if xs == [] {
      NoSubjects();
      assert SubjectsBytes([]) + rest == rest;
      ReadSubjectsNone(rest);
    } else {
      var x, tail := xs[0], xs[1..];
      assert xs == [x] + tail;
      SubjectsSplit(x, tail);
      SubjectsFront(x, tail);
      var more := SubjectsBytes(tail) + rest;
      assert SubjectsBytes(xs) + rest == SubjectBytes(x) + more;
      ReadSubjectsStep(SubjectsBytes(xs) + rest, |xs|);
      SubjectReadsBack(x, more);
      SubjectsReadBack(tail, rest);
    }
  }

  lemma NoSubjects()
    ensures AllCountableSubjects([]) && AllNamedSubjects([]) && SubjectsBytes([]) == []
  {
  }

  lemma FrontSubject(x: Subject, xs: seq<Subject>)
    requires CountableSubject(x) && NamedSubject(x) && AllCountableSubjects(xs) && AllNamedSubjects(xs)
    ensures AllCountableSubjects([x] + xs) && AllNamedSubjects([x] + xs)
  {
  }

  lemma ReadSubjectsStep(s: seq<byte>, n: nat)
    requires n > 0
    ensures var one := ReadSubject(s);
            var more := if one.Some? then ReadSubjects(one.value.1, n - 1) else None;
            ReadSubjects(s, n) == if more.None? then None else Some(Got([one.value.0] + more.value.items, more.value.rest))
  {
  }

  lemma ReadSubjectsNone(s: seq<byte>)
    ensures ReadSubjects(s, 0) == Some(Got([], s))
  {
  }

  lemma SubjectsJoin(s: seq<byte>, x: Subject, more: seq<byte>, xs: seq<Subject>, rest: seq<byte>)
    requires CountableSubject(x) && NamedSubject(x) && AllCountableSubjects(xs) && AllNamedSubjects(xs)
    requires s == SubjectBytes(x) + more && more == SubjectsBytes(xs) + rest
    ensures AllCountableSubjects([x] + xs) && AllNamedSubjects([x] + xs) && s == SubjectsBytes([x] + xs) + rest
  {
    hide *;
    FrontSubject(x, xs);
    SubjectsFront(x, xs);
    FrontOf(s, SubjectBytes(x), more, SubjectsBytes(xs), rest);
  }

  lemma {:induction false} SubjectsPrintBack(s: seq<byte>, n: nat)
    requires ReadSubjects(s, n).Some?
    ensures var g := ReadSubjects(s, n).value;
            && |g.items| == n && AllCountableSubjects(g.items) && AllNamedSubjects(g.items)
            && s == SubjectsBytes(g.items) + g.rest
    decreases n
  {
    hide *;
    if n == 0 {
      NoSubjects();
      ReadSubjectsNone(s);
      assert SubjectsBytes([]) + s == s;
    } else {
      ReadSubjectsStep(s, n);
      var (x, more) := ReadSubject(s).value;
      SubjectPrintsBack(s);
      SubjectsPrintBack(more, n - 1);
      var g := ReadSubjects(more, n - 1).value;
      SubjectsJoin(s, x, more, g.items, g.rest);
    }
  }

  /** A printed report is accepted exactly when no name in it is empty, and then
      it reads back as it was. */
  lemma PrintedReadsBack(r: Report)
    requires Printable(r)
    ensures ReadReport(ReportBytes(r)) == if AllNamedSubjects(r.subjects) then Some(r) else None
  {
    hide SubjectsBytes, ReadSubjects, AllCountableSubjects, AllNamedSubjects;
    var s := ReportBytes(r);
    assert s[2..] == SubjectsBytes(r.subjects) + [0];
    SubjectsReadBack(r.subjects, [0]);
  }

  /** Exactly the printed reports are accepted: no other bytes are. */
  lemma AcceptedIsPrinted(s: seq<byte>, r: Report)
    requires ReadReport(s) == Some(r)
    ensures Printable(r) && AllNamedSubjects(r.subjects) && s == ReportBytes(r)
  {
    hide SubjectsBytes, ReadSubjects, AllCountableSubjects, AllNamedSubjects;
    SubjectsPrintBack(s[2..], s[1] as int);
    assert s == s[..2] + s[2..];
  }

  // ------------------------------------------------------- the agent's printer

  method Copy(buf: array<byte>, p: nat, bytes: seq<byte>)
    requires p + |bytes| <= buf.Length
    modifies buf
    ensures buf[..p + |bytes|] == old(buf[..p]) + bytes
  {
    forall i | 0 <= i < |bytes| { buf[p + i] := bytes[i]; }
  }

  /** The segment loop. One byte is always left for the closing 0. */
  method PutSegments(buf: array<byte>, start: nat, ss: seq<Segment>) returns (p: nat, ok: bool)
    requires buf.Length == BUFFER && start < BUFFER
    modifies buf
    ensures ok <==> start + 5 * |ss| < BUFFER
    ensures ok ==> p == start + 5 * |ss| && buf[..p] == old(buf[..start]) + SegmentsBytes(ss)
  {
    p := start;
    assert SegmentsBytes(ss[..0]) == [];
    assert buf[..start] == old(buf[..start]) + [];
    hide SegmentsBytes, SegmentBytes, Be32;
    for k := 0 to |ss|
      invariant p == start + 5 * k < BUFFER
      invariant buf[..p] == old(buf[..start]) + SegmentsBytes(ss[..k])
    {
      if p + 6 > BUFFER { return p, false; }
      SegmentsStep(ss, k);
      Copy(buf, p, [ss[k].name] + Be32(ss[k].addr));
      p := p + 5;
      assert buf[..p] == old(buf[..start]) + (SegmentsBytes(ss[..k]) + SegmentBytes(ss[k]));
    }
    assert ss[..|ss|] == ss;
    ok := true;
  }

  lemma SegmentsStep(ss: seq<Segment>, k: nat)
    requires k < |ss|
    ensures SegmentsBytes(ss[..k + 1]) == SegmentsBytes(ss[..k]) + SegmentBytes(ss[k])
    ensures SegmentBytes(ss[k]) == [ss[k].name] + Be32(ss[k].addr)
  {
    assert ss[..k + 1][..k] == ss[..k];
  }

  lemma Extend(s: seq<byte>, a: seq<byte>, b: seq<byte>, c: seq<byte>)
    requires s == (a + b) + c
    ensures s == a + (b + c)
  {
  }

  predicate ShortNames(ms: seq<Mod>) { forall j :: 0 <= j < |ms| ==> |ms[j].name| < MAX_NAME }

  lemma ModsStep(ms: seq<Mod>, j: nat)
    requires j < |ms| && AllCountable(ms[..j]) && Countable(ms[j])
    ensures AllCountable(ms[..j + 1]) && ModsBytes(ms[..j + 1]) == ModsBytes(ms[..j]) + ModBytes(ms[j])
  {
    assert ms[..j + 1][..j] == ms[..j];
  }

  // The room asked for: 14 bytes behind a subject's name, 10 behind a module's, 6 for a segment.

  predicate ModFits(p: nat, m: Mod) {
    Countable(m) && p + |m.name| + 10 <= BUFFER && p + |m.name| + 2 + 5 * |m.segments| < BUFFER
  }

  /** All modules within their counts, each with the room it is asked for. */
  predicate ModsFit(p: nat, ms: seq<Mod>): (b: bool)
    ensures b ==> AllCountable(ms)
    decreases |ms|
  {
    ms == [] || (ModsFit(p, ms[..|ms| - 1]) && ModFits(p + |ModsBytes(ms[..|ms| - 1])|, ms[|ms| - 1]))
  }

  predicate SubjectFits(p: nat, x: Subject): (b: bool)
    ensures b ==> CountableSubject(x)
  {
    && |x.name| < MAX_NAME && |x.mods| <= MAX_QTY
    && p + |x.name| + 14 <= BUFFER && ModsFit(p + |x.name| + 2, x.mods)
  }

  predicate SubjectsFit(p: nat, xs: seq<Subject>): (b: bool)
    ensures b ==> AllCountableSubjects(xs)
    decreases |xs|
  {
    xs == [] || (SubjectsFit(p, xs[..|xs| - 1]) && SubjectFits(p + |SubjectsBytes(xs[..|xs| - 1])|, xs[|xs| - 1]))
  }

  lemma {:induction false} FewerModsFit(p: nat, ms: seq<Mod>, j: nat)
    requires ModsFit(p, ms) && j <= |ms|
    ensures ModsFit(p, ms[..j])
    decreases |ms|
  {
    hide ModFits;
    if j < |ms| {
      FewerModsFit(p, ms[..|ms| - 1], j);
      assert ms[..|ms| - 1][..j] == ms[..j];
    } else {
      assert ms[..j] == ms;
    }
  }

  lemma {:induction false} FewerSubjectsFit(p: nat, xs: seq<Subject>, i: nat)
    requires SubjectsFit(p, xs) && i <= |xs|
    ensures SubjectsFit(p, xs[..i])
    decreases |xs|
  {
    hide SubjectFits, CountableSubject;
    if i < |xs| {
      FewerSubjectsFit(p, xs[..|xs| - 1], i);
      assert xs[..|xs| - 1][..i] == xs[..i];
    } else {
      assert xs[..i] == xs;
    }
  }

  /** With eight bytes to spare all modules have their room. */
  lemma {:induction false} RoomForMods(p: nat, ms: seq<Mod>)
    requires AllCountable(ms) && p + |ModsBytes(ms)| + 7 < BUFFER
    ensures ModsFit(p, ms)
    decreases |ms|
  {
    hide Named, SegmentsBytes;
    if ms != [] { RoomForMods(p, ms[..|ms| - 1]); }
  }

  lemma {:induction false} RoomForSubjects(p: nat, xs: seq<Subject>)
    requires AllCountableSubjects(xs) && p + |SubjectsBytes(xs)| + 11 < BUFFER
    ensures SubjectsFit(p, xs)
    decreases |xs|
  {
    hide Named, ModsBytes, ModsFit, AllCountable;
    if xs != [] {
      var init, x := xs[..|xs| - 1], xs[|xs| - 1];
      RoomForSubjects(p, init);
      RoomForMods(p + |SubjectsBytes(init)| + |x.name| + 2, x.mods);
    }
  }

  lemma ModFitsExactly(p: nat, ms: seq<Mod>, j: nat)
    requires j < |ms| && ModsFit(p, ms[..j])
    ensures AllCountable(ms[..j]) && (ModsFit(p, ms[..j + 1]) <==> ModFits(p + |ModsBytes(ms[..j])|, ms[j]))
  {
    hide ModFits, ModsBytes;
    assert ms[..j + 1][..j] == ms[..j];
  }

  lemma SubjectFitsExactly(p: nat, xs: seq<Subject>, i: nat)
    requires i < |xs| && SubjectsFit(p, xs[..i])
    ensures AllCountableSubjects(xs[..i])
    ensures SubjectsFit(p, xs[..i + 1]) <==> SubjectFits(p + |SubjectsBytes(xs[..i])|, xs[i])
  {
    hide SubjectFits, SubjectsBytes, CountableSubject;
    assert xs[..i + 1][..i] == xs[..i];
  }

  method PutMod(buf: array<byte>, start: nat, m: Mod) returns (p: nat, ok: bool)
    requires buf.Length == BUFFER && start < BUFFER && |m.name| < MAX_NAME
    modifies buf
    ensures ok ==> Countable(m) && p == start + |ModBytes(m)| < BUFFER && buf[..p] == old(buf[..start]) + ModBytes(m)
    ensures ok <==> ModFits(start, m)
  {
    hide SegmentsBytes, Named;
    var q := |m.name|;
    p := start;
    if p + q + 10 > BUFFER { return p, false; }
    if |m.segments| > MAX_QTY { return p, false; }
    Copy(buf, p, Named(m.name, |m.segments|));
    p, ok := PutSegments(buf, p + q + 2, m.segments);
    if ok { assert buf[..p] == old(buf[..start]) + (Named(m.name, |m.segments|) + SegmentsBytes(m.segments)); }
  }

  lemma NothingPut(p: nat, head: seq<byte>)
    ensures ModsFit(p, []) && ModsBytes([]) == [] && SubjectsFit(p, []) && SubjectsBytes([]) == [] && head + [] == head
  {
  }

  /** The module loop. */
  method PutMods(buf: array<byte>, start: nat, ms: seq<Mod>) returns (p: nat, ok: bool)
    requires buf.Length == BUFFER && start < BUFFER && ShortNames(ms)
    modifies buf
    ensures ok ==> AllCountable(ms) && p < BUFFER && buf[..p] == old(buf[..start]) + ModsBytes(ms)
    ensures ok ==> p == start + |ModsBytes(ms)|
    ensures ok <==> ModsFit(start, ms)
  {
    hide ModsBytes, ModBytes, AllCountable, Countable, ModFits, ModsFit;
    ghost var head := buf[..start];
    p := start;
    NothingPut(start, head);
    assert ms[..0] == [];
    for j := 0 to |ms|
      invariant ModsFit(start, ms[..j]) && p == start + |ModsBytes(ms[..j])| < BUFFER
      invariant buf[..p] == head + ModsBytes(ms[..j])
    {
      ModFitsExactly(start, ms, j);
      if ModsFit(start, ms) { FewerModsFit(start, ms, j + 1); }
      var done;
      p, done := PutMod(buf, p, ms[j]);
      if !done { return p, false; }
      ModsStep(ms, j);
      Extend(buf[..p], head, ModsBytes(ms[..j]), ModBytes(ms[j]));
    }
    assert ms[..|ms|] == ms;
    ok := true;
  }

  predicate ShortSubject(x: Subject) { |x.name| < MAX_NAME && ShortNames(x.mods) }

  method PutSubject(buf: array<byte>, start: nat, x: Subject) returns (p: nat, ok: bool)
    requires buf.Length == BUFFER && start < BUFFER && ShortSubject(x)
    modifies buf
    ensures ok ==> CountableSubject(x) && p == start + |SubjectBytes(x)| < BUFFER
    ensures ok ==> buf[..p] == old(buf[..start]) + SubjectBytes(x)
    ensures ok <==> SubjectFits(start, x)
  {
    hide ModsBytes, Named, AllCountable, ShortNames, ModsFit;
    var q := |x.name|;
    p := start;
    if p + q + 14 > BUFFER { return p, false; }
    if |x.mods| > MAX_QTY { return p, false; }
    Copy(buf, p, Named(x.name, |x.mods|));
    p, ok := PutMods(buf, p + q + 2, x.mods);
    if ok { Extend(buf[..p], old(buf[..start]), Named(x.name, |x.mods|), ModsBytes(x.mods)); }
  }

  lemma SubjectsStep(xs: seq<Subject>, i: nat)
    requires i < |xs| && AllCountableSubjects(xs[..i]) && CountableSubject(xs[i])
    ensures AllCountableSubjects(xs[..i + 1])
    ensures SubjectsBytes(xs[..i + 1]) == SubjectsBytes(xs[..i]) + SubjectBytes(xs[i])
  {
    hide CountableSubject, SubjectBytes;
    assert xs[..i + 1][..i] == xs[..i];
  }

  /** The subject loop. */
  method PutSubjects(buf: array<byte>, start: nat, xs: seq<Subject>) returns (p: nat, ok: bool)
    requires buf.Length == BUFFER && start < BUFFER && forall i :: 0 <= i < |xs| ==> ShortSubject(xs[i])
    modifies buf
    ensures ok ==> AllCountableSubjects(xs) && p == start + |SubjectsBytes(xs)| < BUFFER
    ensures ok ==> buf[..p] == old(buf[..start]) + SubjectsBytes(xs)
    ensures ok <==> SubjectsFit(start, xs)
  {
    hide SubjectsBytes, SubjectBytes, AllCountableSubjects, CountableSubject, ShortSubject, SubjectFits, SubjectsFit;
    ghost var head := buf[..start];
    p := start;
    NothingPut(start, head);
    assert xs[..0] == [];
    for i := 0 to |xs|
      invariant SubjectsFit(start, xs[..i]) && p == start + |SubjectsBytes(xs[..i])| < BUFFER
      invariant buf[..p] == head + SubjectsBytes(xs[..i])
    {
      SubjectFitsExactly(start, xs, i);
      if SubjectsFit(start, xs) { FewerSubjectsFit(start, xs, i + 1); }
      var done;
      p, done := PutSubject(buf, p, xs[i]);
      if !done { return p, false; }
      SubjectsStep(xs, i);
      Extend(buf[..p], head, SubjectsBytes(xs[..i]), SubjectBytes(xs[i]));
    }
    assert xs[..|xs|] == xs;
    ok := true;
  }

  /** osubjSendSegments: what is sent is the report's bytes, and it is sent if and
      only if it keeps to its counts and every subject, module and segment has the
      room that is asked for it. A report that leaves 10 bytes of the buffer free
      always has it. */
  method Print(initial: bool, xs: seq<Subject>) returns (packet: Option<seq<byte>>)
    requires forall i :: 0 <= i < |xs| ==> ShortSubject(xs[i])
    ensures packet.Some? ==> Printable(Report(initial, xs)) && packet.value == ReportBytes(Report(initial, xs))
    ensures packet.Some? ==> |packet.value| <= BUFFER
    ensures packet.Some? <==> |xs| <= MAX_QTY && SubjectsFit(2, xs)
    ensures packet.None? && Printable(Report(initial, xs)) ==> |ReportBytes(Report(initial, xs))| + 10 >= BUFFER
  {
    hide SubjectsBytes, AllCountableSubjects, ShortSubject, SubjectsFit;
    if AllCountableSubjects(xs) && 2 + |SubjectsBytes(xs)| + 11 < BUFFER { RoomForSubjects(2, xs); }
    var buf := new byte[BUFFER];
    buf[0] := if initial then 1 else 0;
    if |xs| > MAX_QTY { return None; }
    buf[1] := |xs| as byte;
    ghost var head := buf[..2];
    var p, ok := PutSubjects(buf, 2, xs);
    if !ok { return None; }
    ghost var body := buf[..p];
    buf[p] := 0;
    assert buf[..p + 1] == body + [0];
    assert head == [if initial then 1 else 0, |xs| as byte];
    packet := Some(buf[..p + 1]);
  }

  // -------------------------------------------------------- the hub's first pass

  /** The segment loop of the first pass over the packet mem[..len]. */
  method CheckSegments(mem: seq<byte>, len: nat, start: nat, n: nat) returns (p: nat, ok: bool)
    requires start <= len + 1 && len + 2 <= |mem|
    ensures start <= len ==> (ok <==> ReadSegments(mem[start..len], n).Some?)
    ensures start <= len && ok ==> p <= len && ReadSegments(mem[start..len], n).value.rest == mem[p..len]
    ensures start > len ==> if ok then n == 0 && p == start else n > 0
  {
    p := start;
    hide Un32;
    var k := 0;
    while k < n
      invariant k <= n && start <= p && (p <= len || (p == start && k == 0))
      invariant start <= len ==> SameEnd(ReadSegments(mem[start..len], n), ReadSegments(mem[p..len], n - k))
    {
      var segmentName := mem[p];
      p := p + 1 + 4;
      if p > len { return p, false; }
      k := k + 1;
      assert mem[p - 5..len][5..] == mem[p..len];
    }
    ok := true;
  }

  /** Both readings fail, or both succeed and stop at the same place. */
  predicate SameEnd<T, U>(a: Option<Got<T>>, b: Option<Got<U>>) {
    (a.Some? <==> b.Some?) && (a.Some? ==> a.value.rest == b.value.rest)
  }

  /** A checked name and count: the count may be read from just past the packet. */
  method CheckHeader(mem: seq<byte>, len: nat, start: nat) returns (p: nat, qty: nat, ok: bool)
    requires start <= len + 1 && len + 2 <= |mem|
    ensures ok ==> start <= len && p <= len + 1
    ensures start <= len ==> (ok && p <= len <==> ReadHeader(mem[start..len]).Some?)
    ensures ok && p <= len ==> var h := ReadHeader(mem[start..len]).value; h.qty == qty && h.rest == mem[p..len]
  {
    var q := mem[start] as int;
    p, qty, ok := start + 1 + q, 0, false;
    if q >= MAX_NAME || q == 0 || p > len { return; }
    qty := mem[p] as int;
    p := p + 1;
    if qty > MAX_QTY { return; }
    ok := true;
    if p <= len { assert mem[start..len][2 + q..] == mem[p..len]; }
  }

  /** The loop's verdict from `start` on is that of the reader, `r`. */
  predicate Agrees<T>(mem: seq<byte>, len: nat, start: nat, p: nat, ok: bool, r: Option<Got<T>>)
    requires start <= len <= |mem|
  {
    && (ok ==> p <= len + 1)
    && (r.Some? <==> ok && p <= len)
    && (r.Some? ==> r.value.rest == mem[p..len])
  }

  method CheckMod(mem: seq<byte>, len: nat, start: nat) returns (p: nat, ok: bool)
    requires start <= len + 1 && len + 2 <= |mem|
    ensures ok ==> start <= len && p <= len + 1
    ensures start <= len ==> (ok && p <= len <==> ReadMod(mem[start..len]).Some?)
    ensures ok && p <= len ==> ReadMod(mem[start..len]).value.1 == mem[p..len]
  {
    hide ReadHeader, ReadSegments;
    var n;
    p, n, ok := CheckHeader(mem, len, start);
    if ok { p, ok := CheckSegments(mem, len, p, n); }
  }

  /** The module loop of the first pass. */
  method CheckMods(mem: seq<byte>, len: nat, start: nat, n: nat) returns (p: nat, ok: bool)
    requires start <= len + 1 && len + 2 <= |mem|
    ensures start <= len ==> Agrees(mem, len, start, p, ok, ReadMods(mem[start..len], n))
    ensures start > len && ok ==> p == start
  {
    hide ReadMods, ReadMod;
    p := start;
    for j := 0 to n
      invariant p <= len + 1 && (start > len ==> p == start)
      invariant start <= len && p <= len ==> SameEnd(ReadMods(mem[start..len], n), ReadMods(mem[p..len], n - j))
      invariant start <= len && p > len ==> ReadMods(mem[start..len], n).None?
    {
      if p <= len { ReadModsStep(mem[p..len], n - j); }
      p, ok := CheckMod(mem, len, p);
      if !ok { return; }
    }
    if p <= len { ReadModsNone(mem[p..len]); }
    ok := true;
  }

  method CheckSubject(mem: seq<byte>, len: nat, start: nat) returns (p: nat, ok: bool)
    requires start <= len + 1 && len + 2 <= |mem|
    ensures ok ==> start <= len && p <= len + 1
    ensures start <= len ==> (ok && p <= len <==> ReadSubject(mem[start..len]).Some?)
    ensures ok && p <= len ==> ReadSubject(mem[start..len]).value.1 == mem[p..len]
  {
    hide ReadHeader, ReadMods;
    var n;
    p, n, ok := CheckHeader(mem, len, start);
    if ok { p, ok := CheckMods(mem, len, p, n); }
  }

  /** The subject loop of the first pass. */
  method CheckSubjects(mem: seq<byte>, len: nat, start: nat, n: nat) returns (p: nat, ok: bool)
    requires start <= len + 1 && len + 2 <= |mem|
    ensures start <= len ==> Agrees(mem, len, start, p, ok, ReadSubjects(mem[start..len], n))
    ensures start > len && ok ==> p == start
  {
    hide ReadSubjects, ReadSubject;
    p := start;
    for i := 0 to n
      invariant p <= len + 1 && (start > len ==> p == start)
      invariant start <= len && p <= len ==> SameEnd(ReadSubjects(mem[start..len], n), ReadSubjects(mem[p..len], n - i))
      invariant start <= len && p > len ==> ReadSubjects(mem[start..len], n).None?
    {
      if p <= len { ReadSubjectsStep(mem[p..len], n - i); }
      p, ok := CheckSubject(mem, len, p);
      if !ok { return; }
    }
    if p <= len { ReadSubjectsNone(mem[p..len]); }
    ok := true;
  }

  /** The first pass over the packet mem[..len]. It may look at the next bytes of
      the receive buffer, which is two bytes longer, but what they hold never
      changes its verdict: it accepts exactly what the reader reads. */
  method CheckReport(mem: seq<byte>, len: nat) returns (ok: bool)
    requires 1 <= len && len + 2 <= |mem|
    ensures ok <==> ReadReport(mem[..len]).Some?
  {
    hide ReadSubjects;
    if mem[0] > 1 { return false; }
    var n := mem[1] as int;
    if n > MAX_QTY { return false; }
    var p;
    p, ok := CheckSubjects(mem, len, 2, n);
    if len >= 2 { assert mem[..len][2..] == mem[2..len]; }
    if !ok { return false; }
    if mem[p] != 0 { return false; }
    ok := p + 1 == len;
    if p < len { assert mem[p..len][0] == mem[p]; }
  }
}
