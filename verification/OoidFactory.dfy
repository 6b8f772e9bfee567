/** Numbers for paths: a growing heap of (path, id) entries, indexed by path and
    by id, saved to and loaded from a text file. */
module OoidFactory {
  import opened Bytes
  import opened Decimals
  import opened TreeHash

  datatype Entry = Entry(path: seq<byte>, ooid: Long)

  /** C strings hold no NUL. */
  predicate CString(s: seq<byte>) { 0 !in s }

  predicate CStrings(es: seq<Entry>) {
    forall k :: 0 <= k < |es| ==> CString(es[k].path)
  }

  // -------------------------------------------------------------- the heap

  /** The string, its NUL and the id. The id is read back on the machine that
      wrote it, so its byte order does not matter. */
  function Cell(e: Entry): (s: seq<byte>)
    ensures |s| == |e.path| + 5
  {
    e.path + [0] + Be32(e.ooid)
  }

  function Cells(es: seq<Entry>): seq<byte> {
    if es == [] then [] else Cells(es[..|es| - 1]) + Cell(es[|es| - 1])
  }

  function Offset(es: seq<Entry>, k: nat): nat
    requires k <= |es|
  {
    |Cells(es[..k])|
  }

  lemma CellsOneMore(es: seq<Entry>, e: Entry)
    ensures Cells(es + [e]) == Cells(es) + Cell(e)
    ensures Offset(es + [e], |es|) == |Cells(es)|
    ensures forall k :: 0 <= k <= |es| ==> Offset(es + [e], k) == Offset(es, k)
  {
    assert (es + [e])[..|es|] == es;
    assert forall k :: 0 <= k <= |es| ==> (es + [e])[..k] == es[..k];
  }

  /** Entry k lies whole at its offset, and the next one starts where it ends. */
  lemma {:induction false} CellAt(es: seq<Entry>, k: nat)
    requires k < |es|
    ensures Offset(es, k + 1) == Offset(es, k) + |Cell(es[k])| <= |Cells(es)|
    ensures Cells(es)[Offset(es, k)..Offset(es, k) + |Cell(es[k])|] == Cell(es[k])
  {
    hide Cell;
    var n := |es| - 1;
    assert es[..k + 1][..k] == es[..k];
    if k == n {
      assert es[..k + 1] == es;
    } else {
      CellAt(es[..n], k);
      assert es[..n][..k] == es[..k] && es[..n][..k + 1] == es[..k + 1];
      var o := Offset(es, k);
      assert Cells(es)[o..o + |Cell(es[k])|] == Cells(es[..n])[o..o + |Cell(es[k])|];
    }
  }

  lemma {:induction false} OffsetsDiffer(es: seq<Entry>, j: nat, k: nat)
    requires j < k <= |es|
    ensures Offset(es, j) < Offset(es, k)
    decreases k - j
  {
    CellAt(es, j);
    if j + 1 < k { OffsetsDiffer(es, j + 1, k); }
  }

  // --------------------------------------------------------- the two indexes

  predicate DistinctPaths(es: seq<Entry>) {
    forall j, k :: 0 <= j < k < |es| ==> es[j].path != es[k].path
  }

  predicate DistinctIds(es: seq<Entry>) {
    forall j, k :: 0 <= j < k < |es| ==> es[j].ooid != es[k].ooid
  }

  predicate HasPath(es: seq<Entry>, path: seq<byte>) {
    exists k :: 0 <= k < |es| && es[k].path == path
  }

  predicate HasId(es: seq<Entry>, ooid: Long) {
    exists k :: 0 <= k < |es| && es[k].ooid == ooid
  }

  /** The path index holds the entries' paths and nothing else. */
  ghost predicate PathsMirrored(es: seq<Entry>, byPath: map<seq<byte>, int>) {
    && DistinctPaths(es)
    && (forall p :: p in byPath ==> HasPath(es, p))
    && forall k :: 0 <= k < |es| ==> es[k].path in byPath && byPath[es[k].path] == AsInt(es[k].ooid)
  }

  /** The id index holds the entries' places and nothing else. */
  ghost predicate IdsMirrored(es: seq<Entry>, byOoid: map<Int32, int>) {
    DistinctIds(es) && IdsKnown(es, byOoid) && forall k: nat :: k < |es| ==> PlacedAt(byOoid, es[k].ooid, Offset(es, k))
  }

  ghost predicate IdsKnown(es: seq<Entry>, byOoid: map<Int32, int>) {
    forall i :: i in byOoid ==> HasId(es, AsUnsigned(i))
  }

  predicate PlacedAt(byOoid: map<Int32, int>, ooid: Long, place: nat) {
    AsInt(ooid) in byOoid && byOoid[AsInt(ooid)] == place
  }

  function AsUnsigned(k: int): (w: Long) { k % 0x1_0000_0000 }

  /** The next id: 0 is skipped when the counter wraps. */
  function NextId(seqNo: Long): (id: Long)
    ensures id != 0
  {
    if seqNo == 0xFFFF_FFFF then 1 else seqNo + 1
  }

  /** As long as the counter has not wrapped, the next id is a new one. */
  predicate Ascending(es: seq<Entry>, seqNo: Long) {
    && (forall j, k :: 0 <= j < k < |es| ==> es[j].ooid < es[k].ooid)
    && (forall k :: 0 <= k < |es| ==> 0 < es[k].ooid <= seqNo)
    && seqNo == (if es == [] then 0 else es[|es| - 1].ooid)
  }

  lemma AscendingIsFresh(es: seq<Entry>, seqNo: Long, path: seq<byte>)
    requires Ascending(es, seqNo) && seqNo < 0xFFFF_FFFF
    ensures !HasId(es, NextId(seqNo)) && Ascending(es + [Entry(path, NextId(seqNo))], NextId(seqNo))
    ensures DistinctIds(es)
  {
  }

  lemma IntsAreLongs(a: Long, b: Long)
    ensures AsUnsigned(AsInt(a)) == a
    ensures AsInt(a) == AsInt(b) ==> a == b
  {
  }

  /** Adding an entry with a new path keeps the path index right exactly when
      the index takes it. */
  lemma PathOneMore(es: seq<Entry>, e: Entry, byPath: map<seq<byte>, int>, byPath': map<seq<byte>, int>, taken: bool)
    requires PathsMirrored(es, byPath) && !HasPath(es, e.path)
    requires byPath' == if taken then byPath[e.path := AsInt(e.ooid)] else byPath
    ensures PathsMirrored(es + [e], byPath') <==> taken
  {
    var es' := es + [e];
    assert es'[|es|] == e;
    if taken {
      forall p | p in byPath' ensures HasPath(es', p) {
        if p != e.path {
          assert HasPath(es, p);
          var k :| 0 <= k < |es| && es[k].path == p;
          assert es'[k].path == p;
        }
      }
    } else {
      assert e.path in byPath ==> HasPath(es, e.path);
      assert es'[|es|].path !in byPath';
    }
  }

  lemma IdStaysKnown(es: seq<Entry>, e: Entry, ooid: Long)
    ensures HasId(es + [e], ooid) <==> HasId(es, ooid) || ooid == e.ooid
  {
    var es' := es + [e];
    assert es'[|es|] == e;
    if HasId(es, ooid) {
      var k :| 0 <= k < |es| && es[k].ooid == ooid;
      assert es'[k].ooid == ooid;
    }
  }

  lemma IdTaken(es: seq<Entry>, e: Entry, byOoid: map<Int32, int>)
    requires IdsMirrored(es, byOoid) && !HasId(es, e.ooid)
    ensures IdsMirrored(es + [e], byOoid[AsInt(e.ooid) := |Cells(es)|])
  {
    hide Cells, Offset, AsInt, AsUnsigned, HasId;
    var es', byOoid' := es + [e], byOoid[AsInt(e.ooid) := |Cells(es)|];
    IntsAreLongs(e.ooid, e.ooid);
    forall i | i in byOoid' ensures HasId(es', AsUnsigned(i)) {
      IdStaysKnown(es, e, AsUnsigned(i));
    }
    forall k: nat | k < |es'| ensures PlacedAt(byOoid', es'[k].ooid, Offset(es', k)) {
      CellsOneMore(es, e);
      if k < |es| {
        IdIsOld(es, k, e.ooid);
        assert PlacedAt(byOoid, es[k].ooid, Offset(es, k));
      }
    }
    assert DistinctIds(es') by {
      forall k | 0 <= k < |es| ensures es[k].ooid != e.ooid { IdIsOld(es, k, e.ooid); }
    }
  }

  lemma IdIsOld(es: seq<Entry>, k: nat, ooid: Long)
    requires k < |es| && !HasId(es, ooid)
    ensures es[k].ooid != ooid && AsInt(es[k].ooid) != AsInt(ooid)
  {
    IntsAreLongs(es[k].ooid, ooid);
  }

  /** Adding an entry keeps the id index right exactly when the index takes it;
      it takes no id a second time. */
  lemma IdOneMore(es: seq<Entry>, e: Entry, byOoid: map<Int32, int>, byOoid': map<Int32, int>, taken: bool)
    requires IdsMirrored(es, byOoid) && (HasId(es, e.ooid) ==> !taken)
    requires byOoid' == if taken then byOoid[AsInt(e.ooid) := |Cells(es)|] else byOoid
    ensures IdsMirrored(es + [e], byOoid') <==> taken
  {
    hide Cells, Offset, AsInt, AsUnsigned;
    var es' := es + [e];
    assert es'[|es|] == e;
    IntsAreLongs(e.ooid, e.ooid);
    if taken {
      IdTaken(es, e, byOoid);
    } else if HasId(es, e.ooid) {
      var k :| 0 <= k < |es| && es[k].ooid == e.ooid;
      assert es'[k].ooid == es'[|es|].ooid;
    } else {
      assert AsInt(e.ooid) in byOoid ==> HasId(es, AsUnsigned(AsInt(e.ooid)));
      assert !PlacedAt(byOoid', es'[|es|].ooid, Offset(es', |es|));
    }
  }

  // ---------------------------------------------------------- the saved text

  const SPACE: byte := 32
  const NEWLINE: byte := 10
  const PLUS: byte := 43
  const MINUS: byte := 45

  predicate IsSpace(b: byte) { b == SPACE || 9 <= b <= 13 }

  /** A path that a text reader takes as one word. */
  predicate OneWord(path: seq<byte>) {
    path != [] && forall i :: 0 <= i < |path| ==> !IsSpace(path[i])
  }

  function Spaces(n: nat): (s: seq<byte>)
    ensures |s| == n && forall i :: 0 <= i < n ==> s[i] == SPACE
  {
    seq(n, _ => SPACE)
  }

  /** "%-4lu %s\n" */
  function Line(e: Entry): seq<byte> {
    var d := Decimal(e.ooid);
    d + Spaces(if |d| < 4 then 4 - |d| else 0) + [SPACE] + e.path + [NEWLINE]
  }

  /** The number is padded to four columns, and the path follows behind a space. */
  lemma LineMeans(e: Entry)
    ensures var d, s := Decimal(e.ooid), Line(e);
            var col := if |d| < 4 then 5 else |d| + 1;
            && AllDigits(d) && Number(d) == e.ooid
            && |s| == col + |e.path| + 1 && s[..|d|] == d && (forall i :: |d| <= i < col ==> s[i] == SPACE)
            && s[col..] == e.path + [NEWLINE]
  {
    hide Decimal, Number, AllDigits;
    NumberOfDecimal(e.ooid);
    var d := Decimal(e.ooid);
    var col := if |d| < 4 then 5 else |d| + 1;
    assert Line(e) == d + Spaces(col - |d|) + (e.path + [NEWLINE]) by {
      assert Spaces(col - |d| - 1) + [SPACE] == Spaces(col - |d|);
      assert Line(e) == d + (Spaces(col - |d| - 1) + [SPACE]) + (e.path + [NEWLINE]);
    }
    Columns(d, Spaces(col - |d|), e.path + [NEWLINE]);
  }

  lemma Columns(d: seq<byte>, pad: seq<byte>, rest: seq<byte>)
    ensures var s := d + pad + rest;
            && |s| == |d| + |pad| + |rest| && s[..|d|] == d && s[|d| + |pad|..] == rest
            && forall i :: |d| <= i < |d| + |pad| ==> s[i] == pad[i - |d|]
  {
  }

  function Lines(es: seq<Entry>): seq<byte> {
    if es == [] then [] else Line(es[0]) + Lines(es[1..])
  }

  lemma {:induction false} LinesOneMore(es: seq<Entry>, e: Entry)
    ensures Lines(es + [e]) == Lines(es) + Line(e)
  {
    hide Line;
    if es == [] {
      assert [e][1..] == [];
    } else {
      LinesOneMore(es[1..], e);
      assert (es + [e])[1..] == es[1..] + [e];
    }
  }

  function DropSpace(s: seq<byte>): (r: seq<byte>)
    ensures |r| <= |s| && (r != [] ==> !IsSpace(r[0]))
  {
    if s != [] && IsSpace(s[0]) then DropSpace(s[1..]) else s
  }

  function WordRun(s: seq<byte>): (n: nat)
    ensures n <= |s| && forall i :: 0 <= i < n ==> !IsSpace(s[i])
  {
    if s != [] && !IsSpace(s[0]) then 1 + WordRun(s[1..]) else 0
  }

  datatype Scanned = Scanned(entry: Entry, rest: seq<byte>)

  /** What "%lu" makes of a run of digits with or without a sign. */
  function ToLong(negative: bool, n: nat): Long {
    if n > 0xFFFF_FFFF then 0xFFFF_FFFF else if negative then (0x1_0000_0000 - n) % 0x1_0000_0000 else n
  }

  /** fscanf(" %lu %s"), when it reads both. */
  function ScanEntry(s: seq<byte>): (r: Option<Scanned>)
    ensures r.Some? ==> |r.value.rest| < |s| && OneWord(r.value.entry.path)
  {
    var s1 := DropSpace(s);
    var signed := s1 != [] && s1[0] in {PLUS, MINUS};
    var s2 := if signed then s1[1..] else s1;
    var n := DigitRun(s2);
    var s3 := DropSpace(s2[n..]);
    var w := WordRun(s3);
    if n == 0 || w == 0 then None
    else Some(Scanned(Entry(s3[..w], ToLong(signed && s1[0] == MINUS, Number(s2[..n]))), s3[w..]))
  }

  function Parse(s: seq<byte>): (es: seq<Entry>)
    ensures forall k :: 0 <= k < |es| ==> OneWord(es[k].path)
    decreases |s|
  {
    match ScanEntry(s)
    case None => []
    case Some(r) => [r.entry] + Parse(r.rest)
  }

  lemma {:induction false} DropSpaces(n: nat, s: seq<byte>)
    ensures DropSpace(Spaces(n) + s) == DropSpace(s)
  {
    if n == 0 {
      assert Spaces(0) + s == s;
    } else {
      DropSpaces(n - 1, s);
      assert (Spaces(n) + s)[1..] == Spaces(n - 1) + s;
    }
  }

  lemma {:induction false} WordRunStops(w: seq<byte>, s: seq<byte>)
    requires forall i :: 0 <= i < |w| ==> !IsSpace(w[i])
    requires s != [] && IsSpace(s[0])
    ensures WordRun(w + s) == |w|
  {
    if w == [] {
      assert w + s == s;
    } else {
      WordRunStops(w[1..], s);
      assert (w + s)[1..] == w[1..] + s;
    }
  }

  lemma NoSpaceToDrop(s: seq<byte>)
    requires s != [] && !IsSpace(s[0])
    ensures DropSpace(s) == s
  {
  }

  lemma LineShape(e: Entry, rest: seq<byte>)
    ensures var d := Decimal(e.ooid);
            Line(e) + rest == d + (Spaces((if |d| < 4 then 4 - |d| else 0) + 1) + (e.path + ([NEWLINE] + rest)))
  {
    hide Decimal;
  }

  /** A written line reads back as its entry, up to the newline. */
  lemma LineReadsBack(e: Entry, rest: seq<byte>)
    requires OneWord(e.path)
    ensures ScanEntry(Line(e) + rest) == Some(Scanned(e, [NEWLINE] + rest))
  {
    hide Number, Decimal, Line, DropSpace, DigitRun, WordRun, Spaces;
    var d := Decimal(e.ooid);
    var pad := if |d| < 4 then 4 - |d| else 0;
    var tail := e.path + ([NEWLINE] + rest);
    var s := Line(e) + rest;
    LineShape(e, rest);
    NumberOfDecimal(e.ooid);
    assert IsDigit(d[0]) && s[0] == d[0];
    NoSpaceToDrop(s);
    NoSpaceToDrop(tail);
    DigitRunStops(d, Spaces(pad + 1) + tail);
    assert s[..|d|] == d && s[|d|..] == Spaces(pad + 1) + tail;
    DropSpaces(pad + 1, tail);
    assert tail[0] == e.path[0];
    WordRunStops(e.path, [NEWLINE] + rest);
    assert tail[..|e.path|] == e.path && tail[|e.path|..] == [NEWLINE] + rest;
  }

  lemma NewlineIsSkipped(s: seq<byte>)
    ensures Parse([NEWLINE] + s) == Parse(s)
  {
    assert ([NEWLINE] + s)[1..] == s;
    assert ScanEntry([NEWLINE] + s) == ScanEntry(s);
  }

  lemma {:induction false} ParseLines(es: seq<Entry>)
    requires forall k :: 0 <= k < |es| ==> OneWord(es[k].path)
    ensures Parse(Lines(es)) == es && Parse([NEWLINE] + Lines(es)) == es
  {
    hide Line, OneWord, ScanEntry;
    NewlineIsSkipped(Lines(es));
    if es == [] {
      assert ScanEntry([]).None?;
    } else {
      LineReadsBack(es[0], Lines(es[1..]));
      ParseLines(es[1..]);
      assert Lines(es) == Line(es[0]) + Lines(es[1..]);
      assert es == [es[0]] + es[1..];
    }
  }

  /** Saved text reads back as what was saved exactly when every path is one word. */
  lemma SavedReadsBack(es: seq<Entry>)
    ensures Parse(Lines(es)) == es <==> forall k :: 0 <= k < |es| ==> OneWord(es[k].path)
  {
    hide Lines, OneWord;
    if forall k :: 0 <= k < |es| ==> OneWord(es[k].path) {
      ParseLines(es);
    }
  }

  // -------------------------------------------------------------- the factory

  /** Every place the id index knows is where an entry lies. */
  ghost predicate PlacesKnown(es: seq<Entry>, byOoid: map<Int32, int>) {
    forall i :: i in byOoid ==> IsPlace(es, byOoid[i])
  }

  ghost predicate IsPlace(es: seq<Entry>, place: int) {
    exists k: nat :: k < |es| && place == Offset(es, k)
  }

  lemma PlaceStays(es: seq<Entry>, e: Entry, byOoid: map<Int32, int>, byOoid': map<Int32, int>)
    requires PlacesKnown(es, byOoid)
    requires byOoid' == byOoid || byOoid' == byOoid[AsInt(e.ooid) := |Cells(es)|]
    ensures PlacesKnown(es + [e], byOoid')
  {
    hide Cells, Offset, AsInt;
    CellsOneMore(es, e);
    forall i | i in byOoid' ensures IsPlace(es + [e], byOoid'[i]) {
      if byOoid' != byOoid && i == AsInt(e.ooid) {
        assert byOoid'[i] == Offset(es + [e], |es|);
      } else {
        assert IsPlace(es, byOoid[i]);
        var k: nat :| k < |es| && byOoid[i] == Offset(es, k);
        assert byOoid'[i] == Offset(es + [e], k);
      }
    }
  }

  /** An entry with a path that is listed already ruins the path index. */
  lemma PathTwice(es: seq<Entry>, e: Entry, byPath: map<seq<byte>, int>)
    requires HasPath(es, e.path)
    ensures !PathsMirrored(es + [e], byPath)
  {
    var k :| 0 <= k < |es| && es[k].path == e.path;
    assert (es + [e])[k].path == (es + [e])[|es|].path;
  }

  lemma PathKnown(es: seq<Entry>, byPath: map<seq<byte>, int>, path: seq<byte>, ooid: Long)
    requires PathsMirrored(es, byPath)
    ensures path in byPath <==> HasPath(es, path)
    ensures path in byPath && byPath[path] == AsInt(ooid) ==> HasId(es, ooid)
  {
    if HasPath(es, path) {
      var k: nat :| k < |es| && es[k].path == path;
      IntsAreLongs(es[k].ooid, ooid);
    }
  }

  lemma IdKnown(es: seq<Entry>, byOoid: map<Int32, int>, ooid: Long)
    requires IdsMirrored(es, byOoid)
    ensures AsInt(ooid) in byOoid <==> HasId(es, ooid)
    ensures AsInt(ooid) in byOoid ==> byOoid[AsInt(ooid)] != |Cells(es)|
  {
    hide Offset, Cells, AsInt, AsUnsigned;
    IntsAreLongs(ooid, ooid);
    if HasId(es, ooid) {
      var k: nat :| k < |es| && es[k].ooid == ooid;
      assert PlacedAt(byOoid, es[k].ooid, Offset(es, k));
      OffsetsDiffer(es, k, |es|);
      WholeOffset(es);
    }
  }

  lemma PathLookup(es: seq<Entry>, byPath: map<seq<byte>, int>, path: seq<byte>)
    requires PathsMirrored(es, byPath)
    ensures path in byPath <==> HasPath(es, path)
    ensures path in byPath ==> Entry(path, AsUnsigned(byPath[path])) in es
  {
    hide AsInt, AsUnsigned;
    if HasPath(es, path) {
      var k: nat :| k < |es| && es[k].path == path;
      IntsAreLongs(es[k].ooid, es[k].ooid);
      assert es[k] == Entry(path, AsUnsigned(byPath[path]));
    }
  }

  lemma SamePlace(es: seq<Entry>, j: nat, k: nat)
    requires j <= |es| && k <= |es| && Offset(es, j) == Offset(es, k)
    ensures j == k
  {
    hide Offset;
    if j < k { OffsetsDiffer(es, j, k); } else if k < j { OffsetsDiffer(es, k, j); }
  }

  lemma IdWhere(es: seq<Entry>, byOoid: map<Int32, int>, ooid: Long) returns (j: nat)
    requires IdsMirrored(es, byOoid) && AsInt(ooid) in byOoid
    ensures j < |es| && es[j].ooid == ooid && PlacedAt(byOoid, ooid, Offset(es, j))
  {
    hide Offset, AsInt, AsUnsigned;
    IntsAreLongs(ooid, ooid);
    assert HasId(es, AsUnsigned(AsInt(ooid)));
    j :| j < |es| && es[j].ooid == ooid;
    assert PlacedAt(byOoid, es[j].ooid, Offset(es, j));
  }

  lemma IdLookup(es: seq<Entry>, byOoid: map<Int32, int>, ooid: Long, k: nat)
    requires IdsMirrored(es, byOoid) && k < |es|
    requires AsInt(ooid) in byOoid && byOoid[AsInt(ooid)] == Offset(es, k)
    ensures es[k].ooid == ooid && es[k] in es
  {
    hide Offset, AsInt, AsUnsigned, IdsMirrored;
    var j := IdWhere(es, byOoid, ooid);
    SamePlace(es, j, k);
  }

  /** The path of an entry that lies at this place. */
  ghost predicate NameAt(es: seq<Entry>, place: int, path: seq<byte>) {
    exists k: nat :: k < |es| && place == Offset(es, k) && es[k].path == path
  }

  /** Distinct ids name one path each. */
  lemma OnePathPerId(es: seq<Entry>, a: Entry, b: Entry)
    requires DistinctIds(es) && a in es && b in es && a.ooid == b.ooid
    ensures a == b
  {
    var j, k :| 0 <= j < |es| && 0 <= k < |es| && es[j] == a && es[k] == b;
  }

  /** What the id index knew before, it gives no new path to. */
  lemma OldNames(es: seq<Entry>, e: Entry, byOoid: map<Int32, int>, i: Int32, name: seq<byte>)
    requires PlacesKnown(es, byOoid) && i in byOoid && NameAt(es + [e], byOoid[i], name)
    ensures HasPath(es, name)
  {
    hide Offset;
    assert IsPlace(es, byOoid[i]);
    CellsOneMore(es, e);
    var k: nat :| k < |es| && byOoid[i] == Offset(es, k);
    var j: nat :| j < |es + [e]| && byOoid[i] == Offset(es + [e], j) && (es + [e])[j].path == name;
    SamePlace(es + [e], j, k);
    assert es[k].path == name;
  }

  /** The entries determine both indexes. */
  lemma IndexesDetermined(es: seq<Entry>, byPath: map<seq<byte>, int>, byPath': map<seq<byte>, int>,
                          byOoid: map<Int32, int>, byOoid': map<Int32, int>)
    requires PathsMirrored(es, byPath) && PathsMirrored(es, byPath')
    requires IdsMirrored(es, byOoid) && IdsMirrored(es, byOoid')
    ensures byPath == byPath' && byOoid == byOoid'
  {
    hide Offset, AsInt, AsUnsigned, IdsMirrored;
    forall p ensures p in byPath <==> p in byPath' { PathKnown(es, byPath, p, 0); PathKnown(es, byPath', p, 0); }
    forall p | p in byPath ensures byPath[p] == byPath'[p] {
      assert HasPath(es, p);
      var k :| 0 <= k < |es| && es[k].path == p;
    }
    forall i: Int32 ensures i in byOoid <==> i in byOoid' { IdOf(i); IdKnown(es, byOoid, AsUnsigned(i)); IdKnown(es, byOoid', AsUnsigned(i)); }
    forall i | i in byOoid ensures byOoid[i] == byOoid'[i] {
      IdOf(i);
      var j := IdWhere(es, byOoid, AsUnsigned(i));
      var j' := IdWhere(es, byOoid', AsUnsigned(i));
      assert j == j' by { assert IdsMirrored(es, byOoid); SameIdSamePlace(es, byOoid, j, j'); }
    }
  }

  lemma MirrorsAreDistinct(es: seq<Entry>, byPath: map<seq<byte>, int>, byOoid: map<Int32, int>)
    requires PathsMirrored(es, byPath) && IdsMirrored(es, byOoid)
    ensures DistinctPaths(es) && DistinctIds(es)
  {
  }

  lemma IdOf(i: Int32)
    ensures AsInt(AsUnsigned(i)) == i
  {
  }

  lemma SameIdSamePlace(es: seq<Entry>, byOoid: map<Int32, int>, j: nat, k: nat)
    requires IdsMirrored(es, byOoid) && j < |es| && k < |es| && es[j].ooid == es[k].ooid
    ensures j == k
  {
  }

  /** How far the k-th id is ahead of the one before. */
  function Step(es: seq<Entry>, k: nat): int
    requires k < |es|
  {
    es[k].ooid - if k == 0 then 0 else es[k - 1].ooid
  }

  /** Each id follows the one before within half the range. */
  predicate SmallSteps(es: seq<Entry>) { forall k: nat :: k < |es| ==> Step(es, k) < 0x8000_0000 }

  /** Reading its own ids takes a factory to its counter, or leaves it behind by
      half the range or more. */
  lemma {:induction false} CounterFollows(es: seq<Entry>, seqNo: Long)
    requires Ascending(es, seqNo)
    ensures if SmallSteps(es) then Raised(0, es) == seqNo else Raised(0, es) <= seqNo - 0x8000_0000
  {
    hide Ascending, SmallSteps, AsInt, Raised, Raise;
    if es == [] {
      SmallStart(seqNo);
    } else {
      var n := |es| - 1;
      var init := es[..n];
      var before := if init == [] then 0 else init[n - 1].ooid;
      AscendingInit(es, seqNo);
      CounterFollows(init, before);
      assert es == init + [es[n]];
      RaisedOneMore(0, init, es[n]);
      NextRaise(Raised(0, init), before, seqNo);
    }
  }

  /** A counter that is at the number before, or far behind it, meets the next one. */
  lemma NextRaise(counter: Long, before: Long, id: Long)
    requires before < id && (counter == before || counter <= before - 0x8000_0000)
    ensures var next := Raise(counter, id);
            if counter == before && id - before < 0x8000_0000 then next == id else next <= id - 0x8000_0000
  {
    hide AsInt;
    OneRaise(counter, id);
  }

  lemma SmallStart(seqNo: Long)
    requires Ascending([], seqNo)
    ensures SmallSteps([]) && Raised(0, []) == seqNo
  {
  }

  lemma AscendingInit(es: seq<Entry>, seqNo: Long)
    requires Ascending(es, seqNo) && es != []
    ensures var init := es[..|es| - 1];
            var before := if init == [] then 0 else init[|init| - 1].ooid;
            Ascending(init, before) && before < seqNo == es[|es| - 1].ooid
            && (SmallSteps(es) <==> SmallSteps(init) && seqNo - before < 0x8000_0000)
  {
    var n := |es| - 1;
    var init := es[..n];
    var before := if init == [] then 0 else init[n - 1].ooid;
    assert forall k: nat :: k < n ==> Step(init, k) == Step(es, k);
    assert Step(es, n) == seqNo - before;
    if SmallSteps(init) && seqNo - before < 0x8000_0000 {
      forall k: nat | k < |es| ensures Step(es, k) < 0x8000_0000 {
        if k < n { assert Step(init, k) < 0x8000_0000; }
      }
    }
  }

  lemma OneRaise(counter: Long, id: Long)
    requires counter < id
    ensures AsInt((id - counter) % 0x1_0000_0000) > 0 <==> id - counter < 0x8000_0000
  {
    assert (id - counter) % 0x1_0000_0000 == id - counter;
  }

  /** So the counter comes back exactly when no step is that large. */
  lemma CounterReloads(es: seq<Entry>, seqNo: Long)
    requires Ascending(es, seqNo)
    ensures Raised(0, es) == seqNo <==> SmallSteps(es)
  {
    hide Raised, SmallSteps, Ascending;
    CounterFollows(es, seqNo);
  }

  /** A factory that counts by itself makes steps of one. */
  lemma CountingStepsAreSmall(es: seq<Entry>, seqNo: Long, path: seq<byte>)
    requires Ascending(es, seqNo) && seqNo < 0xFFFF_FFFF && SmallSteps(es)
    ensures SmallSteps(es + [Entry(path, NextId(seqNo))])
  {
    var es' := es + [Entry(path, NextId(seqNo))];
    forall k: nat | k < |es'| ensures Step(es', k) < 0x8000_0000 {
      if k < |es| { assert Step(es', k) == Step(es, k); }
    }
  }

  lemma RaisedOneMore(seqNo: Long, es: seq<Entry>, e: Entry)
    ensures var before := Raised(seqNo, es);
            Raised(seqNo, es + [e]) == Raise(before, e.ooid)
  {
    assert (es + [e])[..|es + [e]| - 1] == es;
  }

  /** Nothing NUL is read out of a text without NULs. */
  lemma ScanKeepsCString(s: seq<byte>)
    requires CString(s) && ScanEntry(s).Some?
    ensures CString(ScanEntry(s).value.entry.path) && CString(ScanEntry(s).value.rest)
  {
    hide DigitRun, WordRun, Number;
    DropKeepsCString(s);
    var s1 := DropSpace(s);
    var s2 := if s1 != [] && s1[0] in {PLUS, MINUS} then s1[1..] else s1;
    DropKeepsCString(s2[DigitRun(s2)..]);
  }

  lemma {:induction false} DecimalHoldsNoNul(n: nat)
    ensures CString(Decimal(n))
  {
    if n >= 10 { DecimalHoldsNoNul(n / 10); }
  }

  lemma {:induction false} LinesHoldNoNul(es: seq<Entry>)
    requires CStrings(es)
    ensures CString(Lines(es))
  {
    hide Decimal;
    if es != [] {
      DecimalHoldsNoNul(es[0].ooid);
      LinesHoldNoNul(es[1..]);
    }
  }

  lemma {:induction false} DropKeepsCString(s: seq<byte>)
    requires CString(s)
    ensures CString(DropSpace(s))
  {
    if s != [] && IsSpace(s[0]) { DropKeepsCString(s[1..]); }
  }

  lemma WholeOffset(es: seq<Entry>)
    ensures Offset(es, |es|) == |Cells(es)|
  {
    assert es[..|es|] == es;
  }

  /** In a mirrored pair of indexes the two look-ups undo each other. */
  lemma LookupsAreInverse(es: seq<Entry>, byPath: map<seq<byte>, int>, byOoid: map<Int32, int>, k: nat)
    requires PathsMirrored(es, byPath) && IdsMirrored(es, byOoid) && k < |es|
    ensures es[k].path in byPath && AsInt(AsUnsigned(byPath[es[k].path])) in byOoid
    ensures forall j :: 0 <= j <= |es| && Offset(es, j) == byOoid[AsInt(AsUnsigned(byPath[es[k].path]))] ==> j == k
  {
    hide Offset, AsInt, AsUnsigned;
    IntsAreLongs(es[k].ooid, es[k].ooid);
    assert PlacedAt(byOoid, es[k].ooid, Offset(es, k));
    forall j: nat | j <= |es| && Offset(es, j) == Offset(es, k) ensures j == k { SamePlace(es, j, k); }
  }

  /** The counter after reading a file: raised by every id ahead of it. */
  function Raised(seqNo: Long, es: seq<Entry>): Long {
    if es == [] then seqNo
    else Raise(Raised(seqNo, es[..|es| - 1]), es[|es| - 1].ooid)
  }

  function Raise(counter: Long, id: Long): Long {
    if AsInt((id - counter) % 0x1_0000_0000) > 0 then id else counter
  }

  /** The entries are distinct, few enough, and there was memory for the `qty` read last. */
  ghost predicate Fits(es: seq<Entry>, qty: nat, pathRoom: nat -> bool, ooidRoom: nat -> bool) {
    && DistinctPaths(es) && DistinctIds(es) && |es| < USHORT
    && forall n: nat :: n < qty ==> pathRoom(n) && ooidRoom(n)
  }

  /** memcpy */
  method CopyInto(buf: array<byte>, p: nat, bytes: seq<byte>)
    requires p + |bytes| <= buf.Length
    modifies buf
    ensures buf[..p + |bytes|] == old(buf[..p]) + bytes
  {
    forall i | 0 <= i < |bytes| { buf[p + i] := bytes[i]; }
  }

  class Factory {
    const byPath: Tree<seq<byte>>
    const byOoid: Tree<Int32>
    var seqNo: Long
    var heap: array<byte>
    var off: nat
    ghost var entries: seq<Entry>     // everything ever added, in order

    ghost predicate Valid()
      reads this, heap, byPath, byOoid
    {
      && byPath as object != byOoid as object
      && byPath.Valid() && byOoid.Valid()
      && CStrings(entries) && off <= heap.Length && heap[..off] == Cells(entries)
      && PlacesKnown(entries, byOoid.content)
    }

    /** The id index has taken every entry. */
    ghost predicate IdsKept()
      reads this, byOoid
    {
      IdsMirrored(entries, byOoid.content) && !byOoid.bad
    }

    /** Neither index has ever turned an entry away. */
    ghost predicate Whole()
      reads this, byPath, byOoid
    {
      && PathsMirrored(entries, byPath.content) && !byPath.bad && IdsKept()
      && |byPath.nodes| == |byOoid.nodes| == |entries| + 1 <= USHORT
    }

    /** Something has gone wrong that no later entry mends. */
    ghost predicate Broken()
      reads this, byPath, byOoid
    {
      !DistinctPaths(entries) || !DistinctIds(entries) || byPath.bad || byOoid.bad || |entries| >= USHORT
    }

    lemma BrokenIsNotWhole()
      requires Broken()
      ensures !Whole()
    {
    }

    constructor (strcmp: (seq<byte>, seq<byte>) -> int)
      requires forall a, b :: strcmp(a, b) == 0 <==> a == b
      ensures Valid() && Whole() && entries == [] && seqNo == 0
      ensures fresh(heap) && fresh(byPath) && fresh(byOoid)
    {
      NumberKeysLawful();
      StringKeysLawful(strcmp);
      byPath := new Tree(StringKeys(strcmp));
      byOoid := new Tree(NumberKeys());
      seqNo, heap, off := 0, new byte[20], 0;
      entries := [];
    }

    /** Make room for n more bytes. */
    method Reserve(n: nat)
      requires Valid()
      modifies this`heap
      ensures Valid() && heap.Length >= off + n && (heap == old(heap) || fresh(heap))
    {
      if off + n > heap.Length {
        var size := heap.Length * 4 / 3 + n;
        var bigger := new byte[size];
        var i := 0;
        while i < off
          invariant 0 <= i <= off && heap == old(heap) && unchanged(old(heap))
          invariant forall j :: 0 <= j < i ==> bigger[j] == heap[j]
        {
          bigger[i] := heap[i];
          i := i + 1;
        }
        assert bigger[..off] == heap[..off];
        heap := bigger;
      }
    }

    /** The entry is written, whether or not the indexes take it. */
    method Write(path: seq<byte>, ooid: Long)
      requires Valid() && CString(path) && heap.Length >= off + |path| + 5
      modifies this`off, this`entries, heap
      ensures Valid() && entries == old(entries) + [Entry(path, ooid)]
    {
      hide Cell, Be32, Offset, Tree.Valid, PlacesKnown, Cells, CString;
      var cell := Cell(Entry(path, ooid));
      CopyInto(heap, off, cell);
      CellsOneMore(entries, Entry(path, ooid));
      off := off + |cell|;
      PlaceStays(entries, Entry(path, ooid), byOoid.content, byOoid.content);
      entries := entries + [Entry(path, ooid)];
    }

    /** ohubAddOoidPath: from a whole factory, the answer says whether it still
        is one; it is exactly when path and id are new and there is room. */
    method AddOoidPath(path: seq<byte>, ooid: Long, pathRoom: bool, ooidRoom: bool) returns (ok: bool)
      requires Valid() && CString(path)
      modifies this`heap, this`off, this`entries, heap, byPath, byOoid
      ensures Valid() && (heap == old(heap) || fresh(heap))
      ensures entries == old(entries) + [Entry(path, ooid)]
      ensures old(Whole()) ==> ok == Whole()
      ensures old(Whole()) ==> (ok <==> !HasPath(old(entries), path) && !HasId(old(entries), ooid)
                                        && pathRoom && ooidRoom && |old(entries)| + 1 < USHORT)
      ensures old(Whole()) ==> (IdsKept() <==> !HasId(old(entries), ooid) && ooidRoom && |old(entries)| + 1 < USHORT)
      ensures old(Whole()) && !IdsKept() && !byOoid.bad ==> byOoid.content == old(byOoid.content)
      ensures old(Whole()) && !ok ==> Broken()
      ensures old(Broken()) ==> Broken()
    {
      hide Cells, Offset, AsInt, AsUnsigned, PathsMirrored, IdsMirrored, PlacesKnown, HasPath, HasId, Tree.Valid, DistinctPaths, DistinctIds;
      ghost var es, e := entries, Entry(path, ooid);
      Reserve(|path| + 5);
      var place := off;
      Write(path, ooid);
      assert place == |Cells(es)|;
      var pathOk := byPath.Add(path, AsInt(ooid), false, pathRoom);
      var ooidOk := byOoid.Add(AsInt(ooid), place, false, ooidRoom);
      ok := pathOk && ooidOk;
      PlaceStays(es, e, old(byOoid.content), byOoid.content);
      FreshIfDistinct(es, e);
      if old(Whole()) {
        PathKnown(es, old(byPath.content), path, ooid);
        IdKnown(es, old(byOoid.content), ooid);
        if HasPath(es, path) {
          PathTwice(es, e, byPath.content);
        } else {
          PathOneMore(es, e, old(byPath.content), byPath.content, pathOk);
        }
        IdOneMore(es, e, old(byOoid.content), byOoid.content, ooidOk);
      }
    }

    /** ohubFindOoidByName: a listed path has its id; a new one gets the next. */
    method FindOoidByName(path: seq<byte>, canAdd: bool, pathRoom: bool, ooidRoom: bool) returns (ooid: Long)
      requires Valid() && CString(path)
      modifies this, heap, byPath, byOoid
      ensures Valid() && (heap == old(heap) || fresh(heap))
      ensures old(Whole()) && HasPath(old(entries), path) ==> Entry(path, ooid) in entries
      ensures old(Whole()) && (HasPath(old(entries), path) || !canAdd) ==>
                Whole() && entries == old(entries) && seqNo == old(seqNo)
      ensures old(Whole()) && !HasPath(old(entries), path) && !canAdd ==> ooid == 0
      ensures old(Whole()) && !HasPath(old(entries), path) && canAdd ==>
                && ooid == seqNo == NextId(old(seqNo)) == (if old(seqNo) + 1 < 0x1_0000_0000 then old(seqNo) + 1 else 1) && entries == old(entries) + [Entry(path, ooid)]
                && (Whole() <==> !HasId(old(entries), ooid) && pathRoom && ooidRoom && |old(entries)| + 1 < USHORT)
                && (IdsKept() <==> !HasId(old(entries), ooid) && ooidRoom && |old(entries)| + 1 < USHORT)
                && (!IdsKept() && !byOoid.bad ==> byOoid.content == old(byOoid.content))
    {
      hide Cells, Offset, AsInt, AsUnsigned, PathsMirrored, IdsMirrored, PlacesKnown, HasPath, HasId, Tree.Valid, CString, CStrings;
      var found := byPath.Find(path);
      if old(Whole()) { PathLookup(entries, byPath.content, path); }
      if found.found {
        return AsUnsigned(found.val);
      }
      ooid := 0;
      if canAdd {
        seqNo := NextId(seqNo);
        ooid := seqNo;
        var _ := AddOoidPath(path, ooid, pathRoom, ooidRoom);
      }
    }

    /** The string at a place, as strcpy reads it. */
    method StringAt(place: nat, ghost k: nat) returns (s: seq<byte>)
      requires Valid() && k < |entries| && place == Offset(entries, k)
      ensures s == entries[k].path
    {
      CellAt(entries, k);
      ghost var path := entries[k].path;
      assert heap[..off][place..place + |path| + 5] == Cell(entries[k]);
      assert forall i :: 0 <= i < |path| + 5 ==> heap[place + i] == Cell(entries[k])[i];
      var n := 0;
      while heap[place + n] != 0
        invariant 0 <= n <= |path|
        decreases |path| - n
      {
        assert Cell(entries[k])[n] != 0;
        n := n + 1;
      }
      assert Cell(entries[k])[n] == 0 && n == |path|;
      s := heap[place..place + n];
      assert s == Cell(entries[k])[..n] == path;
    }

    /** ohubFindNameByOoid. */
    method FindNameByOoid(ooid: Long) returns (name: Option<seq<byte>>)
      requires Valid()
      ensures name.Some? <==> !byOoid.bad && AsInt(ooid) in byOoid.content
      ensures name.Some? ==> NameAt(entries, byOoid.content[AsInt(ooid)], name.value)
      ensures IdsKept() && name.None? ==> !HasId(entries, ooid)
      ensures IdsKept() && name.Some? ==> Entry(name.value, ooid) in entries
    {
      hide Cells, Offset, AsInt, AsUnsigned, IdsMirrored, HasId, Tree.Valid, CString, CStrings, Cell;
      var found := byOoid.Find(AsInt(ooid));
      if IdsKept() { IdKnown(entries, byOoid.content, ooid); }
      if !found.found {
        return None;
      }
      assert IsPlace(entries, found.val);
      ghost var k: nat :| k < |entries| && found.val == Offset(entries, k);
      var s := StringAt(found.val, k);
      if IdsKept() { IdLookup(entries, byOoid.content, ooid, k); }
      return Some(s);
    }

    /** Asking for the name of the number of a path gives the path back exactly
        when the path was listed or the id index takes its new id. */
    method NameOfNumber(path: seq<byte>, pathRoom: bool, ooidRoom: bool) returns (name: Option<seq<byte>>)
      requires Valid() && Whole() && CString(path)
      modifies this, heap, byPath, byOoid
      ensures Valid() && (heap == old(heap) || fresh(heap))
      ensures var taken := !HasId(old(entries), NextId(old(seqNo))) && ooidRoom && |old(entries)| + 1 < USHORT;
              name == Some(path) <==> HasPath(old(entries), path) || taken
    {
      hide Cells, Offset, AsInt, AsUnsigned, PathsMirrored, HasPath, HasId, Tree.Valid, CString, CStrings, NameAt, PlacesKnown;
      ghost var es, content := entries, byOoid.content;
      var ooid := FindOoidByName(path, true, pathRoom, ooidRoom);
      name := FindNameByOoid(ooid);
      if IdsKept() {
        assert Entry(path, ooid) in entries && HasId(entries, ooid) by { ListedId(entries, path, ooid); }
        OnePathPerId(entries, Entry(path, ooid), Entry(name.value, ooid));
      } else if name.Some? {
        OldNames(es, Entry(path, ooid), content, AsInt(ooid), name.value);
      }
    }

    /** ohubSaveOoidHash: the heap is walked cell by cell, in insertion order. */
    method Save() returns (text: seq<byte>)
      requires Valid()
      ensures text == Lines(entries)
    {
      assert Lines(entries[..0]) == [];
      hide Cells, Offset, Tree.Valid, CString, CStrings, Cell, Lines, Line, Be32;
      var at := 0;
      ghost var k: nat := 0;
      text := [];
      OffsetZero(entries);
      WholeOffset(entries);
      while at < off
        invariant k <= |entries| && at == Offset(entries, k) && text == Lines(entries[..k])
        decreases |entries| - k
      {
        CellAt(entries, k);
        var path := StringAt(at, k);
        var ooid := OoidAt(at + |path| + 1, k);
        at := at + |path| + 5;
        text := text + Line(Entry(path, ooid));
        LinesOneMore(entries[..k], entries[k]);
        assert entries[..k + 1] == entries[..k] + [entries[k]];
        k := k + 1;
      }
      if k < |entries| { CellAt(entries, k); OffsetsGrow(entries, k); }
      assert entries[..k] == entries;
    }

    method OoidAt(place: nat, ghost k: nat) returns (ooid: Long)
      requires Valid() && k < |entries| && place == Offset(entries, k) + |entries[k].path| + 1
      ensures ooid == entries[k].ooid
    {
      hide Offset, Be32, Un32;
      CellAt(entries, k);
      ghost var n := |entries[k].path| + 1;
      assert heap[..off][place - n..place + 4] == Cell(entries[k]);
      assert heap[place..place + 4] == Cell(entries[k])[n..] == Be32(entries[k].ooid);
      Un32OfBe32(entries[k].ooid, []);
      assert heap[place..place + 4] + [] == heap[place..place + 4];
      ooid := Un32(heap[place..place + 4]);
    }

    /** One line of the file. */
    method LoadEntry(e: Entry, pathRoom: bool, ooidRoom: bool) returns (ok: bool)
      requires Valid() && CString(e.path)
      modifies this, heap, byPath, byOoid
      ensures Valid() && (heap == old(heap) || fresh(heap)) && entries == old(entries) + [e]
      ensures seqNo == if AsInt((e.ooid - old(seqNo)) % 0x1_0000_0000) > 0 then e.ooid else old(seqNo)
      ensures old(Whole()) ==> ok == Whole()
      ensures old(Whole()) ==> (ok <==> !HasPath(old(entries), e.path) && !HasId(old(entries), e.ooid)
                                        && pathRoom && ooidRoom && |old(entries)| + 1 < USHORT)
      ensures (old(Whole()) && !ok) || old(Broken()) ==> Broken()
    {
      hide Cells, Offset, AsInt, PathsMirrored, IdsMirrored, PlacesKnown, HasPath, HasId, Tree.Valid, CString, CStrings, DistinctPaths, DistinctIds;
      ok := AddOoidPath(e.path, e.ooid, pathRoom, ooidRoom);
      if AsInt((e.ooid - seqNo) % 0x1_0000_0000) > 0 { seqNo := e.ooid; }
    }

    /** ohubLoadOoidHash: every entry of the text is added, and the counter keeps
        ahead of the ids. */
    method Load(text: seq<byte>, pathRoom: nat -> bool, ooidRoom: nat -> bool) returns (qty: nat)
      requires Valid() && CString(text)
      modifies this, heap, byPath, byOoid
      ensures Valid() && (heap == old(heap) || fresh(heap))
      ensures entries == old(entries) + Parse(text) && qty == |Parse(text)|
      ensures seqNo == Raised(old(seqNo), Parse(text))
      ensures old(Whole()) ==> (Whole() <==> Fits(entries, qty, pathRoom, ooidRoom))
    {
      hide Cells, Offset, AsInt, PathsMirrored, IdsMirrored, PlacesKnown, HasPath, HasId, Tree.Valid, CString, CStrings, ScanEntry, Raised, DistinctPaths, DistinctIds, Cell, OneWord;
      var rest := text;
      qty := 0;
      ghost var read: seq<Entry> := [];
      ghost var good := old(Whole());
      assert Raised(old(seqNo), []) == old(seqNo) by { RaisedNone(old(seqNo)); }
      if good { MirrorsAreDistinct(entries, byPath.content, byOoid.content); }
      while true
        invariant Valid() && CString(rest) && (heap == old(heap) || fresh(heap))
        invariant read + Parse(rest) == Parse(text) && qty == |read|
        invariant entries == old(entries) + read && seqNo == Raised(old(seqNo), read)
        invariant old(Whole()) ==> if good then Whole() else Broken()
        invariant old(Whole()) ==> (good <==> Fits(entries, qty, pathRoom, ooidRoom))
        decreases |rest|
      {
        var r := ScanEntry(rest);
        if r.None? { break; }
        ScanKeepsCString(rest);
        var e := r.value.entry;
        RaisedOneMore(old(seqNo), read, e);
        ghost var es := entries;
        var ok := LoadEntry(e, pathRoom(qty), ooidRoom(qty));
        good := good && ok;
        FreshIfDistinct(es, e);
        assert read + Parse(rest) == (read + [e]) + Parse(r.value.rest);
        assert es + [e] == old(entries) + (read + [e]);
        read := read + [e];
        rest := r.value.rest;
        qty := qty + 1;
      }
      assert Parse(rest) == [];
      assert read == Parse(text);
      if Broken() { BrokenIsNotWhole(); }
    }
  }

  lemma OffsetZero(es: seq<Entry>)
    ensures Offset(es, 0) == 0
  {
  }

  lemma OffsetsGrow(es: seq<Entry>, k: nat)
    requires k < |es|
    ensures Offset(es, k) < |Cells(es)|
  {
    OffsetsDiffer(es, k, |es|);
    WholeOffset(es);
  }

  lemma RaisedNone(seqNo: Long)
    ensures Raised(seqNo, []) == seqNo
  {
  }

  lemma ListedId(es: seq<Entry>, path: seq<byte>, ooid: Long)
    requires Entry(path, ooid) in es
    ensures HasId(es, ooid)
  {
    var k :| 0 <= k < |es| && es[k] == Entry(path, ooid);
  }

  lemma FreshIfDistinct(es: seq<Entry>, e: Entry)
    ensures DistinctPaths(es + [e]) <==> DistinctPaths(es) && !HasPath(es, e.path)
    ensures DistinctIds(es + [e]) <==> DistinctIds(es) && !HasId(es, e.ooid)
  {
    var es' := es + [e];
    assert es'[|es|] == e;
    assert forall k :: 0 <= k < |es| ==> es'[k] == es[k];
  }

  /** A factory restarted from the file it saved has the same entries and indexes,
      and its counter too unless the ids once went up by half their range. */
  method Restart(f: Factory, strcmp: (seq<byte>, seq<byte>) -> int) returns (g: Factory)
    requires forall a, b :: strcmp(a, b) == 0 <==> a == b
    requires f.Valid() && f.Whole()
    requires forall k :: 0 <= k < |f.entries| ==> OneWord(f.entries[k].path)
    ensures g.Valid() && g.Whole() && g.entries == f.entries
    ensures Ascending(f.entries, f.seqNo) ==> (g.seqNo == f.seqNo <==> SmallSteps(f.entries))
    ensures g.byPath.content == f.byPath.content && g.byOoid.content == f.byOoid.content
    ensures fresh(g)
  {
    hide Cells, Offset, AsInt, PlacesKnown, HasPath, HasId, Tree.Valid, CStrings, Raised, Lines, OneWord, PathsMirrored, IdsMirrored, DistinctPaths, DistinctIds, Ascending, Parse, SmallSteps;
    var text := f.Save();
    MirrorsAreDistinct(f.entries, f.byPath.content, f.byOoid.content);
    LinesHoldNoNul(f.entries);
    SavedReadsBack(f.entries);
    g := new Factory(strcmp);
    var _ := g.Load(text, _ => true, _ => true);
    assert [] + f.entries == f.entries;
    if Ascending(f.entries, f.seqNo) { CounterReloads(f.entries, f.seqNo); }
    IndexesDetermined(f.entries, f.byPath.content, g.byPath.content, f.byOoid.content, g.byOoid.content);
  }
}
