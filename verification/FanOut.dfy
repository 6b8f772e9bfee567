/** Fan-out of changes: one record, encoded once, is appended to the accumulator
    of every watcher of a monitor, turned to that watcher's byte order by
    toggling the one copy in place; accumulators are flushed when full or old. */
module FanOut {
  import opened AgentReports
  import opened Bytes
  import opened MonitorCodec

  const ACCUM_SIZE := 2800
  const MAX_QTY := 250
  const UNREG_SIZE := 200

  // -------------------------------------------------------------- byte order

  function Reversed(s: seq<byte>): (r: seq<byte>)
    ensures |r| == |s|
    ensures forall i :: 0 <= i < |s| ==> r[i] == s[|s| - 1 - i]
  {
    if s == [] then [] else Reversed(s[1..]) + [s[0]]
  }

  /** ohubRotate: words of 2, 4, 8 or 16 bytes are turned round, anything else is left. */
  function Rotate(kind: byte, value: seq<byte>): (r: seq<byte>)
    ensures |r| == |value|
  {
    if kind == STRING_TYPE || |value| == 1 then value
    else if |value| in {2, 4, 8, 16} then Reversed(value)
    else value
  }

  /** Is this a number whose bytes have an order, rather than a string or one byte? */
  predicate Turns(kind: byte, n: nat) { kind != STRING_TYPE && (n == 2 || n == 4 || n == 8 || n == 16) }

  /** What turning does to each byte. */
  lemma RotateMeans(kind: byte, value: seq<byte>)
    ensures forall i :: 0 <= i < |value| ==> Rotate(kind, value)[i] == value[if Turns(kind, |value|) then |value| - 1 - i else i]
  {
    hide Reversed;
  }

  /** Turning twice is not turning at all, which is what lets one copy serve all. */
  lemma RotateTwice(kind: byte, value: seq<byte>)
    ensures Rotate(kind, Rotate(kind, value)) == value
  {
    var r := Reversed(value);
    assert Reversed(r) == value;
  }

  /** U8ROT. */
  method Swap(buf: array<byte>, i: nat, j: nat)
    requires i < j < buf.Length
    modifies buf
    ensures buf[..] == old(buf[..][i := buf[j]][j := buf[i]])
  {
    buf[i], buf[j] := buf[j], buf[i];
  }

  /** Where the byte at i came from when the first k bytes of the n at p have
      changed places with the last k. */
  function Origin(p: nat, n: nat, k: nat, i: int): int {
    if p <= i < p + k || p + n - k <= i < p + n then 2 * p + n - 1 - i else i
  }

  predicate TurnedTo(s: seq<byte>, was: seq<byte>, p: nat, n: nat, k: nat) {
    && p + n <= |was| && |s| == |was| && 2 * k <= n
    && forall i :: 0 <= i < |s| ==> s[i] == was[Origin(p, n, k, i)]
  }

  method SwapEnds(buf: array<byte>, p: nat, n: nat, k: nat, ghost was: seq<byte>)
    requires TurnedTo(buf[..], was, p, n, k) && 2 * k + 2 <= n
    modifies buf
    ensures TurnedTo(buf[..], was, p, n, k + 1)
  {
    ghost var s := buf[..];
    Swap(buf, p + k, p + n - 1 - k);
    assert s[p + k] == was[p + k] && s[p + n - 1 - k] == was[p + n - 1 - k];
  }

  /** ohubRotate on the n bytes at p. */
  method RotateInPlace(kind: byte, buf: array<byte>, p: nat, n: nat)
    requires p + n <= buf.Length
    modifies buf
    ensures buf[..] == old(buf[..p] + Rotate(kind, buf[p..p + n]) + buf[p + n..])
    ensures forall i :: 0 <= i < buf.Length ==>
              buf[i] == if p <= i < p + n && kind != STRING_TYPE && n in {2, 4, 8, 16} then old(buf[p + (p + n - 1 - i)]) else old(buf[i])
  {
    hide *;
    ghost var was := buf[..];
    Turning(kind, buf, p, n);
    RotatedAt(buf[..], was, kind, p, n);
  }

  lemma RotatedAt(s: seq<byte>, was: seq<byte>, kind: byte, p: nat, n: nat)
    requires p + n <= |was| && s == was[..p] + Rotate(kind, was[p..p + n]) + was[p + n..]
    ensures |s| == |was|
    ensures forall i :: 0 <= i < |s| ==>
              s[i] == was[if p <= i < p + n && kind != STRING_TYPE && n in {2, 4, 8, 16} then p + (p + n - 1 - i) else i]
  {
    hide Rotate;
    var mid := was[p..p + n];
    RotateMeans(kind, mid);
    forall i | 0 <= i < |s|
      ensures s[i] == was[if p <= i < p + n && kind != STRING_TYPE && n in {2, 4, 8, 16} then p + (p + n - 1 - i) else i]
    {
      if p <= i < p + n { assert s[i] == Rotate(kind, mid)[i - p]; }
    }
  }

  /** The cases of ohubRotate. */
  method Turning(kind: byte, buf: array<byte>, p: nat, n: nat)
    requires p + n <= buf.Length
    modifies buf
    ensures buf[..] == old(buf[..p] + Rotate(kind, buf[p..p + n]) + buf[p + n..])
  {
    hide TurnedTo, Origin, Reversed;
    ghost var was := buf[..];
    assert was == was[..p] + was[p..p + n] + was[p + n..];
    TurnedNone(was, p, n);
    if kind == STRING_TYPE || n == 1 { return; }
    if n == 2 {
      SwapEnds(buf, p, n, 0, was);
    } else if n == 4 {
      SwapEnds(buf, p, n, 0, was); SwapEnds(buf, p, n, 1, was);
    } else if n == 8 {
      SwapEnds(buf, p, n, 0, was); SwapEnds(buf, p, n, 1, was);
      SwapEnds(buf, p, n, 2, was); SwapEnds(buf, p, n, 3, was);
    } else if n == 16 {
      SwapEnds(buf, p, n, 0, was); SwapEnds(buf, p, n, 1, was);
      SwapEnds(buf, p, n, 2, was); SwapEnds(buf, p, n, 3, was);
      SwapEnds(buf, p, n, 4, was); SwapEnds(buf, p, n, 5, was);
      SwapEnds(buf, p, n, 6, was); SwapEnds(buf, p, n, 7, was);
    } else {
      return;
    }
    TurnedAll(buf[..], was, p, n);
  }

  lemma TurnedNone(was: seq<byte>, p: nat, n: nat)
    requires p + n <= |was|
    ensures TurnedTo(was, was, p, n, 0)
  {
  }

  lemma TurnedAll(s: seq<byte>, was: seq<byte>, p: nat, n: nat)
    requires n % 2 == 0 && TurnedTo(s, was, p, n, n / 2)
    ensures s == was[..p] + Reversed(was[p..p + n]) + was[p + n..]
  {
    var mid := was[p..p + n];
    var r := was[..p] + Reversed(mid) + was[p + n..];
    forall i | 0 <= i < |s| ensures s[i] == r[i] {
      if p <= i < p + n { assert Reversed(mid)[i - p] == mid[n - 1 - (i - p)]; }
    }
  }

  // ---------------------------------------------------------- accumulators

  /** A watcher's accumulator: `off` is the end of the part in use (0 before the
      first use), `body` the bytes from offset 1 to there. */
  datatype Accum = Accum(off: nat, qty: nat, body: seq<byte>)

  /** A packet handed to a watcher's sender, the records it was made of, and whether
      the sender took it. */
  datatype Handed = Handed(packet: seq<byte>, records: seq<Record>, taken: bool)

  /** The records announced to a watcher, those still held for it, and the
      packets handed to its sender. */
  datatype Book = Book(announced: seq<Record>, held: seq<Record>, sent: seq<Handed>)

  /** The records of all packets, taken or not. */
  function Passed(sent: seq<Handed>): (rs: seq<Record>) {
    if sent == [] then [] else Passed(sent[..|sent| - 1]) + sent[|sent| - 1].records
  }

  /** What the watcher reads out of the packets that were taken. */
  function Received(sent: seq<Handed>): Option<seq<Record>> {
    if sent == [] then Some([])
    else
      var before, h := Received(sent[..|sent| - 1]), sent[|sent| - 1];
      if before.None? || !h.taken then before
      else
        var last := Decode(h.packet);
        if last.None? then None else Some(before.value + last.value)
  }

  /** How many records went down with packets that were refused. */
  function Lost(sent: seq<Handed>): nat {
    if sent == [] then 0
    else Lost(sent[..|sent| - 1]) + if sent[|sent| - 1].taken then 0 else |sent[|sent| - 1].records|
  }

  ghost predicate Readable(sent: seq<Handed>) {
    forall i :: 0 <= i < |sent| ==> sent[i].records != [] && Decode(sent[i].packet) == Some(sent[i].records)
  }

  lemma HandedOneMore(sent: seq<Handed>, h: Handed)
    requires Readable(sent) && h.records != [] && Decode(h.packet) == Some(h.records)
    ensures Readable(sent + [h]) && Passed(sent + [h]) == Passed(sent) + h.records
  {
    assert (sent + [h])[..|sent + [h]| - 1] == sent;
  }

  /** Every packet made is held, or read by the watcher, or lost with its packet. */
  lemma {:induction false} ReceivedCounts(sent: seq<Handed>)
    requires Readable(sent)
    ensures Received(sent).Some? && |Received(sent).value| + Lost(sent) == |Passed(sent)|
    ensures Received(sent).value == Passed(sent) <==> forall i :: 0 <= i < |sent| ==> sent[i].taken
    decreases |sent|
  {
    hide Decode;
    if sent != [] {
      var init, h := sent[..|sent| - 1], sent[|sent| - 1];
      ReceivedCounts(init);
      assert sent == init + [h];
      var got, all := Received(init).value, Passed(init);
      if h.taken && Received(sent).value == Passed(sent) {
        assert got == (got + h.records)[..|got|] && all == (all + h.records)[..|all|];
      }
      assert forall i :: 0 <= i < |init| ==> init[i] == sent[i];
    }
  }

  /** Nothing gets lost before it is handed over, every packet can be read, the
      buffer never runs over, and the count keeps its bound. */
  ghost predicate Balanced(a: Accum, b: Book) {
    && AllSound(b.held) && a.body == Encode(b.held) && a.qty == |b.held|
    && a.qty <= MAX_QTY && a.off <= ACCUM_SIZE
    && (if a.off == 0 then b.held == [] else a.off == 1 + |a.body|)
    && Readable(b.sent) && b.announced == Passed(b.sent) + b.held
  }

  /** The packet a flush hands over, when the accumulator holds anything. */
  function FlushedPacket(a: Accum): (p: seq<byte>)
    requires 0 < a.qty <= MAX_QTY
  {
    [a.qty as byte] + a.body
  }

  function AfterFlush(a: Accum, b: Book, taken: bool): Book
    requires a.qty <= MAX_QTY
  {
    if a.qty == 0 then b else Book(b.announced, [], b.sent + [Handed(FlushedPacket(a), b.held, taken)])
  }

  /** Flushing moves exactly the held records into one decodable packet. */
  lemma FlushBalances(a: Accum, b: Book, taken: bool)
    requires Balanced(a, b)
    ensures Balanced(Accum(1, 0, []), AfterFlush(a, b, taken))
    ensures a.qty > 0 ==> Decode(FlushedPacket(a)) == Some(b.held)
  {
    hide Decode, Readable, Passed;
    if b.held != [] {
      DecodeOfEncode(b.held);
      assert FlushedPacket(a) == EncodePacket(b.held);
      HandedOneMore(b.sent, Handed(FlushedPacket(a), b.held, taken));
      assert b.announced + [] == b.announced;
    }
  }

  /** What was announced is what the watcher reads out of its packets, and what is
      held for it, if and only if its sender refused none; each packet refused takes
      its records with it. */
  lemma NothingLostExactly(a: Accum, b: Book)
    requires Balanced(a, b)
    ensures Received(b.sent).Some?
    ensures b.announced == Received(b.sent).value + b.held <==> forall i :: 0 <= i < |b.sent| ==> b.sent[i].taken
    ensures |b.announced| == |Received(b.sent).value| + |b.held| + Lost(b.sent)
  {
    hide Received, Passed, Lost, Readable;
    ReceivedCounts(b.sent);
    var got, all := Received(b.sent).value, Passed(b.sent);
    if got + b.held == all + b.held {
      assert got == (got + b.held)[..|got|] && all == (all + b.held)[..|all|];
    }
  }

  // What a watcher sees of an object, with the history read as one of reports.

  function AsChange(r: Record): Change {
    Change(r.ooid, r.kind, if r.undef then UNDEF else 0, r.value)
  }

  function AsChanges(rs: seq<Record>): (cs: seq<Change>)
    ensures |cs| == |rs| && forall i :: 0 <= i < |rs| ==> cs[i] == AsChange(rs[i])
  {
    seq(|rs|, i requires 0 <= i < |rs| => AsChange(rs[i]))
  }

  function History(sent: seq<Handed>): (h: seq<Sent>)
    ensures |h| == |sent|
    ensures forall i :: 0 <= i < |h| ==> h[i] == Sent(Packet(sent[i].packet, AsChanges(sent[i].records), None), sent[i].taken)
  {
    seq(|sent|, i requires 0 <= i < |sent| =>
        Sent(Packet(sent[i].packet, AsChanges(sent[i].records), None), sent[i].taken))
  }

  lemma {:induction false} LearnIsReplayed(rs: seq<Record>)
    ensures Learn(map[], rs) == Replay(AsChanges(rs))
    decreases |rs|
  {
    if rs != [] {
      var n := |rs| - 1;
      LearnIsReplayed(rs[..n]);
      assert AsChanges(rs)[..n] == AsChanges(rs[..n]);
    }
  }

  lemma AsChangesJoin(a: seq<Record>, b: seq<Record>)
    ensures AsChanges(a + b) == AsChanges(a) + AsChanges(b)
  {
  }

  lemma NoHistory()
    ensures Reported([]) == [] && Flatten(TakenOf([])) == [] && AsChanges([]) == [] && Passed([]) == [] && Received([]) == Some([])
  {
  }

  lemma {:induction false} ReceivedStep(init: seq<Handed>, h: Handed)
    requires Readable(init + [h])
    ensures Readable(init) && Passed(init + [h]) == Passed(init) + h.records
    ensures Received(init).Some? ==>
              Received(init + [h]) == if h.taken then Some(Received(init).value + h.records) else Received(init)
  {
    hide Decode;
    assert (init + [h])[..|init + [h]| - 1] == init && (init + [h])[|init|] == h;
    assert forall i :: 0 <= i < |init| ==> (init + [h])[i] == init[i];
  }

  lemma {:induction false} HistoryReports(sent: seq<Handed>)
    requires Readable(sent)
    ensures Reported(History(sent)) == AsChanges(Passed(sent))
    ensures Received(sent).Some? && Flatten(TakenOf(History(sent))) == AsChanges(Received(sent).value)
    decreases |sent|
  {
    hide Readable, Received, Passed, Reported, Flatten, TakenOf, AsChanges;
    if sent == [] {
      NoHistory();
    } else {
      var init, h := sent[..|sent| - 1], sent[|sent| - 1];
      assert sent == init + [h];
      ReceivedStep(init, h);
      HistoryReports(init);
      var s := Sent(Packet(h.packet, AsChanges(h.records), None), h.taken);
      assert History(sent) == History(init) + [s];
      SentOneMore(History(init), s);
      AsChangesJoin(Passed(init), h.records);
      if h.taken {
        FlattenOne(TakenOf(History(init)), s.packet);
        AsChangesJoin(Received(init).value, h.records);
      }
    }
  }

  /** A watcher sees of every object what it was last told in a packet, unless that
      packet was refused; then it sees what it had been told before it, until a
      packet that speaks of the object is taken again. */
  lemma WatcherSees(a: Accum, b: Book, ooid: Long)
    requires Balanced(a, b)
    ensures Received(b.sent).Some?
    ensures ooid in Stale(History(b.sent)) <==> exists k: nat :: LostSince(History(b.sent), ooid, k)
    ensures ooid !in Stale(History(b.sent)) ==>
              Look(Learn(map[], Received(b.sent).value), ooid) == Look(Learn(map[], Passed(b.sent)), ooid)
    ensures forall k: nat :: LostSince(History(b.sent), ooid, k) ==>
              Look(Learn(map[], Received(b.sent).value), ooid) == Look(Learn(map[], Passed(b.sent[..k])), ooid)
  {
    hide Stale, Received, Passed, Reported, Flatten, TakenOf, Replay, Learn, Look, Decode;
    var h := History(b.sent);
    HistoryReports(b.sent);
    LearnIsReplayed(Received(b.sent).value);
    LearnIsReplayed(Passed(b.sent));
    StaleExactly(h, ooid);
    if ooid !in Stale(h) { FreshIsReported(h, ooid); }
    forall k: nat | LostSince(h, ooid, k)
      ensures Look(Learn(map[], Received(b.sent).value), ooid) == Look(Learn(map[], Passed(b.sent[..k])), ooid)
    {
      assert h[..k] == History(b.sent[..k]);
      HistoryReports(b.sent[..k]);
      LearnIsReplayed(Passed(b.sent[..k]));
    }
  }

  function AfterAppend(b: Book, r: Record): Book {
    Book(b.announced + [r], b.held + [r], b.sent)
  }

  lemma AppendBalances(a: Accum, b: Book, r: Record)
    requires Balanced(a, b) && r.Sound()
    requires a.off + 1 + |r.Bytes()| <= ACCUM_SIZE && a.qty + 1 <= MAX_QTY
    ensures Balanced(Accum((if a.off == 0 then 1 else a.off) + |r.Bytes()|, a.qty + 1, a.body + r.Bytes()), AfterAppend(b, r))
  {
    hide Record.Bytes;
    EncodeConcat(b.held, [r]);
    EncodeOne(r);
    assert b.announced + [r] == Passed(b.sent) + (b.held + [r]);
  }

  // ------------------------------------------------------------- announcing

  /** What a monitor has to announce. */
  datatype Value = Value(ooid: Long, kind: byte, undef: bool, time: Long, bytes: seq<byte>)
  {
    /** The record as it is written; an undefined value has no bytes. */
    function AsRecord(): (r: Record) {
      var v := if undef then [] else bytes;
      Record(ooid, kind, undef, |v| >= 0x20, Some(time), v)
    }

    /** The record a watcher should get. */
    function For(needsRotor: bool): (r: Record) {
      var r := AsRecord();
      if needsRotor then r.(value := Rotate(kind, r.value)) else r
    }
  }

  /** ohubMonFlushMonAccum: hand the held records over and start again, whatever
      the sender makes of them. */
  method FlushAccum(a: Accum, taken: bool, ghost b: Book) returns (a': Accum, packet: Option<seq<byte>>, ghost b': Book)
    requires Balanced(a, b)
    ensures Balanced(a', b') && a' == Accum(1, 0, []) && b'.announced == b.announced && b'.held == []
    ensures packet.Some? <==> b.held != []
    ensures packet.Some? ==> packet.value == FlushedPacket(a) && Decode(packet.value) == Some(b.held)
    ensures b'.sent == b.sent + if packet.Some? then [Handed(packet.value, b.held, taken)] else []
  {
    FlushBalances(a, b, taken);
    packet := if a.qty <= 0 then None else Some(FlushedPacket(a));
    a', b' := Accum(1, 0, []), AfterFlush(a, b, taken);
  }

  /** Append one record, flushing first when the accumulator is full, counts too
      many, or is too old. */
  method AppendTo(a: Accum, body: seq<byte>, late: bool, taken: bool, ghost b: Book, ghost r: Record) returns (a': Accum, ghost b': Book)
    requires Balanced(a, b)
    requires r.Sound() && body == r.Bytes() && |body| + 2 <= ACCUM_SIZE
    ensures Balanced(a', b') && b'.announced == b.announced + [r]
    ensures var full := a.off + 1 + |body| > ACCUM_SIZE || a.qty + 1 > MAX_QTY;
            && b'.held == (if full || late then [] else b.held) + [r]
            && a'.qty == (if full || late then 0 else a.qty) + 1
            && a'.body == (if full || late then [] else a.body) + body && a'.off == 1 + |a'.body|
            && b'.sent == if (full || late) && b.held != [] then b.sent + [Handed(FlushedPacket(a), b.held, taken)] else b.sent
  {
    assert a.qty == 0 ==> a.body == [];
    assert [] + body == body;
    hide Record.Bytes, Encode, Decode, Readable, Passed, Record.Sound, AllSound;
    var p := 1 + |body|;
    a', b' := a, b;
    if a'.off + p > ACCUM_SIZE || a'.qty + 1 > MAX_QTY || (a'.qty > 0 && late) {
      var packet;
      a', packet, b' := FlushAccum(a', taken, b');
    }
    AppendBalances(a', b', r);
    var off := if a'.off == 0 then 1 else a'.off;
    a', b' := Accum(off + |body|, a'.qty + 1, a'.body + body), AfterAppend(b', r);
  }

  /** Which watchers are to get a change. */
  ghost predicate Gets(w: nat, watchers: seq<Option<nat>>, only: Option<nat>, blocked: nat -> bool) {
    Some(w) in watchers && (only.None? || only == Some(w)) && !blocked(w)
  }

  predicate Distinct(watchers: seq<Option<nat>>) {
    forall i, j :: 0 <= i < j < |watchers| && watchers[i].Some? ==> watchers[i] != watchers[j]
  }

  /** Exactly the watchers that are to get it have been told one record more,
      each in its own byte order. */
  ghost predicate Told(books: seq<Book>, books': seq<Book>, v: Value, watchers: seq<Option<nat>>, only: Option<nat>,
                       blocked: nat -> bool, needsRotor: nat -> bool)
  {
    && |books'| == |books|
    && forall w :: 0 <= w < |books| ==>
         books'[w].announced == books[w].announced + if Gets(w, watchers, only, blocked) then [v.For(needsRotor(w))] else []
  }

  /** The record tells the change: the bytes of a number in the watcher's order, all
      others as they are. */
  ghost predicate Tells(r: Record, v: Value, otherOrder: bool) {
    && r.ooid == v.ooid && r.kind == v.kind && r.undef == v.undef && r.stamp == Some(v.time)
    && |r.value| == (if v.undef then 0 else |v.bytes|)
    && forall i :: 0 <= i < |r.value| ==>
         r.value[i] == v.bytes[if otherOrder && v.kind != STRING_TYPE && |v.bytes| in {2, 4, 8, 16} then |v.bytes| - 1 - i else i]
  }

  lemma ForTells(v: Value, otherOrder: bool)
    ensures Tells(v.For(otherOrder), v, otherOrder)
  {
    hide Rotate;
    RotateMeans(v.kind, v.AsRecord().value);
  }

  lemma ToldMeans(books: seq<Book>, books': seq<Book>, v: Value, watchers: seq<Option<nat>>, only: Option<nat>,
                  blocked: nat -> bool, needsRotor: nat -> bool)
    requires Told(books, books', v, watchers, only, blocked, needsRotor)
    ensures |books'| == |books|
    ensures forall w: nat :: w < |books'| ==>
      if Some(w) in watchers && (only.None? || only == Some(w)) && !blocked(w)
      then exists r :: books'[w].announced == books[w].announced + [r] && Tells(r, v, needsRotor(w))
      else books'[w].announced == books[w].announced
  {
    hide Tells, Value.For;
    forall w: nat | w < |books'| && Gets(w, watchers, only, blocked)
      ensures exists r :: books'[w].announced == books[w].announced + [r] && Tells(r, v, needsRotor(w))
    {
      ForTells(v, needsRotor(w));
      assert books'[w].announced == books[w].announced + [v.For(needsRotor(w))];
    }
  }

  lemma ToldNobody(books: seq<Book>, v: Value, only: Option<nat>, blocked: nat -> bool, needsRotor: nat -> bool)
    ensures Told(books, books, v, [], only, blocked, needsRotor)
  {
  }

  lemma ToldOneMore(books: seq<Book>, mid: seq<Book>, books': seq<Book>, v: Value, watchers: seq<Option<nat>>, i: nat,
                    only: Option<nat>, blocked: nat -> bool, needsRotor: nat -> bool)
    requires i < |watchers| && Distinct(watchers)
    requires Told(books, mid, v, watchers[..i], only, blocked, needsRotor)
    requires |books'| == |mid|
    requires if watchers[i].Some? && (only.None? || only == watchers[i]) && !blocked(watchers[i].value) then
               var w := watchers[i].value;
               && w < |mid| && books' == mid[w := books'[w]]
               && books'[w].announced == mid[w].announced + [v.For(needsRotor(w))]
             else books' == mid
    ensures Told(books, books', v, watchers[..i + 1], only, blocked, needsRotor)
  {
    hide Value.For;
    assert watchers[..i + 1] == watchers[..i] + [watchers[i]];
    forall w: nat | watchers[i] == Some(w) ensures Some(w) !in watchers[..i] {}
  }

  // ----------------------------------------------------- encoding the record

  method Put(buf: array<byte>, p: nat, s: seq<byte>) returns (p': nat)
    requires 1 <= p && p + |s| <= buf.Length
    modifies buf
    ensures p' == p + |s| && buf[1..p'] == old(buf[1..p]) + s
  {
    forall i | 0 <= i < |s| { buf[p + i] := s[i]; }
    p' := p + |s|;
  }

  /** The undefined bit with the length in its short or long form, the time, and the
      rest of a long length. */
  function Middle(undef: bool, n: nat, time: Long): (s: seq<byte>)
    requires n < 0x2000 && (undef ==> n == 0)
  {
    var u := if undef then 0x80 else 0;
    if n < 0x20 then [(n + u + 0x40) as byte] + Be32(time)
    else [(0x60 + n / 0x100 % 0x20 + u) as byte] + Be32(time) + [(n % 0x100) as byte]
  }

  lemma RecordParts(v: Value)
    requires |v.bytes| + 17 <= ACCUM_SIZE
    ensures v.AsRecord().Sound()
    ensures v.AsRecord().Bytes() == Be32(v.ooid) + [v.kind] + Middle(v.undef, |v.AsRecord().value|, v.time) + v.AsRecord().value
  {
    hide Be32;
    var r := v.AsRecord();
    var low := r.LengthBytes();
    assert [v.kind, r.Flags()] == [v.kind] + [r.Flags()];
    assert Middle(v.undef, |r.value|, v.time) == [r.Flags()] + Be32(v.time) + low;
  }

  method PutMiddle(undef: bool, n: nat, time: Long, buf: array<byte>, p0: nat) returns (p: nat)
    requires n < 0x2000 && (undef ==> n == 0) && 1 <= p0 && p0 + 6 <= buf.Length
    modifies buf
    ensures p == p0 + |Middle(undef, n, time)| && buf[1..p] == old(buf[1..p0]) + Middle(undef, n, time)
  {
    hide Be32;
    var u := if undef then 0x80 else 0;
    if n < 0x20 {
      p := Put(buf, p0, [(n + u + 0x40) as byte]);
      p := Put(buf, p, Be32(time));
    } else {
      p := Put(buf, p0, [(0x60 + n / 0x100 % 0x20 + u) as byte]);
      p := Put(buf, p, Be32(time));
      p := Put(buf, p, [(n % 0x100) as byte]);
    }
  }

  /** The change as it is written into the buffer behind the count: object, type, the
      undefined bit with the length in its short or long form, time, the rest of a
      long length, value. */
  method WriteChange(v: Value) returns (buf: array<byte>, p: nat, head: nat)
    requires |v.bytes| + 17 <= ACCUM_SIZE
    ensures fresh(buf) && buf.Length == ACCUM_SIZE && 1 <= p <= ACCUM_SIZE
    ensures v.AsRecord().Sound() && buf[1..p] == v.AsRecord().Bytes() && p == head + |v.AsRecord().value|
  {
    hide Be32, Record.Bytes, Record.Sound, Middle;
    RecordParts(v);
    MiddleLength(v.undef, if v.undef then 0 else |v.bytes|, v.time);
    buf := new byte[ACCUM_SIZE](_ => 0);
    p := 1;
    var n := |v.bytes|;
    assert buf[1..p] == [];
    p := Put(buf, p, Be32(v.ooid));
    assert buf[1..p] == Be32(v.ooid);
    p := Put(buf, p, [v.kind]);
    if v.undef { n := 0; }
    p := PutMiddle(v.undef, n, v.time, buf, p);
    head := p;
    ghost var front := buf[1..p];
    if n > 0 { p := Put(buf, p, v.bytes); }
    assert buf[1..p] == front + v.AsRecord().value;
    SetCount(buf, p);
  }

  /** One change is in the buffer. */
  method SetCount(buf: array<byte>, p: nat)
    requires 1 <= p <= buf.Length
    modifies buf
    ensures buf[1..p] == old(buf[1..p])
  {
    buf[0] := 1;
  }

  lemma MiddleLength(undef: bool, n: nat, time: Long)
    requires n < 0x2000 && (undef ==> n == 0)
    ensures |Middle(undef, n, time)| <= 6
  {
  }

  /** Turn the one copy of the record, in place, to the other byte order. */
  method Turn(v: Value, ghost turned: bool, buf: array<byte>, head: nat, p: nat)
    requires |v.bytes| + 17 <= ACCUM_SIZE && v.For(turned).Sound() && 1 <= head <= p <= buf.Length
    requires buf[1..p] == v.For(turned).Bytes() && head + |v.AsRecord().value| == p
    modifies buf
    ensures v.For(!turned).Sound() && buf[1..p] == v.For(!turned).Bytes()
  {
    hide Record.Bytes, Value.For, Rotate;
    ToggleBody(v, turned);
    ghost var was := buf[..];
    assert buf[1..p] == was[1..p] && buf[head..p] == was[head..p];
    RotateInPlace(v.kind, buf, head, p - head);
    ghost var now := buf[..];
    assert buf[1..p] == now[1..p];
    TurnedBody(was, now, head, p, Rotate(v.kind, was[head..p]));
  }

  lemma TurnedBody(was: seq<byte>, now: seq<byte>, head: nat, p: nat, turned: seq<byte>)
    requires 1 <= head <= p <= |was| && |turned| == p - head
    requires now == was[..head] + turned + was[p..]
    ensures was[1..p][head - 1..] == was[head..p]
    ensures now[1..p] == was[1..p][..head - 1] + turned
  {
  }

  class FanOut {
    const needsRotor: nat -> bool     // which watchers have the other byte order

    var accums: seq<Accum>
    ghost var books: seq<Book>

    ghost predicate Valid()
      reads this
    {
      && |accums| == |books|
      && forall w :: 0 <= w < |accums| ==> Balanced(accums[w], books[w])
    }

    constructor (watchers: nat, needsRotor: nat -> bool)
      ensures Valid() && |accums| == watchers
      ensures forall w :: 0 <= w < |books| ==> books[w] == Book([], [], [])
    {
      this.needsRotor := needsRotor;
      accums := seq(watchers, _ => Accum(0, 0, []));
      books := seq(watchers, _ => Book([], [], []));
    }

    /** A watcher's accumulator is flushed because it is old. */
    method Flush(w: nat, taken: bool) returns (packet: Option<seq<byte>>)
      requires Valid() && w < |accums|
      modifies this
      ensures Valid() && |accums| == |old(accums)|
      ensures accums == old(accums)[w := Accum(1, 0, [])]
      ensures var b := old(books)[w];
              books == old(books)[w := Book(b.announced, [], b.sent + if packet.Some? then [Handed(packet.value, b.held, taken)] else [])]
      ensures packet.Some? <==> old(books)[w].held != []
      ensures packet.Some? ==> Decode(packet.value) == Some(old(books)[w].held)
    {
      hide Balanced;
      var a;
      ghost var b;
      a, packet, b := FlushAccum(accums[w], taken, books[w]);
      accums, books := accums[w := a], books[w := b];
    }

    /** ohubAnnounceChange: every watcher in the list (or the one asked for) that
        is not blocked gets one record more, in its own byte order. */
    method Announce(v: Value, watchers: seq<Option<nat>>, only: Option<nat>, blocked: nat -> bool, late: nat -> bool,
                    takes: nat -> bool) returns (ok: bool)
      requires Valid() && Distinct(watchers)
      requires forall i :: 0 <= i < |watchers| && watchers[i].Some? ==> watchers[i].value < |accums|
      modifies this
      ensures Valid() && |books| == |old(books)|
      ensures ok <==> watchers == [] || |v.bytes| + 17 <= ACCUM_SIZE
      ensures forall w: nat :: w < |books| ==>
        if ok && Some(w) in watchers && (only.None? || only == Some(w)) && !blocked(w)
        then exists r :: books[w].announced == old(books)[w].announced + [r] && Tells(r, v, needsRotor(w))
        else books[w].announced == old(books)[w].announced
    {
      hide Told, Tells;
      ToldNobody(books, v, only, blocked, needsRotor);
      if |watchers| == 0 {
        ToldMeans(books, books, v, [], only, blocked, needsRotor);
        return true;
      }
      if 1 + |v.bytes| + 16 > ACCUM_SIZE {
        ToldMeans(books, books, v, [], only, blocked, needsRotor);
        return false;
      }
      ok := true;
      var buf, p, head := WriteChange(v);
      TellAll(v, watchers, only, blocked, late, takes, buf, p, head);
      ToldMeans(old(books), books, v, watchers, only, blocked, needsRotor);
    }

    /** The loop over the watchers, with the one copy of the record. */
    method TellAll(v: Value, watchers: seq<Option<nat>>, only: Option<nat>, blocked: nat -> bool, late: nat -> bool,
                   takes: nat -> bool, buf: array<byte>, p: nat, head: nat)
      requires Valid() && Distinct(watchers) && |v.bytes| + 17 <= ACCUM_SIZE
      requires forall i :: 0 <= i < |watchers| && watchers[i].Some? ==> watchers[i].value < |accums|
      requires 1 <= p <= buf.Length && v.AsRecord().Sound() && buf[1..p] == v.AsRecord().Bytes() && p == head + |v.AsRecord().value|
      modifies this, buf
      ensures Valid() && Told(old(books), books, v, watchers, only, blocked, needsRotor)
    {
      hide Balanced, Record.Bytes, Value.For, Told;
      ToldNobody(books, v, only, blocked, needsRotor);
      BodySplits(v, false);
      PlainIsUnturned(v);
      var turned := false;
      var i := 0;
      assert watchers[..0] == [];
      while i < |watchers|
        invariant 0 <= i <= |watchers|
        invariant Valid() && |accums| == |old(accums)|
        invariant v.For(turned).Sound() && buf[1..p] == v.For(turned).Bytes()
        invariant Told(old(books), books, v, watchers[..i], only, blocked, needsRotor)
      {
        ghost var mid := books;
        if watchers[i].Some? && (only.None? || only == watchers[i]) && !blocked(watchers[i].value) {
          var w := watchers[i].value;
          if p > head && turned != needsRotor(w) {
            Turn(v, turned, buf, head, p);
            turned := needsRotor(w);
          }
          SameWhenEmpty(v, turned, needsRotor(w));
          BodySplits(v, turned);
          var a;
          ghost var b;
          a, b := AppendTo(accums[w], buf[1..p], late(w), takes(w), books[w], v.For(needsRotor(w)));
          accums, books := accums[w := a], books[w := b];
        }
        ToldOneMore(old(books), mid, books, v, watchers, i, only, blocked, needsRotor);
        i := i + 1;
      }
      assert watchers[..i] == watchers;
    }
  }

  // ------------------------------------------------------ the unregister list

  /** One agent's list of objects to unregister: buf[1..1 + qty] holds their
      ids, buf[0] the count once flushed. `asked` and `sent` are what was put in
      and what went out. */
  class UnregAccum {
    var buf: array<Long>
    var qty: nat
    ghost var asked: seq<Long>
    ghost var sent: seq<Long>

    ghost predicate Valid()
      reads this, buf
    {
      buf.Length == UNREG_SIZE + 1 && qty <= UNREG_SIZE && asked == sent + buf[1..1 + qty]
    }

    constructor ()
      ensures Valid() && asked == [] && fresh(buf)
    {
      buf, qty := new Long[UNREG_SIZE + 1](_ => 0), 0;
      asked, sent := [], [];
    }

    /** ohubMonFlushUnregAccum: the packet is the count and that many ids. */
    method Flush() returns (packet: Option<seq<Long>>)
      requires Valid()
      modifies this, buf
      ensures Valid() && buf == old(buf) && qty == 0 && asked == old(asked) == sent
      ensures packet.None? <==> old(qty) == 0
      ensures packet.Some? ==> packet.value == [old(qty)] + old(buf[1..1 + qty])
    {
      packet := None;
      if qty > 0 {
        buf[0] := qty;
        packet := Some(buf[..qty + 1]);
        sent := sent + packet.value[1..];
      }
      qty := 0;
      buf[0] := 0;
    }

    /** The part of ohubMonRemoveMonitor that queues the object. */
    method Put(ooid: Long, late: bool) returns (packet: Option<seq<Long>>)
      requires Valid()
      modifies this, buf
      ensures Valid() && buf == old(buf) && asked == old(asked) + [ooid]
      ensures packet.Some? <==> old(qty) >= UNREG_SIZE || (old(qty) > 0 && late)
      ensures packet.Some? ==> qty == 1 && packet.value == [old(qty)] + old(buf[1..1 + qty])
      ensures packet.None? ==> qty == old(qty) + 1 && sent == old(sent)
    {
      packet := None;
      if qty >= UNREG_SIZE || (qty > 0 && late) {
        packet := Flush();
      }
      buf[1 + qty] := ooid;
      qty := qty + 1;
      asked := asked + [ooid];
      assert buf[1..1 + qty] == buf[1..qty] + [ooid];
    }
  }

  lemma PlainIsUnturned(v: Value)
    ensures v.For(false) == v.AsRecord()
  {
  }

  /** A record is its head and its value, and turning changes the value only. */
  lemma BodySplits(v: Value, turned: bool)
    requires |v.bytes| + 17 <= ACCUM_SIZE
    ensures v.For(turned).Sound() && v.AsRecord().Sound()
    ensures var b, plain := v.For(turned).Bytes(), v.AsRecord();
            && |plain.value| <= |b| == |plain.Bytes()| <= |v.bytes| + 11
            && b[|b| - |plain.value|..] == v.For(turned).value
            && b[..|b| - |plain.value|] == plain.Bytes()[..|b| - |plain.value|]
  {
  }

  lemma ToggleBody(v: Value, turned: bool)
    requires |v.bytes| + 17 <= ACCUM_SIZE
    ensures v.For(turned).Sound() && v.For(!turned).Sound()
    ensures var b := v.For(turned).Bytes();
            var head := |b| - |v.AsRecord().value|;
            v.For(!turned).Bytes() == b[..head] + Rotate(v.kind, b[head..])
  {
    BodySplits(v, turned);
    BodySplits(v, !turned);
    RotateTwice(v.kind, v.AsRecord().value);
    var b, c := v.For(turned).Bytes(), v.For(!turned).Bytes();
    var head := |b| - |v.AsRecord().value|;
    assert c == c[..head] + c[head..];
  }

  lemma SameWhenEmpty(v: Value, a: bool, b: bool)
    requires a == b || v.AsRecord().value == []
    ensures v.For(a) == v.For(b)
  {
  }
}
