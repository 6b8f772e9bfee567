/** What an agent reports: changes, their bytes, the packets they travel in, and
    what the packets that were taken say to whoever decodes them. */
module AgentReports {
  import opened Bytes
  import opened MonitorCodec

  const MAX_DATA_LEN := 4192
  const UNDEF: byte := 0x80

  /** What one poll of a monitor finds. */
  datatype Poll = Undefined | Defined(value: seq<byte>)

  // ------------------------------------------------------- comparing two polls

  /** strncmp over two buffers of one size: equal up to and including a NUL. */
  predicate StringsEqual(a: seq<byte>, b: seq<byte>)
    requires |a| == |b|
  {
    a == [] || (a[0] == b[0] && (a[0] == 0 || StringsEqual(a[1..], b[1..])))
  }

  /** Two strings are equal when no byte differs that has no NUL in front of it. */
  lemma {:induction false} StringsEqualMeans(a: seq<byte>, b: seq<byte>)
    requires |a| == |b|
    ensures StringsEqual(a, b) <==> forall i :: 0 <= i < |a| && 0 !in a[..i] ==> a[i] == b[i]
  {
    if a != [] {
      if a[0] == b[0] && a[0] != 0 {
        StringsEqualMeans(a[1..], b[1..]);
        FrontShared(a, b);
      } else if a[0] == b[0] {
        forall i | 1 <= i < |a| ensures 0 in a[..i] { assert a[..i][0] == 0; }
      } else {
        assert 0 !in a[..0];
      }
    }
  }

  lemma FrontShared(a: seq<byte>, b: seq<byte>)
    requires |a| == |b| && a != [] && a[0] == b[0] != 0
    ensures (forall i :: 0 <= i < |a| && 0 !in a[..i] ==> a[i] == b[i])
       <==> (forall i :: 0 <= i < |a[1..]| && 0 !in a[1..][..i] ==> a[1..][i] == b[1..][i])
  {
    hide *;
    forall i | 1 <= i < |a| ensures 0 in a[..i] <==> 0 in a[1..][..i - 1] {
      assert a[..i] == [a[0]] + a[1..][..i - 1];
    }
    if forall i :: 0 <= i < |a| && 0 !in a[..i] ==> a[i] == b[i] {
      forall i | 0 <= i < |a[1..]| && 0 !in a[1..][..i] ensures a[1..][i] == b[1..][i] {
        assert 0 !in a[..i + 1] && a[i + 1] == b[i + 1];
      }
    }
    if forall i :: 0 <= i < |a[1..]| && 0 !in a[1..][..i] ==> a[1..][i] == b[1..][i] {
      forall i | 0 <= i < |a| && 0 !in a[..i] ensures a[i] == b[i] {
        if i > 0 { assert a[1..][i - 1] == b[1..][i - 1]; }
      }
    }
  }

  lemma {:induction false} StringsEqualTransitive(a: seq<byte>, b: seq<byte>, c: seq<byte>)
    requires |a| == |b| == |c|
    requires StringsEqual(a, b) && StringsEqual(b, c)
    ensures StringsEqual(a, c)
  {
    if a != [] && a[0] != 0 {
      StringsEqualTransitive(a[1..], b[1..], c[1..]);
    }
  }

  lemma {:induction false} StringsEqualReflexive(a: seq<byte>)
    ensures StringsEqual(a, a)
  {
    if a != [] && a[0] != 0 {
      StringsEqualReflexive(a[1..]);
    }
  }

  lemma {:induction false} StringsEqualSymmetric(a: seq<byte>, b: seq<byte>)
    requires |a| == |b|
    ensures StringsEqual(a, b) <==> StringsEqual(b, a)
  {
    if a != [] {
      StringsEqualSymmetric(a[1..], b[1..]);
    }
  }

  /** Two polls that no watcher needs to tell apart: identical, or for a string
      monitor the same C string. */
  predicate Agrees(kind: byte, p: Poll, q: Poll) {
    match (p, q)
    case (Undefined, Undefined) => true
    case (Defined(a), Defined(b)) => if kind == STRING_TYPE then |a| == |b| && StringsEqual(a, b) else a == b
    case _ => false
  }

  lemma AgreesTransitive(kind: byte, p: Poll, q: Poll, r: Poll)
    requires Agrees(kind, p, q) && Agrees(kind, q, r)
    ensures Agrees(kind, p, r)
  {
    if kind == STRING_TYPE && p.Defined? {
      StringsEqualTransitive(p.value, q.value, r.value);
    }
  }

  lemma AgreesReflexive(kind: byte, p: Poll)
    ensures Agrees(kind, p, p)
  {
    if p.Defined? { StringsEqualReflexive(p.value); }
  }

  // --------------------------------------------------------- reported changes

  /** A change as the agent writes it: `undef` is 0, 0x80 for an address that
      does not resolve, or 1 for an unsupported bit field. */
  datatype Change = Change(ooid: Long, kind: byte, undef: byte, value: seq<byte>)
  {
    predicate Sound() {
      && |value| < MAX_DATA_LEN
      && (undef == 0 || ((undef == UNDEF || undef == 1) && value == []))
    }

    function AsPoll(): Poll {
      if undef != 0 then Undefined else Defined(value)
    }

    function AsRecord(stamp: Option<Long>): Record {
      Record(ooid, kind, undef != 0, |value| >= 0x20, stamp, value)
    }

    /** The bytes put in the buffer. */
    function Bytes(stamp: Option<Long>): (s: seq<byte>)
      requires Sound()
      ensures |s| <= |value| + 11
    {
      var n := |value|;
      var timed := if stamp.Some? then 0x40 else 0;
      var flags := if n < 0x20 then n + undef as int + timed else 0x20 + n / 0x100 % 0x20 + undef as int + timed;
      Be32(ooid) + [kind, flags as byte]
      + (if stamp.Some? then Be32(stamp.value) else [])
      + (if n < 0x20 then [] else [(n % 0x100) as byte])
      + value
    }
  }

  predicate AllChangesSound(cs: seq<Change>) {
    forall i :: 0 <= i < |cs| ==> cs[i].Sound()
  }

  function ChangeBytes(cs: seq<Change>, stamp: Option<Long>): (s: seq<byte>)
    requires AllChangesSound(cs)
  {
    if cs == [] then [] else ChangeBytes(cs[..|cs| - 1], stamp) + cs[|cs| - 1].Bytes(stamp)
  }

  /** Only an unsupported bit field breaks the format: the agent's bytes are the
      record's bytes if and only if the undefined mark is the one the format has. */
  lemma BytesFollowFormat(c: Change, stamp: Option<Long>)
    requires c.Sound()
    ensures c.AsRecord(stamp).Sound()
    ensures c.Bytes(stamp) == c.AsRecord(stamp).Bytes() <==> c.undef != 1
  {
    var r := c.AsRecord(stamp);
    if c.undef == 1 {
      assert c.Bytes(stamp)[5] == if stamp.Some? then 0x41 else 1;
      assert r.Bytes()[5] == r.Flags();
    }
  }

  // ------------------------------------------------------------------ replay

  type View = map<Long, Poll>

  function Replay(cs: seq<Change>): View {
    if cs == [] then map[] else Replay(cs[..|cs| - 1])[cs[|cs| - 1].ooid := cs[|cs| - 1].AsPoll()]
  }

  lemma ReplayOne(cs: seq<Change>, c: Change)
    ensures Replay(cs + [c]) == Replay(cs)[c.ooid := c.AsPoll()]
  {
    assert (cs + [c])[..|cs + [c]| - 1] == cs;
  }

  /** A packet as it is handed to the sender, and the changes it was made of. */
  datatype Packet = Packet(bytes: seq<byte>, changes: seq<Change>, stamp: Option<Long>)
  {
    predicate Sound() {
      && 1 <= |changes| <= 255
      && AllChangesSound(changes)
      && bytes == [|changes| as byte] + ChangeBytes(changes, stamp)
    }
  }

  function Flatten(ps: seq<Packet>): (cs: seq<Change>) {
    if ps == [] then [] else Flatten(ps[..|ps| - 1]) + ps[|ps| - 1].changes
  }

  lemma FlattenOne(ps: seq<Packet>, p: Packet)
    ensures Flatten(ps + [p]) == Flatten(ps) + p.changes
  {
    assert (ps + [p])[..|ps + [p]| - 1] == ps;
  }

  // ------------------------------------------------------------ decoded packets

  function AsPoll(r: Record): Poll {
    if r.undef then Undefined else Defined(r.value)
  }

  /** What decoded records say, oldest first. */
  function Learn(v: View, rs: seq<Record>): View {
    if rs == [] then v else Learn(v, rs[..|rs| - 1])[rs[|rs| - 1].ooid := AsPoll(rs[|rs| - 1])]
  }

  /** What a run of packets says once decoded; one that does not decode says nothing. */
  function DecodedView(ps: seq<Packet>): View {
    if ps == [] then map[]
    else
      var before, r := DecodedView(ps[..|ps| - 1]), Decode(ps[|ps| - 1].bytes);
      if r.None? then before else Learn(before, r.value)
  }

  predicate Formatted(cs: seq<Change>) {
    forall i :: 0 <= i < |cs| ==> cs[i].undef != 1
  }

  function Records(cs: seq<Change>, stamp: Option<Long>): (rs: seq<Record>)
    ensures |rs| == |cs|
    ensures forall i :: 0 <= i < |rs| ==> rs[i] == cs[i].AsRecord(stamp)
  {
    seq(|cs|, i requires 0 <= i < |cs| => cs[i].AsRecord(stamp))
  }

  lemma SameLength(c: Change, stamp: Option<Long>)
    requires c.Sound()
    ensures c.AsRecord(stamp).Sound() && |c.Bytes(stamp)| == |c.AsRecord(stamp).Bytes()|
  {
    BytesFollowFormat(c, stamp);
  }

  lemma EqualTails(a: seq<byte>, b: seq<byte>, a': seq<byte>, b': seq<byte>)
    requires a + b == a' + b' && |b| == |b'|
    ensures a == a' && b == b'
  {
    assert a == (a + b)[..|a|] && a' == (a' + b')[..|a'|];
    assert b == (a + b)[|a|..] && b' == (a' + b')[|a'|..];
  }

  lemma RecordsAreSound(cs: seq<Change>, stamp: Option<Long>)
    requires AllChangesSound(cs)
    ensures AllSound(Records(cs, stamp))
  {
    forall i | 0 <= i < |cs| ensures Records(cs, stamp)[i].Sound() {
      BytesFollowFormat(cs[i], stamp);
    }
  }

  /** The last change, in the agent's bytes and in the format's. */
  lemma {:induction false} LastChange(cs: seq<Change>, stamp: Option<Long>)
    requires AllChangesSound(cs) && cs != []
    ensures var c, init := cs[|cs| - 1], cs[..|cs| - 1];
            && c.Sound() && AllChangesSound(init)
            && c.AsRecord(stamp).Sound() && AllSound(Records(cs, stamp)) && AllSound(Records(init, stamp))
            && ChangeBytes(cs, stamp) == ChangeBytes(init, stamp) + c.Bytes(stamp)
            && Encode(Records(cs, stamp)) == Encode(Records(init, stamp)) + c.AsRecord(stamp).Bytes()
            && (Formatted(cs) <==> Formatted(init) && c.undef != 1)
  {
    hide Change.Bytes, Record.Bytes, Change.Sound, Record.Sound, Change.AsRecord, Encode;
    var c, init := cs[|cs| - 1], cs[..|cs| - 1];
    RecordsAreSound(cs, stamp);
    RecordsAreSound(init, stamp);
    BytesFollowFormat(c, stamp);
    assert Records(cs, stamp) == Records(init, stamp) + [c.AsRecord(stamp)];
    EncodeConcat(Records(init, stamp), [c.AsRecord(stamp)]);
    EncodeOne(c.AsRecord(stamp));
    assert cs == init + [c];
  }

  lemma {:induction false} ChangeBytesAreRecords(cs: seq<Change>, stamp: Option<Long>)
    requires AllChangesSound(cs)
    ensures AllSound(Records(cs, stamp))
    ensures ChangeBytes(cs, stamp) == Encode(Records(cs, stamp)) <==> Formatted(cs)
    decreases |cs|
  {
    RecordsAreSound(cs, stamp);
    if cs != [] {
      hide *;
      var c, init := cs[|cs| - 1], cs[..|cs| - 1];
      LastChange(cs, stamp);
      ChangeBytesAreRecords(init, stamp);
      BytesFollowFormat(c, stamp);
      SameLength(c, stamp);
      if ChangeBytes(cs, stamp) == Encode(Records(cs, stamp)) {
        EqualTails(ChangeBytes(init, stamp), c.Bytes(stamp), Encode(Records(init, stamp)), c.AsRecord(stamp).Bytes());
      }
    }
  }

  /** A packet decodes to the changes it was made of if and only if none of them is
      that of an unsupported bit field. */
  lemma PacketDecodes(p: Packet)
    requires p.Sound()
    ensures Decode(p.bytes) == Some(Records(p.changes, p.stamp)) <==> Formatted(p.changes)
  {
    hide Change.Bytes, Record.Bytes, Record.Sound, Decode, Encode, ChangeBytes, Formatted;
    var rs := Records(p.changes, p.stamp);
    ChangeBytesAreRecords(p.changes, p.stamp);
    if Formatted(p.changes) {
      DecodeOfEncode(rs);
    }
    if Decode(p.bytes) == Some(rs) {
      EncodeOfDecode(p.bytes);
      EqualTails([|rs| as byte], ChangeBytes(p.changes, p.stamp), [|rs| as byte], Encode(rs));
    }
  }

  /** What that does: a packet of just that change is refused by the hub. */
  lemma UnsupportedBitFieldIsRefused(c: Change, stamp: Option<Long>)
    requires c.Sound() && c.undef == 1
    ensures Decode([1] + c.Bytes(stamp)) == None
  {
    var b := [1] + c.Bytes(stamp);
    assert |b| == if stamp.Some? then 11 else 7;
    assert At(b, 6) == if stamp.Some? then 0x41 else 1;
    assert ReadRecord(b, 1) == Reject;
  }

  /** But with other changes behind it the packet can pass: the mark is read as a
      length of 1, which eats the first byte of the next record, and the hub is
      given two records that nobody sent. */
  lemma UnsupportedBitFieldIsMisread(p: Packet)
    requires p.changes == [Change(7, 76, 1, []), Change(0x0102_0304, 0, 0, [3, 9, 9, 9])]
    requires p.Sound() && p.stamp == None
    ensures Decode(p.bytes) == Some([Record(7, 76, false, false, None, [1]),
                                     Record(0x0203_0400, 4, false, false, None, [9, 9, 9])])
  {
    hide Change.Bytes, Decode;
    var bad, good := p.changes[0], p.changes[1];
    MisreadBytes(bad, good);
    assert p.changes[..1] == [bad] && [bad][..0] == [];
    assert ChangeBytes([bad], None) == bad.Bytes(None);
    assert p.bytes == [2, 0, 0, 0, 7, 76, 1, 1, 2, 3, 4, 0, 4, 3, 9, 9, 9];
    MisreadDecodes(p.bytes);
  }

  lemma MisreadBytes(bad: Change, good: Change)
    requires bad == Change(7, 76, 1, []) && good == Change(0x0102_0304, 0, 0, [3, 9, 9, 9])
    ensures bad.Bytes(None) == [0, 0, 0, 7, 76, 1] && good.Bytes(None) == [1, 2, 3, 4, 0, 4, 3, 9, 9, 9]
  {
  }

  lemma MisreadReads(buf: seq<byte>)
    requires buf == [2, 0, 0, 0, 7, 76, 1, 1, 2, 3, 4, 0, 4, 3, 9, 9, 9]
    ensures ReadRecord(buf, 1) == Parsed(Record(7, 76, false, false, None, [1]), 8)
    ensures ReadRecord(buf, 8) == Parsed(Record(0x0203_0400, 4, false, false, None, [9, 9, 9]), 17)
  {
  }

  lemma TwoDecode(buf: seq<byte>, r: Record, s: Record, p: nat)
    requires |buf| > 0 && buf[0] == 2 && ReadRecord(buf, 1) == Parsed(r, p) && ReadRecord(buf, p) == Parsed(s, |buf|)
    ensures Decode(buf) == Some([r, s])
  {
    hide *;
    DecodeHead(buf);
    DecodeStep([], buf, 1, 2);
    DecodeStep([] + [r], buf, p, 1);
    DecodeEnd([] + [r] + [s], buf, |buf|);
    assert [] + [r] + [s] == [r, s];
  }

  lemma MisreadDecodes(buf: seq<byte>)
    requires buf == [2, 0, 0, 0, 7, 76, 1, 1, 2, 3, 4, 0, 4, 3, 9, 9, 9]
    ensures Decode(buf) == Some([Record(7, 76, false, false, None, [1]),
                                 Record(0x0203_0400, 4, false, false, None, [9, 9, 9])])
  {
    hide *;
    MisreadReads(buf);
    TwoDecode(buf, Record(7, 76, false, false, None, [1]), Record(0x0203_0400, 4, false, false, None, [9, 9, 9]), 8);
  }

  /** The last record learned is the last change. */
  lemma LearnOneMore(v: View, cs: seq<Change>, stamp: Option<Long>)
    requires cs != []
    ensures var n := |cs| - 1;
            Learn(v, Records(cs, stamp)) == Learn(v, Records(cs[..n], stamp))[cs[n].ooid := cs[n].AsPoll()]
  {
    hide Change.Sound;
    var n := |cs| - 1;
    assert Records(cs, stamp)[..n] == Records(cs[..n], stamp);
    assert AsPoll(cs[n].AsRecord(stamp)) == cs[n].AsPoll();
  }

  lemma {:induction false} LearnIsReplay(cs: seq<Change>, before: seq<Change>, stamp: Option<Long>)
    ensures Learn(Replay(before), Records(cs, stamp)) == Replay(before + cs)
    decreases |cs|
  {
    hide Records, Replay;
    if cs == [] {
      assert before + cs == before;
    } else {
      var n := |cs| - 1;
      LearnOneMore(Replay(before), cs, stamp);
      LearnIsReplay(cs[..n], before, stamp);
      assert before + cs == (before + cs[..n]) + [cs[n]];
      ReplayOne(before + cs[..n], cs[n]);
    }
  }

  ghost predicate AllGood(ps: seq<Packet>) {
    forall i :: 0 <= i < |ps| ==> ps[i].Sound() && Formatted(ps[i].changes)
  }

  /** Decoding packets of supported changes in order is replaying the changes. */
  lemma {:induction false} DecodedViewIsReplay(ps: seq<Packet>)
    requires AllGood(ps)
    ensures DecodedView(ps) == Replay(Flatten(ps))
    decreases |ps|
  {
    if ps != [] {
      hide Packet.Sound, Formatted, Learn, Replay, Decode, Records;
      var init, p := ps[..|ps| - 1], ps[|ps| - 1];
      DecodedViewIsReplay(init);
      PacketDecodes(p);
      LearnIsReplay(p.changes, Flatten(init), p.stamp);
    }
  }

  // ------------------------------------------------------------------- history

  /** A packet handed over, and whether the sender took it. */
  datatype Sent = Sent(packet: Packet, taken: bool)

  function TakenOf(sent: seq<Sent>): (ps: seq<Packet>) {
    if sent == [] then []
    else
      var init, s := TakenOf(sent[..|sent| - 1]), sent[|sent| - 1];
      if s.taken then init + [s.packet] else init
  }

  /** Every change ever put in a packet, taken or not. */
  function Reported(sent: seq<Sent>): (cs: seq<Change>) {
    if sent == [] then [] else Reported(sent[..|sent| - 1]) + sent[|sent| - 1].packet.changes
  }

  /** What the packets taken say once decoded. */
  function Seen(sent: seq<Sent>): View { DecodedView(TakenOf(sent)) }

  ghost function Ooids(cs: seq<Change>): set<Long> {
    set i | 0 <= i < |cs| :: cs[i].ooid
  }

  /** The objects whose last report was in a packet that nobody took. */
  ghost function Stale(sent: seq<Sent>): set<Long> {
    if sent == [] then {}
    else
      var before, s := Stale(sent[..|sent| - 1]), sent[|sent| - 1];
      if s.taken then before - Ooids(s.packet.changes) else before + Ooids(s.packet.changes)
  }

  function Look(v: View, ooid: Long): Option<Poll> {
    if ooid in v then Some(v[ooid]) else None
  }

  ghost predicate AllSentGood(sent: seq<Sent>) {
    forall i :: 0 <= i < |sent| ==> sent[i].packet.Sound() && Formatted(sent[i].packet.changes)
  }

  lemma SentOneMore(sent: seq<Sent>, s: Sent)
    ensures TakenOf(sent + [s]) == if s.taken then TakenOf(sent) + [s.packet] else TakenOf(sent)
    ensures Reported(sent + [s]) == Reported(sent) + s.packet.changes
    ensures Stale(sent + [s]) == if s.taken then Stale(sent) - Ooids(s.packet.changes) else Stale(sent) + Ooids(s.packet.changes)
  {
    assert (sent + [s])[..|sent + [s]| - 1] == sent;
  }

  lemma {:induction false} TakenGood(sent: seq<Sent>)
    requires AllSentGood(sent)
    ensures AllGood(TakenOf(sent))
    decreases |sent|
  {
    hide Packet.Sound, Formatted;
    if sent != [] { TakenGood(sent[..|sent| - 1]); }
  }

  /** Of each object a replay shows the last report. */
  lemma {:induction false} ReplayAfter(a: seq<Change>, b: seq<Change>, ooid: Long)
    ensures Look(Replay(a + b), ooid) == if ooid in Ooids(b) then Look(Replay(b), ooid) else Look(Replay(a), ooid)
    decreases |b|
  {
    if b == [] {
      assert a + b == a;
    } else {
      var n := |b| - 1;
      ReplayAfter(a, b[..n], ooid);
      assert a + b == (a + b[..n]) + [b[n]] && b == b[..n] + [b[n]];
      ReplayOne(a + b[..n], b[n]);
      ReplayOne(b[..n], b[n]);
      OoidsOneMore(b[..n], b[n]);
    }
  }

  lemma OoidsOneMore(cs: seq<Change>, c: Change)
    ensures Ooids(cs + [c]) == Ooids(cs) + {c.ooid}
  {
    assert forall i :: 0 <= i < |cs| ==> (cs + [c])[i] == cs[i];
    assert (cs + [c])[|cs|] == c;
  }

  /** Outside the stale objects the taken packets show the last report. */
  lemma {:induction false} FreshIsReported(sent: seq<Sent>, ooid: Long)
    requires ooid !in Stale(sent)
    ensures Look(Replay(Flatten(TakenOf(sent))), ooid) == Look(Replay(Reported(sent)), ooid)
    decreases |sent|
  {
    if sent != [] {
      hide Replay, Look, Ooids;
      var init, s := sent[..|sent| - 1], sent[|sent| - 1];
      assert sent == init + [s];
      SentOneMore(init, s);
      hide Stale, TakenOf, Reported, Flatten;
      ReplayAfter(Reported(init), s.packet.changes, ooid);
      if s.taken {
        FlattenOne(TakenOf(init), s.packet);
        ReplayAfter(Flatten(TakenOf(init)), s.packet.changes, ooid);
      }
      if ooid !in Stale(init) { FreshIsReported(init, ooid); }
    }
  }

  /** Since packet k was refused, nothing about the object has been taken, and up to
      there all was well. */
  ghost predicate LostSince(sent: seq<Sent>, ooid: Long, k: nat) {
    && k < |sent| && !sent[k].taken && ooid in Ooids(sent[k].packet.changes) && ooid !in Stale(sent[..k])
    && forall j :: k <= j < |sent| && sent[j].taken ==> ooid !in Ooids(sent[j].packet.changes)
  }

  lemma {:induction false} StaleIsLost(sent: seq<Sent>, ooid: Long) returns (k: nat)
    requires ooid in Stale(sent)
    ensures LostSince(sent, ooid, k)
    decreases |sent|
  {
    hide Ooids;
    var init, s := sent[..|sent| - 1], sent[|sent| - 1];
    assert sent == init + [s];
    SentOneMore(init, s);
    if ooid in Stale(init) {
      hide Stale;
      k := StaleIsLost(init, ooid);
      assert sent[..k] == init[..k] && forall j :: 0 <= j < |init| ==> sent[j] == init[j];
    } else {
      k := |init|;
    }
  }

  lemma {:induction false} LostIsStale(sent: seq<Sent>, ooid: Long, k: nat)
    requires LostSince(sent, ooid, k)
    ensures ooid in Stale(sent)
    ensures Look(Replay(Flatten(TakenOf(sent))), ooid) == Look(Replay(Reported(sent[..k])), ooid)
    decreases |sent|
  {
    hide Replay, Look, Ooids, Flatten;
    var init, s := sent[..|sent| - 1], sent[|sent| - 1];
    assert sent == init + [s];
    SentOneMore(init, s);
    hide Stale, TakenOf, Reported;
    if k < |init| {
      assert sent[..k] == init[..k] && forall j :: 0 <= j < |init| ==> sent[j] == init[j];
      LostIsStale(init, ooid, k);
      if s.taken {
        FlattenOne(TakenOf(init), s.packet);
        ReplayAfter(Flatten(TakenOf(init)), s.packet.changes, ooid);
      }
    } else {
      assert sent[..k] == init;
      FreshIsReported(init, ooid);
    }
  }

  /** An object is stale if and only if it was reported in a packet that was refused
      and nothing about it has been taken since; and then the taken packets show
      what had been reported before that packet. */
  lemma StaleExactly(sent: seq<Sent>, ooid: Long)
    ensures ooid in Stale(sent) <==> exists k: nat :: LostSince(sent, ooid, k)
    ensures forall k: nat :: LostSince(sent, ooid, k) ==>
              Look(Replay(Flatten(TakenOf(sent))), ooid) == Look(Replay(Reported(sent[..k])), ooid)
  {
    hide Stale, Replay, Flatten, TakenOf, Reported, Look;
    if ooid in Stale(sent) { var k := StaleIsLost(sent, ooid); }
    forall k: nat | LostSince(sent, ooid, k)
      ensures ooid in Stale(sent)
      ensures Look(Replay(Flatten(TakenOf(sent))), ooid) == Look(Replay(Reported(sent[..k])), ooid)
    {
      LostIsStale(sent, ooid, k);
    }
  }

  /** Every packet handed over reports something. */
  lemma {:induction false} ReportedGrows(sent: seq<Sent>, more: seq<Sent>)
    requires sent <= more && forall i :: 0 <= i < |more| ==> more[i].packet.Sound()
    ensures |Reported(more)| >= |Reported(sent)| + |more| - |sent|
    decreases |more|
  {
    if more != sent {
      var init, s := more[..|more| - 1], more[|more| - 1];
      assert more == init + [s] && sent <= init;
      SentOneMore(init, s);
      ReportedGrows(sent, init);
      assert s == more[|more| - 1];
    }
  }
}
