/** What the hub makes of an agent's packet of changes: which records it stores,
    which one stops it, and what its monitors then show. */
module HubValues {
  import opened AgentReports
  import opened Bytes
  import opened MonitorCodec
  import ChangeDetector
  import FanOut

  /** What the hub knows of a monitored object: its type and the length of its data. */
  datatype Slot = Slot(kind: byte, len: nat)

  type Slots = map<Long, Slot>

  /** The value the hub holds of it, in the hub's byte order. */
  datatype Value = Value(kind: byte, undef: bool, time: Long, bytes: seq<byte>)

  type Values = map<Long, Value>

  datatype Verdict = Unknown | Refused | Stored(undef: bool)

  /** The checks of a record: no monitor for it, a type that is not the monitor's,
      which makes it undefined, and a length that is not, which ends the packet. */
  function Judge(slots: Slots, r: Record): Verdict {
    if r.ooid !in slots then Unknown
    else
      var slot := slots[r.ooid];
      var undef := r.undef || r.kind != slot.kind;
      var len := if undef then 0 else |r.value|;
      if r.kind != STRING_TYPE && len != slot.len then Refused else Stored(undef)
  }

  function ValueOf(r: Record, undef: bool, rotor: bool): Value {
    Value(r.kind, undef, if r.stamp.Some? then r.stamp.value else 0,
          if undef then [] else if rotor then FanOut.Rotate(r.kind, r.value) else r.value)
  }

  function Store(slots: Slots, rotor: bool, vs: Values, r: Record): Values {
    var v := Judge(slots, r);
    if v.Stored? then vs[r.ooid := ValueOf(r, v.undef, rotor)] else vs
  }

  /** Which records are dropped, which end the packet, and which are stored as
      undefined: one of another type counts as undefined, and an undefined one as one
      of length 0, which for a number is a wrong length. */
  lemma JudgeMeans(slots: Slots, r: Record)
    ensures var v := Judge(slots, r);
            && (v.Unknown? <==> r.ooid !in slots)
            && (v.Refused? <==>
                  r.ooid in slots && r.kind != STRING_TYPE
                  && if r.undef || r.kind != slots[r.ooid].kind then slots[r.ooid].len != 0 else |r.value| != slots[r.ooid].len)
            && (v.Stored? ==> (v.undef <==> r.undef || r.kind != slots[r.ooid].kind))
  {
  }

  /** What is then stored: the type, the undefined mark, the time, or 0 where there is
      none, and the bytes in the hub's order; nothing else changes. */
  lemma StoreMeans(slots: Slots, rotor: bool, vs: Values, r: Record)
    ensures var vs', v := Store(slots, rotor, vs, r), Judge(slots, r);
            && (forall o :: o != r.ooid ==> (o in vs' <==> o in vs) && (o in vs ==> vs'[o] == vs[o]))
            && (!v.Stored? ==> vs' == vs)
            && (v.Stored? ==>
                  && r.ooid in vs' && vs'[r.ooid].kind == r.kind && vs'[r.ooid].undef == v.undef
                  && vs'[r.ooid].time == (if r.stamp.Some? then r.stamp.value else 0)
                  && |vs'[r.ooid].bytes| == (if v.undef then 0 else |r.value|)
                  && forall i :: 0 <= i < |vs'[r.ooid].bytes| ==>
                       vs'[r.ooid].bytes[i]
                       == r.value[if rotor && r.kind != STRING_TYPE && |r.value| in {2, 4, 8, 16} then |r.value| - 1 - i else i])
  {
    hide Judge, FanOut.Rotate;
    FanOut.RotateMeans(r.kind, r.value);
  }

  function StoreAll(slots: Slots, rotor: bool, vs: Values, rs: seq<Record>): Values {
    if rs == [] then vs else Store(slots, rotor, StoreAll(slots, rotor, vs, rs[..|rs| - 1]), rs[|rs| - 1])
  }

  /** How many records come before the first one refused. */
  function Accepted(slots: Slots, rs: seq<Record>): (k: nat)
    ensures k <= |rs|
  {
    if rs == [] || Judge(slots, rs[0]).Refused? then 0 else 1 + Accepted(slots, rs[1..])
  }

  /** The records that can be read before the packet breaks off or is used up. */
  function ReadableFrom(buf: seq<byte>, p: nat, n: nat): seq<Record>
    decreases n
  {
    if n == 0 then []
    else
      match ReadRecord(buf, p)
      case Reject => []
      case Parsed(r, q) => [r] + ReadableFrom(buf, q, n - 1)
  }

  function Readable(buf: seq<byte>): seq<Record> {
    if At(buf, 0) == 0 then [] else ReadableFrom(buf, 1, At(buf, 0) as nat)
  }

  lemma {:induction false} ReadableStep(done: seq<Record>, buf: seq<byte>, p: nat, n: nat)
    requires n > 0
    ensures done + ReadableFrom(buf, p, n)
            == match ReadRecord(buf, p)
               case Reject => done
               case Parsed(r, q) => (done + [r]) + ReadableFrom(buf, q, n - 1)
  {
    hide ReadRecord;
    var r := ReadRecord(buf, p);
    if r.Parsed? { assert done + ([r.rec] + ReadableFrom(buf, r.next, n - 1)) == (done + [r.rec]) + ReadableFrom(buf, r.next, n - 1); }
  }

  lemma ReadableHead(buf: seq<byte>)
    requires |buf| > 0
    ensures Readable(buf) == if buf[0] == 0 then [] else [] + ReadableFrom(buf, 1, buf[0] as nat)
  {
  }

  lemma ReadableEnd(done: seq<Record>, buf: seq<byte>, p: nat)
    ensures done + ReadableFrom(buf, p, 0) == done
  {
  }

  /** Of a packet that decodes all is readable. */
  lemma {:induction false} ReadableDecoded(buf: seq<byte>, p: nat, n: nat)
    requires DecodeFrom(buf, p, n).Some?
    ensures DecodeFrom(buf, p, n) == Some(ReadableFrom(buf, p, n))
    decreases n
  {
    hide ReadRecord;
    if n > 0 { ReadableDecoded(buf, ReadRecord(buf, p).next, n - 1); }
  }

  lemma StoreOneMore(slots: Slots, rotor: bool, vs: Values, rs: seq<Record>, r: Record)
    ensures StoreAll(slots, rotor, vs, rs + [r]) == Store(slots, rotor, StoreAll(slots, rotor, vs, rs), r)
  {
    hide Store;
    assert (rs + [r])[..|rs + [r]| - 1] == rs;
  }

  /** Behind records that were all accepted, the next one decides. */
  lemma {:induction false} AcceptedThen(slots: Slots, done: seq<Record>, rest: seq<Record>)
    requires Accepted(slots, done) == |done|
    ensures Accepted(slots, done + rest) == |done| + Accepted(slots, rest)
    decreases |done|
  {
    hide Judge;
    if done == [] {
      assert done + rest == rest;
    } else {
      assert done + rest == [done[0]] + (done[1..] + rest);
      AcceptedThen(slots, done[1..], rest);
    }
  }

  /** The ids announced to watchers. */
  function Announced(slots: Slots, rs: seq<Record>): seq<Long> {
    if rs == [] then []
    else Announced(slots, rs[..|rs| - 1])
         + if Judge(slots, rs[|rs| - 1]).Stored? then [rs[|rs| - 1].ooid] else []
  }

  lemma AnnouncedOneMore(slots: Slots, rs: seq<Record>, r: Record)
    ensures Announced(slots, rs + [r]) == Announced(slots, rs) + if Judge(slots, r).Stored? then [r.ooid] else []
  {
    hide Judge;
    assert (rs + [r])[..|rs + [r]| - 1] == rs;
  }

  /** The records handled so far have all been accepted, stored and announced. */
  ghost predicate Handled(slots: Slots, rotor: bool, vs0: Values, vs: Values, told: seq<Long>, done: seq<Record>) {
    && Accepted(slots, done) == |done|
    && vs == StoreAll(slots, rotor, vs0, done)
    && told == Announced(slots, done)
  }

  lemma OneMoreHandled(slots: Slots, rotor: bool, vs0: Values, vs: Values, told: seq<Long>, done: seq<Record>, r: Record)
    requires Handled(slots, rotor, vs0, vs, told, done) && !Judge(slots, r).Refused?
    ensures Handled(slots, rotor, vs0, Store(slots, rotor, vs, r),
                    told + if Judge(slots, r).Stored? then [r.ooid] else [], done + [r])
  {
    hide Judge, Store;
    AcceptedThen(slots, done, [r]);
    assert [r][1..] == [];
    StoreOneMore(slots, rotor, vs0, done, r);
    AnnouncedOneMore(slots, done, r);
  }

  /** Where handling stops, because of a refused record or because no more can be read. */
  lemma StopsAt(slots: Slots, done: seq<Record>, rest: seq<Record>)
    requires Accepted(slots, done) == |done| && (rest == [] || Judge(slots, rest[0]).Refused?)
    ensures Accepted(slots, done + rest) == |done| && (done + rest)[..|done|] == done
  {
    hide Judge;
    AcceptedThen(slots, done, rest);
  }

  class Hub {
    const slots: Slots
    var values: Values

    constructor (slots: Slots, values: Values)
      ensures this.slots == slots && this.values == values
    {
      this.slots, this.values := slots, values;
    }

    /** The body of the loop. The source compares type and length before it checks
        that the value ends inside the packet; it gives up in either case. */
    method HandleRecord(mem: MonitorCodec.Memory, len: nat, start: nat, rotor: bool, told0: seq<Long>)
      returns (ok: bool, next: nat, told: seq<Long>)
      modifies this
      ensures match ReadRecord(PacketAt(mem, len), start)
              case Reject => values == old(values) && told == told0 && (ok ==> next > len)
              case Parsed(r, q) =>
                var v := Judge(slots, r);
                && (ok <==> !v.Refused?) && (ok ==> next == q <= len)
                && values == (if v.Refused? then old(values) else Store(slots, rotor, old(values), r))
                && told == told0 + if v.Stored? then [r.ooid] else []
    {
      hide ReadRecord, PacketAt, FanOut.Rotate;
      var rec;
      ghost var seen;
      told := told0;
      ok, rec, next, seen := TakeRecord(mem, len, start);
      ReadEnds(PacketAt(mem, len), start);
      UndefinedIsEmpty(PacketAt(mem, len), start);
      if !ok || rec.ooid !in slots { return; }
      if next > len { return false, next, told; }
      var slot := slots[rec.ooid];
      var undef, n := rec.undef, |rec.value|;
      if rec.kind != slot.kind {
        undef, n := true, 0;
      }
      if rec.kind != STRING_TYPE && n != slot.len { return false, next, told; }
      var time := if rec.stamp.Some? then rec.stamp.value else 0;
      var bytes := [];
      if !undef {
        bytes := if rotor then FanOut.Rotate(rec.kind, rec.value) else rec.value;
      }
      values := values[rec.ooid := Value(rec.kind, undef, time, bytes)];
      told := told + [rec.ooid];
    }

    /** ohubHandleMonitoring: every record is stored and announced as it is read, up
        to the first that is refused or cannot be read. It reports success if and
        only if the packet decodes and none is refused. */
    method HandleMonitoring(mem: MonitorCodec.Memory, len: nat, rotor: bool) returns (ok: bool, told: seq<Long>)
      requires 1 <= len
      modifies this
      ensures var rs := Readable(PacketAt(mem, len));
              var k := Accepted(slots, rs);
              && values == StoreAll(slots, rotor, old(values), rs[..k])
              && told == Announced(slots, rs[..k])
              && (ok <==> Decode(PacketAt(mem, len)).Some? && k == |rs|)
    {
      hide Decode, DecodeFrom, Readable, ReadableFrom, ReadRecord, PacketAt, Judge, Store, StoreAll, Accepted, Announced, Prepend, At;
      ghost var buf := PacketAt(mem, len);
      ghost var rs, done := Readable(buf), [];
      told := [];
      var p: nat := 0;
      var num := mem(p) as nat;
      DecodeHead(buf);
      ReadableHead(buf);
      NothingHandled(slots, rotor, values);
      p := p + 1;
      if num < 1 {
        StopsAt(slots, [], []);
        return false, told;
      }
      var i := 0;
      while i < num
        invariant 0 <= i <= num
        invariant p > len ==> Decode(buf) == None && rs == done
        invariant p <= len ==> Decode(buf) == Prepend(done, DecodeFrom(buf, p, num - i))
        invariant p <= len ==> rs == done + ReadableFrom(buf, p, num - i)
        invariant Handled(slots, rotor, old(values), values, told, done)
      {
        DecodeStep(done, buf, p, num - i);
        ReadableStep(done, buf, p, num - i);
        ReadEnds(buf, p);
        ghost var r, vs0 := ReadRecord(buf, p), values;
        ghost var told0 := told;
        ghost var rest := if r.Parsed? then [r.rec] + ReadableFrom(buf, r.next, num - i - 1) else [];
        assert rs == done + rest by { if r.Parsed? { Regroup(done, [r.rec], ReadableFrom(buf, r.next, num - i - 1)); } }
        var ok, next;
        ok, next, told := HandleRecord(mem, len, p, rotor, told);
        if !ok {
          StopsAt(slots, done, rest);
          return false, told;
        }
        i := i + 1;
        p := next;
        if r.Parsed? {
          OneMoreHandled(slots, rotor, old(values), vs0, told0, done, r.rec);
          done := done + [r.rec];
        }
      }
      if p <= len { DecodeEnd(done, buf, p); ReadableEnd(done, buf, p); }
      StopsAt(slots, done, []);
      assert done + [] == done;
      if p != len { return false, told; }
      ok := true;
    }
  }

  lemma ReadEnds(buf: seq<byte>, p: nat)
    ensures ReadRecord(buf, p).Parsed? ==> p < |buf| && ReadRecord(buf, p).next <= |buf|
  {
  }

  lemma UndefinedIsEmpty(buf: seq<byte>, p: nat)
    ensures ReadRecord(buf, p).Parsed? && ReadRecord(buf, p).rec.undef ==> ReadRecord(buf, p).rec.value == []
  {
  }

  lemma NothingHandled(slots: Slots, rotor: bool, vs: Values)
    ensures Handled(slots, rotor, vs, vs, [], [])
  {
  }

  // ------------------------------------------------- what the hub then shows

  predicate Number(slots: Slots, ooid: Long) {
    ooid in slots && slots[ooid].kind != STRING_TYPE && slots[ooid].len > 0
  }

  predicate HoldsNumber(slots: Slots, ooid: Long, v: Value)
    requires ooid in slots
  {
    v.kind == slots[ooid].kind && !v.undef && |v.bytes| == slots[ooid].len
  }

  /** Whatever bytes come in: once a numeric monitor holds a number it always does,
      unless a record claims that it is a string. */
  lemma {:induction false} NumbersStayNumbers(slots: Slots, rotor: bool, vs: Values, rs: seq<Record>, ooid: Long)
    requires Number(slots, ooid) && ooid in vs && HoldsNumber(slots, ooid, vs[ooid])
    requires forall i :: 0 <= i < |rs| && rs[i].ooid == ooid ==> rs[i].kind != STRING_TYPE
    ensures ooid in StoreAll(slots, rotor, vs, rs) && HoldsNumber(slots, ooid, StoreAll(slots, rotor, vs, rs)[ooid])
    decreases |rs|
  {
    if rs != [] { NumbersStayNumbers(slots, rotor, vs, rs[..|rs| - 1], ooid); }
  }

  /** A value in the byte order of the agent it came from. */
  function Shown(v: Value, rotor: bool): Poll {
    if v.undef then Undefined else Defined(if rotor then FanOut.Rotate(v.kind, v.bytes) else v.bytes)
  }

  /** The agent's idea of what it reports is the hub's. */
  predicate Matches(slots: Slots, c: Change) {
    c.ooid in slots ==>
      && c.kind == slots[c.ooid].kind
      && (c.kind != STRING_TYPE ==> slots[c.ooid].len > 0 && (c.undef == 0 ==> |c.value| == slots[c.ooid].len))
  }

  /** The undefined mark of a numeric monitor has length 0, which is never its own. */
  predicate Blocks(slots: Slots, c: Change) {
    c.ooid in slots && c.kind != STRING_TYPE && c.undef != 0
  }

  /** How many changes come before the first that blocks. */
  function Passing(slots: Slots, cs: seq<Change>): (k: nat)
    ensures k <= |cs|
    ensures forall i :: 0 <= i < k ==> !Blocks(slots, cs[i])
    ensures k < |cs| ==> Blocks(slots, cs[k])
  {
    if cs == [] || Blocks(slots, cs[0]) then 0 else 1 + Passing(slots, cs[1..])
  }

  lemma JudgeMatching(slots: Slots, c: Change, stamp: Option<Long>)
    requires Matches(slots, c)
    ensures Judge(slots, c.AsRecord(stamp))
            == if c.ooid !in slots then Unknown else if Blocks(slots, c) then Refused else Stored(c.undef != 0)
  {
  }

  /** From an agent that matches, a packet is taken up to its first undefined mark of
      a numeric monitor, and whole if and only if it has none. */
  lemma {:induction false} AcceptedIsPassing(slots: Slots, cs: seq<Change>, stamp: Option<Long>)
    requires forall i :: 0 <= i < |cs| ==> Matches(slots, cs[i])
    ensures Accepted(slots, Records(cs, stamp)) == Passing(slots, cs)
    decreases |cs|
  {
    if cs != [] {
      hide Judge, Matches, Blocks, Change.AsRecord;
      JudgeMatching(slots, cs[0], stamp);
      assert Records(cs, stamp)[1..] == Records(cs[1..], stamp);
      AcceptedIsPassing(slots, cs[1..], stamp);
    }
  }

  /** One such mark, and what stands behind it in the packet is lost with it. */
  lemma MarkStopsThePacket(slots: Slots, rotor: bool, vs: Values, cs: seq<Change>)
    requires slots == map[7 := Slot(1, 4), 8 := Slot(1, 1)]
    requires cs == [Change(7, 1, UNDEF, []), Change(8, 1, 0, [5])]
    ensures var rs := Records(cs, None); StoreAll(slots, rotor, vs, rs[..Accepted(slots, rs)]) == vs
  {
    assert Judge(slots, Records(cs, None)[0]) == Refused;
  }

  /** A change that gets through is then what is shown of its object. */
  lemma OneStoredShows(slots: Slots, rotor: bool, vs: Values, c: Change, stamp: Option<Long>, ooid: Long)
    requires Matches(slots, c) && !Blocks(slots, c) && ooid in slots && ooid in vs
    ensures var vs' := Store(slots, rotor, vs, c.AsRecord(stamp));
            ooid in vs' && Shown(vs'[ooid], rotor) == if c.ooid == ooid then c.AsPoll() else Shown(vs[ooid], rotor)
  {
    hide Matches, Blocks, Judge, FanOut.Rotate;
    JudgeMatching(slots, c, stamp);
    FanOut.RotateTwice(c.kind, c.value);
  }

  lemma {:induction false} StoredShows(slots: Slots, rotor: bool, vs: Values, cs: seq<Change>, stamp: Option<Long>, ooid: Long)
    requires forall i :: 0 <= i < |cs| ==> Matches(slots, cs[i]) && !Blocks(slots, cs[i])
    requires ooid in slots && ooid in vs
    ensures var vs' := StoreAll(slots, rotor, vs, Records(cs, stamp));
            && ooid in vs'
            && Shown(vs'[ooid], rotor) == if ooid in Replay(cs) then Replay(cs)[ooid] else Shown(vs[ooid], rotor)
    decreases |cs|
  {
    hide Matches, Blocks, Store, Shown;
    if cs != [] {
      var init, c := cs[..|cs| - 1], cs[|cs| - 1];
      assert Records(cs, stamp) == Records(init, stamp) + [c.AsRecord(stamp)];
      StoreOneMore(slots, rotor, vs, Records(init, stamp), c.AsRecord(stamp));
      StoredShows(slots, rotor, vs, init, stamp, ooid);
      OneStoredShows(slots, rotor, StoreAll(slots, rotor, vs, Records(init, stamp)), c, stamp, ooid);
    }
  }

  /** The hub's values after it has handled the packets taken, in order. */
  function After(slots: Slots, rotor: bool, vs: Values, sent: seq<Sent>): Values {
    if sent == [] then vs
    else
      var before, s := After(slots, rotor, vs, sent[..|sent| - 1]), sent[|sent| - 1];
      var rs := Readable(s.packet.bytes);
      if s.taken then StoreAll(slots, rotor, before, rs[..Accepted(slots, rs)]) else before
  }

  /** The history as the hub sees it: of a packet taken, the changes up to the first
      that blocks arrive, and the others do not. */
  function Split(slots: Slots, sent: seq<Sent>): seq<Sent> {
    if sent == [] then []
    else
      var before, s := Split(slots, sent[..|sent| - 1]), sent[|sent| - 1];
      var cs := s.packet.changes;
      var k := if s.taken then Passing(slots, cs) else 0;
      before + [Sent(Packet([], cs[..k], s.packet.stamp), true), Sent(Packet([], cs[k..], s.packet.stamp), false)]
  }

  function Delivered(slots: Slots, sent: seq<Sent>): seq<Change> { Flatten(TakenOf(Split(slots, sent))) }

  lemma SentInTwo(before: seq<Sent>, a: Sent, b: Sent)
    requires a.taken && !b.taken
    ensures Flatten(TakenOf(before + [a, b])) == Flatten(TakenOf(before)) + a.packet.changes
    ensures Reported(before + [a, b]) == Reported(before) + (a.packet.changes + b.packet.changes)
  {
    hide *;
    assert before + [a, b] == (before + [a]) + [b];
    SentOneMore(before, a);
    SentOneMore(before + [a], b);
    FlattenOne(TakenOf(before), a.packet);
    Regroup(Reported(before), a.packet.changes, b.packet.changes);
  }

  lemma SplitOneMore(slots: Slots, sent: seq<Sent>, s: Sent)
    ensures var cs := s.packet.changes;
            var k := if s.taken then Passing(slots, cs) else 0;
            && Delivered(slots, sent + [s]) == Delivered(slots, sent) + cs[..k]
            && Reported(Split(slots, sent + [s])) == Reported(Split(slots, sent)) + cs
  {
    hide Passing, Flatten, TakenOf, Reported;
    var cs := s.packet.changes;
    var k := if s.taken then Passing(slots, cs) else 0;
    assert (sent + [s])[..|sent + [s]| - 1] == sent;
    assert cs == cs[..k] + cs[k..];
    SentInTwo(Split(slots, sent), Sent(Packet([], cs[..k], s.packet.stamp), true), Sent(Packet([], cs[k..], s.packet.stamp), false));
  }

  lemma {:induction false} SplitReportsTheSame(slots: Slots, sent: seq<Sent>)
    ensures Reported(Split(slots, sent)) == Reported(sent)
    decreases |sent|
  {
    if sent != [] {
      hide Split;
      var init, s := sent[..|sent| - 1], sent[|sent| - 1];
      assert sent == init + [s];
      SplitOneMore(slots, init, s);
      SplitReportsTheSame(slots, init);
    }
  }

  ghost predicate AllMatch(slots: Slots, sent: seq<Sent>) {
    forall i :: 0 <= i < |sent| ==> MatchesAll(slots, sent[i].packet.changes)
  }

  ghost predicate MatchesAll(slots: Slots, cs: seq<Change>) {
    forall i :: 0 <= i < |cs| ==> Matches(slots, cs[i])
  }

  /** What one packet does. */
  lemma PacketShows(slots: Slots, rotor: bool, vs: Values, p: Packet, ooid: Long)
    requires p.Sound() && Formatted(p.changes) && MatchesAll(slots, p.changes)
    requires ooid in slots && ooid in vs
    ensures var rs, k := Readable(p.bytes), Passing(slots, p.changes);
            var vs' := StoreAll(slots, rotor, vs, rs[..Accepted(slots, rs)]);
            var now := Replay(p.changes[..k]);
            ooid in vs' && Shown(vs'[ooid], rotor) == if ooid in now then now[ooid] else Shown(vs[ooid], rotor)
  {
    hide Matches, Blocks, Judge, Shown, Replay, StoreAll, Decode, DecodeFrom, ReadableFrom;
    var k := Passing(slots, p.changes);
    PacketDecodes(p);
    ReadableWhole(p.bytes);
    AcceptedIsPassing(slots, p.changes, p.stamp);
    assert Records(p.changes, p.stamp)[..k] == Records(p.changes[..k], p.stamp);
    StoredShows(slots, rotor, vs, p.changes[..k], p.stamp, ooid);
  }

  lemma ReadableWhole(buf: seq<byte>)
    requires Decode(buf).Some?
    ensures Some(Readable(buf)) == Decode(buf)
  {
    ReadableDecoded(buf, 1, At(buf, 0) as nat);
  }

  /** The hub shows the last change that was delivered, or what it held to begin with. */
  lemma {:induction false} ShowsDelivered(slots: Slots, rotor: bool, vs: Values, sent: seq<Sent>, ooid: Long)
    requires AllSentGood(sent) && AllMatch(slots, sent) && ooid in slots && ooid in vs
    ensures var vs', d := After(slots, rotor, vs, sent), Replay(Delivered(slots, sent));
            ooid in vs' && Shown(vs'[ooid], rotor) == if ooid in d then d[ooid] else Shown(vs[ooid], rotor)
    decreases |sent|
  {
    if sent != [] {
      hide Packet.Sound, Formatted, MatchesAll, Shown, Split, Passing, Accepted, Readable, StoreAll;
      var init, s := sent[..|sent| - 1], sent[|sent| - 1];
      assert sent == init + [s];
      ShowsDelivered(slots, rotor, vs, init, ooid);
      SplitOneMore(slots, init, s);
      var k := if s.taken then Passing(slots, s.packet.changes) else 0;
      var cs := s.packet.changes[..k];
      ReplayAfter(Delivered(slots, init), cs, ooid);
      InReplay(cs, ooid);
      if s.taken { PacketShows(slots, rotor, After(slots, rotor, vs, init), s.packet, ooid); }
    }
  }

  lemma {:induction false} InReplay(cs: seq<Change>, ooid: Long)
    ensures ooid in Ooids(cs) <==> ooid in Replay(cs)
    decreases |cs|
  {
    if cs != [] {
      var init, c := cs[..|cs| - 1], cs[|cs| - 1];
      assert cs == init + [c];
      OoidsOneMore(init, c);
      InReplay(init, ooid);
    }
  }

  /** No undefined mark of a numeric monitor is ever delivered. */
  lemma {:induction false} DeliveredNumbers(slots: Slots, sent: seq<Sent>, ooid: Long)
    requires Number(slots, ooid) && AllMatch(slots, sent) && ooid in Replay(Delivered(slots, sent))
    ensures Replay(Delivered(slots, sent))[ooid].Defined?
    decreases |sent|
  {
    if sent != [] {
      hide Split;
      var init, s := sent[..|sent| - 1], sent[|sent| - 1];
      assert sent == init + [s];
      SplitOneMore(slots, init, s);
      var k := if s.taken then Passing(slots, s.packet.changes) else 0;
      var cs := s.packet.changes[..k];
      ReplayAfter(Delivered(slots, init), cs, ooid);
      InReplay(cs, ooid);
      if ooid in Replay(cs) {
        NumbersReplayed(slots, cs, ooid);
      } else {
        DeliveredNumbers(slots, init, ooid);
      }
    }
  }

  lemma {:induction false} NumbersReplayed(slots: Slots, cs: seq<Change>, ooid: Long)
    requires Number(slots, ooid) && ooid in Replay(cs)
    requires forall i :: 0 <= i < |cs| ==> Matches(slots, cs[i]) && !Blocks(slots, cs[i])
    ensures Replay(cs)[ooid].Defined?
    decreases |cs|
  {
    var init, c := cs[..|cs| - 1], cs[|cs| - 1];
    assert cs == init + [c];
    if c.ooid != ooid { NumbersReplayed(slots, init, ooid); }
  }

  /** So a numeric monitor reported as undefined stays what the hub took it for: its
      last report is among those that did not arrive. */
  lemma UndefinedNumberIsStale(slots: Slots, sent: seq<Sent>, ooid: Long)
    requires Number(slots, ooid) && AllMatch(slots, sent)
    requires ooid in Replay(Reported(sent)) && Replay(Reported(sent))[ooid].Undefined?
    ensures ooid in Stale(Split(slots, sent))
  {
    hide Split, Stale, Replay, Reported, Flatten, TakenOf;
    SplitReportsTheSame(slots, sent);
    if ooid !in Stale(Split(slots, sent)) {
      FreshIsReported(Split(slots, sent), ooid);
      DeliveredNumbers(slots, sent, ooid);
    }
  }

  /** What the hub held of an object before packet k: the last report before it, or
      what it held to begin with. */
  function Before(sent: seq<Sent>, k: nat, ooid: Long, held: Poll): Poll
    requires k <= |sent|
  {
    var p := Look(Replay(Reported(sent[..k])), ooid);
    if p.Some? then p.value else held
  }

  /** Did the last report of the object get through, in a history split into what
      arrived and what did not? If not, and nothing about it since piece k, did what
      the hub held before it agree with q? */
  ghost predicate Arrived(pieces: seq<Sent>, kind: byte, ooid: Long, held: Poll, q: Poll) {
    || ooid !in Stale(pieces)
    || exists k: nat :: LostSince(pieces, ooid, k) && Agrees(kind, Before(pieces, k, ooid, held), q)
  }

  lemma DeliveredLook(slots: Slots, rotor: bool, vs: Values, sent: seq<Sent>, ooid: Long)
    requires AllSentGood(sent) && AllMatch(slots, sent) && ooid in slots && ooid in vs
    ensures var vs', p := After(slots, rotor, vs, sent), Look(Replay(Delivered(slots, sent)), ooid);
            ooid in vs' && Shown(vs'[ooid], rotor) == if p.Some? then p.value else Shown(vs[ooid], rotor)
  {
    hide Delivered, After, Shown, Replay, AllSentGood, AllMatch;
    ShowsDelivered(slots, rotor, vs, sent, ooid);
  }

  /** What the hub holds of an agent's monitor agrees with its last poll if and only
      if its last report arrived, or what the hub held before the report that was
      lost agrees with that poll. */
  lemma HubShowsExactly(agent: ChangeDetector.Agent, i: nat, slots: Slots, rotor: bool, vs: Values)
    requires agent.Valid() && !agent.oddBits && i < |agent.mons| && agent.mons[i].ooid in agent.last
    requires AllMatch(slots, agent.sent) && agent.mons[i].ooid in slots && agent.mons[i].ooid in vs
    ensures var o, kind := agent.mons[i].ooid, agent.mons[i].kind;
            var vs' := After(slots, rotor, vs, agent.sent);
            && o in vs'
            && (Agrees(kind, Shown(vs'[o], rotor), agent.last[o])
                <==> Arrived(Split(slots, agent.sent), kind, o, Shown(vs[o], rotor), agent.last[o]))
  {
    var o, sent := agent.mons[i].ooid, agent.sent;
    assert Reported(sent) + [] == Reported(sent);
    assert o in Replay(Reported(sent)) && Agrees(agent.mons[i].kind, Replay(Reported(sent))[o], agent.last[o]);
    hide Stale, Split, Reported, Replay, Agrees, Shown, After, Flatten, TakenOf, LostSince;
    DeliveredLook(slots, rotor, vs, sent, o);
    SplitReportsTheSame(slots, sent);
    StaleExactly(Split(slots, sent), o);
    if o !in Stale(Split(slots, sent)) { FreshIsReported(Split(slots, sent), o); }
  }
}
