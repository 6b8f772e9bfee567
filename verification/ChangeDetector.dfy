/** The agent's change detector: a rate-limited scan over the monitor list that
    resumes where it was stopped, remembers the value each monitor had at its
    last poll, and packs what changed into bounded packets. */
module ChangeDetector {
  import opened AgentReports
  import opened Bytes
  import opened MonitorCodec
  import PM = PolledMemory

  /** A monitor record. `undef` is the flag last reported; `buf` holds the value
      at the last poll that found one and `prev` the one before. */
  datatype Monitor = Monitor(ooid: Long, place: PM.Place, len: nat, kind: byte,
                             undef: byte, force: nat, buf: seq<byte>, prev: seq<byte>)
  {
    predicate Sound() {
      && ooid != 0
      && 0 < len < MAX_DATA_LEN
      && |buf| == |prev| == len
    }

    /** Bit fields are extracted for these lengths only. */
    predicate BitsSupported() { place.blen == 0 || len in {1, 2, 4} }
  }

  /** The world during one scan: the agent's memory, whether the clock is past the
      time limit when so many monitors have been polled, and for the k-th packet
      whether the link is up and the sender takes it. */
  datatype World = World(mem: PM.Memory, late: nat -> bool, linked: nat -> bool, takes: nat -> bool, room: bool, now: Long)
  {
    predicate Gets(k: nat) { linked(k) && takes(k) }

    ghost predicate Reliable() { forall k: nat :: Gets(k) }
  }

  /** What a poll finds and would report: the mark is 0x80 for an address that does
      not resolve and 1 for a bit field of an unsupported length. */
  function ChangeOf(m: Monitor, w: World): Change {
    var a := PM.Target(w.mem, m.place);
    if a.None? then Change(m.ooid, m.kind, UNDEF, [])
    else
      var v := PM.Value(w.mem, m.place, m.len, a.value);
      if v.None? then Change(m.ooid, m.kind, 1, []) else Change(m.ooid, m.kind, 0, v.value)
  }

  /** What is reported of a monitor: object and type always; no value and the mark
      0x80 when its address leads nowhere; else its bytes in memory, or those of its
      bit field, or no value and the mark 1 if that has an unsupported length. */
  lemma ChangeMeans(m: Monitor, w: World)
    ensures var c, a := ChangeOf(m, w), PM.Target(w.mem, m.place);
            && c.ooid == m.ooid && c.kind == m.kind
            && (a.None? ==> c.undef == 0x80 && c.value == [])
            && (a.Some? && m.place.blen == 0 ==>
                  && c.undef == 0 && |c.value| == m.len
                  && forall k :: 0 <= k < m.len ==> c.value[k] == w.mem.at((a.value + k) % 0x1_0000_0000))
            && (a.Some? && m.place.blen != 0 && m.len !in {1, 2, 4} ==> c.undef == 1 && c.value == [])
            && (a.Some? && m.place.blen != 0 && m.len in {1, 2, 4} ==>
                  c.undef == 0 && PM.Value(w.mem, m.place, m.len, a.value) == Some(c.value))
  {
    hide PM.Target;
    var a := PM.Target(w.mem, m.place);
    if a.Some? && m.place.blen == 0 { PM.PlainValue(w.mem, m.place, m.len, a.value); }
  }

  function PollOf(m: Monitor, w: World): Poll { ChangeOf(m, w).AsPoll() }

  // ------------------------------------------------------------------ the agent

  /** The poll a monitor remembers agrees with what was found. */
  predicate Remembers(m: Monitor, p: Poll) {
    && (p.Undefined? <==> m.undef != 0)
    && (p.Defined? ==> p.value == m.buf)
  }

  /** Two scans of one monitor apart, what may have changed. */
  predicate SameMonitor(m: Monitor, m': Monitor) {
    m'.ooid == m.ooid && m'.len == m.len && m'.kind == m.kind && m'.place == m.place
  }

  lemma SamePoll(m: Monitor, m': Monitor, w: World)
    requires SameMonitor(m, m')
    ensures ChangeOf(m, w) == ChangeOf(m', w) && PollOf(m, w) == PollOf(m', w)
  {
  }

  /** A view is up to date with every poll. */
  ghost predicate UpToDate(mons: seq<Monitor>, last: View, view: View) {
    forall i :: 0 <= i < |mons| && mons[i].ooid in last
            ==> mons[i].ooid in view && Agrees(mons[i].kind, view[mons[i].ooid], last[mons[i].ooid])
  }

  ghost predicate MonitorsSound(mons: seq<Monitor>, last: View) {
    && (forall i :: 0 <= i < |mons| ==> mons[i].Sound())
    && (forall i, j :: 0 <= i < j < |mons| ==> mons[i].ooid != mons[j].ooid)
    && (forall i :: 0 <= i < |mons| ==> if mons[i].ooid in last then Remembers(mons[i], last[mons[i].ooid]) else mons[i].force > 0)
  }

  function RemoveAt(mons: seq<Monitor>, i: nat): (r: seq<Monitor>)
    requires i < |mons|
    ensures |r| == |mons| - 1
    ensures forall j :: 0 <= j < |r| ==> r[j] == if j < i then mons[j] else mons[j + 1]
  {
    mons[..i] + mons[i + 1..]
  }

  lemma RemovalKeepsSound(mons: seq<Monitor>, last: View, i: nat)
    requires MonitorsSound(mons, last) && i < |mons|
    ensures MonitorsSound(RemoveAt(mons, i), last - {mons[i].ooid})
  {
  }

  lemma RemovalKeepsUpToDate(mons: seq<Monitor>, last: View, view: View, i: nat)
    requires UpToDate(mons, last, view) && i < |mons|
    ensures UpToDate(RemoveAt(mons, i), last - {mons[i].ooid}, view)
  {
  }

  lemma KeptUpToDate(mons: seq<Monitor>, mons': seq<Monitor>, last: View, view: View, i: nat, q: Poll)
    requires i < |mons| == |mons'| && mons' == mons[i := mons'[i]] && SameMonitor(mons[i], mons'[i])
    requires MonitorsSound(mons, last)
    requires UpToDate(mons, last, view)
    requires mons[i].ooid in last && Agrees(mons[i].kind, last[mons[i].ooid], q)
    ensures UpToDate(mons', last[mons[i].ooid := q], view)
  {
    AgreesTransitive(mons[i].kind, view[mons[i].ooid], last[mons[i].ooid], q);
    forall j | 0 <= j < |mons'| && mons'[j].ooid in last[mons[i].ooid := q]
      ensures mons'[j].ooid in view && Agrees(mons'[j].kind, view[mons'[j].ooid], last[mons[i].ooid := q][mons'[j].ooid])
    {
      assert j != i ==> mons'[j] == mons[j] && mons[j].ooid != mons[i].ooid;
    }
  }

  lemma ReportedUpToDate(mons: seq<Monitor>, mons': seq<Monitor>, last: View, view: View, i: nat, q: Poll)
    requires i < |mons| == |mons'| && mons' == mons[i := mons'[i]] && SameMonitor(mons[i], mons'[i])
    requires MonitorsSound(mons, last)
    requires UpToDate(mons, last, view)
    ensures UpToDate(mons', last[mons[i].ooid := q], view[mons[i].ooid := q])
  {
    AgreesReflexive(mons[i].kind, q);
    forall j | 0 <= j < |mons'| && mons'[j].ooid in last[mons[i].ooid := q]
      ensures var v := view[mons[i].ooid := q];
              mons'[j].ooid in v && Agrees(mons'[j].kind, v[mons'[j].ooid], last[mons[i].ooid := q][mons'[j].ooid])
    {
      assert j != i ==> mons'[j] == mons[j] && mons[j].ooid != mons[i].ooid;
    }
  }

  /** Does a monitor owe a report, given the poll before? */
  predicate Owes(m: Monitor, last: View, w: World) {
    m.force > 0 || m.ooid !in last || !Agrees(m.kind, last[m.ooid], PollOf(m, w))
  }

  /** Read one monitor and decide whether to report it. It stays silent exactly
      when no report is owed and the poll agrees with the one before. */
  method PollMonitor(m0: Monitor, w: World, ghost before: Poll) returns (m: Monitor, change: Option<Change>)
    requires m0.Sound()
    requires m0.force == 0 ==> Remembers(m0, before)
    ensures m.Sound() && SameMonitor(m0, m) && Remembers(m, PollOf(m0, w))
    ensures m.force == if m0.force > 0 then m0.force - 1 else 0
    ensures change == if m0.force == 0 && Agrees(m0.kind, before, PollOf(m0, w)) then None else Some(ChangeOf(m0, w))
  {
    hide PM.Target, PM.Value, StringsEqual;
    m := m0;
    var undef, a := PM.Resolve(w.mem, m.place);
    if undef == 0 {
      var v := PM.Value(w.mem, m.place, m.len, a);
      if v.Some? {
        m := m.(prev := m.buf, buf := v.value);
      } else {
        undef := 1;
      }
    }
    if m.force > 0 {
      m := m.(force := m.force - 1);
    } else if undef != 0 && m.undef != 0 {
      return m, None;
    } else if undef == 0 && m.undef == 0 {
      var same := if m.kind == STRING_TYPE then StringsEqual(m.buf, m.prev) else m.buf == m.prev;
      StringsEqualSymmetric(m.buf, m.prev);
      if same { return m, None; }
    }
    m := m.(undef := undef);
    change := Some(Change(m.ooid, m.kind, undef, if undef != 0 then [] else m.buf));
  }

  lemma ChangeIsSound(m: Monitor, w: World)
    requires m.Sound()
    ensures var c := ChangeOf(m, w);
            c.Sound() && c.ooid == m.ooid && |c.value| <= m.len && (m.BitsSupported() ==> c.undef != 1)
  {
    hide PM.Target, PM.Value;
  }

  lemma PollKeepsSound(mons: seq<Monitor>, last: View, i: nat, m: Monitor, q: Poll)
    requires MonitorsSound(mons, last) && i < |mons|
    requires m.Sound() && SameMonitor(mons[i], m) && Remembers(m, q)
    ensures MonitorsSound(mons[i := m], last[m.ooid := q])
  {
  }

  lemma Associate(a: seq<byte>, b: seq<byte>, c: seq<byte>, d: seq<byte>, e: seq<byte>)
    ensures a + b + c + d + e == a + (b + c + d + e)
  {
  }

  /** The bounded buffer a packet is built in; its first byte is the count. */
  class PacketBuffer {
    const data: array<byte>
    var used: nat
    ghost var content: seq<byte>

    ghost predicate Valid()
      reads this, data
    {
      1 <= used <= data.Length && content == data[..used]
    }

    constructor (size: nat)
      requires size >= 1
      ensures Valid() && fresh(data) && data.Length == size
      ensures content == [0] && used == 1
    {
      data := new byte[size](_ => 0);
      used := 1;
      content := [0];
      new;
      assert data[..1] == [0];
    }

    /** memcpy to the end of the part in use. */
    method Put(s: seq<byte>)
      requires Valid() && used + |s| <= data.Length
      modifies this, data
      ensures Valid()
      ensures content == old(content) + s && used == old(used) + |s|
    {
      forall i | 0 <= i < |s| { data[used + i] := s[i]; }
      used := used + |s|;
      content := content + s;
    }

    method SetCount(n: nat)
      requires Valid() && n <= 255
      modifies this, data
      ensures Valid()
      ensures content == [n as byte] + old(content)[1..] && used == old(used)
    {
      data[0] := n as byte;
      content := [n as byte] + content[1..];
    }

    method Restart()
      requires Valid()
      modifies this, data
      ensures Valid()
      ensures content == [0] && used == 1
    {
      used := 1;
      data[0] := 0;
      content := [0];
      assert data[..1] == [0];
    }

    /** The scan's write of one record. */
    method PutChange(c: Change, stamp: Option<Long>)
      requires Valid() && c.Sound() && used + |c.value| + 11 <= data.Length
      modifies this, data
      ensures Valid()
      ensures content == old(content) + c.Bytes(stamp) && used == old(used) + |c.Bytes(stamp)|
    {
      hide Be32, Change.Bytes, Valid;
      var n := |c.value|;
      var timed := if stamp.Some? then 0x40 else 0;
      var flags := if n < 0x20 then n + c.undef as int + timed else 0x20 + n / 0x100 % 0x20 + c.undef as int + timed;
      ghost var parts := BytesInParts(c, stamp);
      ghost var before := content;
      Put(Be32(c.ooid) + [c.kind, flags as byte]);
      assert content == before + parts.0;
      if stamp.Some? { Put(Be32(stamp.value)); }
      assert content == before + parts.0 + parts.1;
      if n >= 0x20 { Put([(n % 0x100) as byte]); }
      assert content == before + parts.0 + parts.1 + parts.2;
      Put(c.value);
      Associate(before, parts.0, parts.1, parts.2, c.value);
    }
  }

  /** The pieces a record is written in: head, time stamp, low length byte. */
  ghost function BytesInParts(c: Change, stamp: Option<Long>): (parts: (seq<byte>, seq<byte>, seq<byte>))
    requires c.Sound()
    ensures c.Bytes(stamp) == parts.0 + parts.1 + parts.2 + c.value
    ensures |parts.0| == 6 && parts.0[..4] == Be32(c.ooid) && parts.0[4] == c.kind && parts.0[5] == c.Bytes(stamp)[5]
    ensures var n, timed := |c.value|, if stamp.Some? then 0x40 else 0;
            parts.0[5] as int == if n < 0x20 then n + c.undef as int + timed else 0x20 + n / 0x100 % 0x20 + c.undef as int + timed
    ensures parts.1 == if stamp.Some? then Be32(stamp.value) else []
    ensures parts.2 == if |c.value| < 0x20 then [] else [(|c.value| % 0x100) as byte]
  {
    (c.Bytes(stamp)[..6],
     if stamp.Some? then Be32(stamp.value) else [],
     if |c.value| < 0x20 then [] else [(|c.value| % 0x100) as byte])
  }

  /** A monitor whose data cannot fit a packet is never polled. */
  predicate Fits(bufLen: nat, m: Monitor) { m.len + 16 <= bufLen }

  /** Exactly the monitors of [start, stop) that fit were polled, once. */
  ghost predicate Scanned(bufLen: nat, before: seq<Monitor>, mons: seq<Monitor>, last0: View, last: View,
                          start: nat, stop: nat, w: World) {
    && |mons| == |before|
    && (forall j :: 0 <= j < |mons| ==> SameMonitor(before[j], mons[j]))
    && (forall j :: 0 <= j < |mons| ==>
          if start <= j < stop && Fits(bufLen, before[j]) then
            && mons[j].ooid in last && last[mons[j].ooid] == PollOf(mons[j], w)
            && mons[j].force == (if before[j].force > 0 then before[j].force - 1 else 0)
          else mons[j] == before[j] && Look(last0, mons[j].ooid) == Look(last, mons[j].ooid))
  }

  /** The changes a scan finds: those of the monitors from start to stop that fit
      and owe a report, in the order of the list. */
  ghost function Found(bufLen: nat, before: seq<Monitor>, last0: View, start: nat, stop: nat, w: World): seq<Change>
    requires start <= stop <= |before|
    decreases stop
  {
    if start == stop then []
    else
      var m := before[stop - 1];
      Found(bufLen, before, last0, start, stop - 1, w) + if Fits(bufLen, m) && Owes(m, last0, w) then [ChangeOf(m, w)] else []
  }

  /** How many monitors from start to stop fit a packet, and so are polled. */
  ghost function PolledIn(bufLen: nat, before: seq<Monitor>, start: nat, stop: nat): nat
    requires start <= stop <= |before|
    decreases stop
  {
    if start == stop then 0 else PolledIn(bufLen, before, start, stop - 1) + if Fits(bufLen, before[stop - 1]) then 1 else 0
  }

  lemma {:induction false} FoundNothing(bufLen: nat, before: seq<Monitor>, last0: View, start: nat, stop: nat, w: World)
    requires start <= stop <= |before|
    ensures Found(bufLen, before, last0, start, stop, w) == []
            <==> forall j :: start <= j < stop && Fits(bufLen, before[j]) ==> !Owes(before[j], last0, w)
    decreases stop
  {
    hide Owes, Fits, ChangeOf;
    if start < stop { FoundNothing(bufLen, before, last0, start, stop - 1, w); }
  }

  lemma StillOwes(bufLen: nat, before: seq<Monitor>, mons: seq<Monitor>, last0: View, last: View,
                  start: nat, i: nat, w: World)
    requires Scanned(bufLen, before, mons, last0, last, start, i, w) && i < |mons|
    ensures Fits(bufLen, mons[i]) == Fits(bufLen, before[i])
    ensures Owes(mons[i], last, w) == Owes(before[i], last0, w) && ChangeOf(mons[i], w) == ChangeOf(before[i], w)
  {
    hide ChangeOf, PollOf, Agrees;
    assert mons[i] == before[i];
  }

  lemma ScannedStep(bufLen: nat, before: seq<Monitor>, mons: seq<Monitor>, mons': seq<Monitor>,
                    last0: View, last: View, last': View, start: nat, i: nat, w: World)
    requires MonitorsSound(mons, last)
    requires Scanned(bufLen, before, mons, last0, last, start, i, w)
    requires start <= i < |mons| && Fits(bufLen, mons[i])
    requires |mons'| == |mons| && mons' == mons[i := mons'[i]] && SameMonitor(mons[i], mons'[i])
    requires mons'[i].force == if mons[i].force > 0 then mons[i].force - 1 else 0
    requires last' == last[mons'[i].ooid := PollOf(mons'[i], w)]
    ensures Scanned(bufLen, before, mons', last0, last', start, i + 1, w)
  {
    hide PollOf;
    forall j | 0 <= j < |mons'| && j != i
      ensures mons'[j] == mons[j] && Look(last', mons[j].ooid) == Look(last, mons[j].ooid)
    {
      assert mons[j].ooid != mons[i].ooid;
    }
  }

  lemma ScannedNothing(bufLen: nat, mons: seq<Monitor>, last: View, start: nat, w: World)
    ensures Scanned(bufLen, mons, mons, last, last, start, start, w)
  {
  }

  lemma ScannedSkip(bufLen: nat, before: seq<Monitor>, mons: seq<Monitor>, last0: View, last: View,
                    start: nat, i: nat, w: World)
    requires Scanned(bufLen, before, mons, last0, last, start, i, w)
    requires i < |mons| && !Fits(bufLen, mons[i])
    ensures Scanned(bufLen, before, mons, last0, last, start, i + 1, w)
  {
    hide PollOf;
  }

  /** The packets added to the history are taken just as the world says. */
  ghost predicate Handed(sent0: seq<Sent>, sent: seq<Sent>, w: World) {
    sent0 <= sent && forall j :: |sent0| <= j < |sent| ==> sent[j].taken == w.Gets(j - |sent0|)
  }

  /** The bytes of the packets added to the history over an open connection. */
  ghost function BytesSent(from: nat, sent: seq<Sent>, w: World): nat
    requires from <= |sent|
    decreases |sent|
  {
    if |sent| == from then 0
    else
      var n := |sent| - 1;
      BytesSent(from, sent[..n], w) + if w.linked(n - from) then |sent[n].packet.bytes| else 0
  }

  lemma {:induction false} BytesOneMore(from: nat, sent: seq<Sent>, s: Sent, w: World)
    requires from <= |sent|
    ensures BytesSent(from, sent + [s], w) == BytesSent(from, sent, w) + if w.linked(|sent| - from) then |s.packet.bytes| else 0
  {
    assert (sent + [s])[..|sent + [s]| - 1] == sent;
  }

  lemma {:induction false} ReliableKeepsFresh(sent0: seq<Sent>, sent: seq<Sent>, w: World)
    requires Handed(sent0, sent, w) && w.Reliable()
    ensures Stale(sent) <= Stale(sent0)
    decreases |sent|
  {
    if sent != sent0 {
      var init, s := sent[..|sent| - 1], sent[|sent| - 1];
      assert sent == init + [s];
      SentOneMore(init, s);
      assert forall j :: 0 <= j < |init| ==> init[j] == sent[j];
      ReliableKeepsFresh(sent0, init, w);
      assert s.taken == w.Gets(|init| - |sent0|);
    }
  }

  predicate AllBitsSupported(mons: seq<Monitor>) {
    forall i :: 0 <= i < |mons| ==> mons[i].BitsSupported()
  }

  lemma SupportedStay(before: seq<Monitor>, mons: seq<Monitor>, i: nat)
    requires i < |mons| == |before| && mons == before[i := mons[i]] && SameMonitor(before[i], mons[i])
    ensures AllBitsSupported(before) ==> AllBitsSupported(mons)
  {
  }

  /** The packet buffer holds the changes reported so far. */
  ghost predicate Holds(content: seq<byte>, pend: seq<Change>, stamp: Option<Long>) {
    && 1 <= |content|
    && AllChangesSound(pend)
    && content[1..] == ChangeBytes(pend, stamp)
  }

  lemma HoldsNothing(content: seq<byte>, stamp: Option<Long>)
    requires |content| == 1
    ensures Holds(content, [], stamp)
  {
  }

  lemma HoldsOneMore(content: seq<byte>, pend: seq<Change>, c: Change, stamp: Option<Long>)
    requires Holds(content, pend, stamp) && c.Sound()
    ensures Holds(content + c.Bytes(stamp), pend + [c], stamp)
  {
    hide Change.Bytes;
    assert (pend + [c])[..|pend + [c]| - 1] == pend;
    assert (content + c.Bytes(stamp))[1..] == content[1..] + c.Bytes(stamp);
  }

  lemma NothingFormatted()
    ensures Formatted([])
  {
  }

  /** The place as it is kept: signed types have a high bit, and the offset of a
      plain address is added at once. */
  function AsRegistered(place: PM.Place, kind: byte): PM.Place {
    var p := place.(hibit := kind as char in "bhilq");
    if p.ptr == 'D' then p.(adr := PM.Plus(p.adr, p.off), off := 0) else p
  }

  /** What a scan started from. */
  datatype ScanStart = ScanStart(mons: seq<Monitor>, last: View, sent: seq<Sent>, start: nat)

  class Agent {
    const bufLen: nat               // size of the packet buffer
    const maxSentBytes: int         // rate limits, off when not positive
    const maxPolled: int
    const maxChanged: int
    const maxTimeMs: int
    const useTime: bool

    var mons: seq<Monitor>          // the list, first to last
    var cursor: Option<nat>         // where the next scan starts, None for the beginning

    ghost var last: View            // the last poll of every live monitor polled so far
    ghost var sent: seq<Sent>       // every packet handed over, taken or not
    ghost var oddBits: bool         // was a bit field of an unsupported length registered?

    ghost predicate Valid()
      reads this
    {
      && bufLen > 0
      && (cursor.Some? ==> cursor.value < |mons|)
      && InStep([])
    }

    /** The invariant during a scan, with `pend` found but still in the buffer: what
        was reported is up to date with every poll, whoever has taken it. */
    ghost predicate InStep(pend: seq<Change>)
      reads this`mons, this`last, this`sent, this`oddBits
    {
      && MonitorsSound(mons, last)
      && (forall i :: 0 <= i < |sent| ==> sent[i].packet.Sound())
      && AllChangesSound(pend)
      && UpToDate(mons, last, Replay(Reported(sent) + pend))
      && (!oddBits ==> AllSentGood(sent) && Formatted(pend) && AllBitsSupported(mons))
    }

    constructor (bufLen: nat, maxSentBytes: int, maxPolled: int, maxChanged: int, maxTimeMs: int, useTime: bool)
      requires bufLen > 0
      ensures Valid() && mons == [] && last == map[] && sent == [] && cursor == None && !oddBits
      ensures this.bufLen == bufLen && this.useTime == useTime && this.maxSentBytes == maxSentBytes
      ensures this.maxPolled == maxPolled && this.maxChanged == maxChanged && this.maxTimeMs == maxTimeMs
    {
      this.bufLen, this.useTime := bufLen, useTime;
      this.maxSentBytes, this.maxPolled, this.maxChanged, this.maxTimeMs := maxSentBytes, maxPolled, maxChanged, maxTimeMs;
      mons, cursor := [], None;
      last, sent, oddBits := map[], [], false;
    }

    // ------------------------------------------------------------- the list

    /** Register a monitor at the end of the list; it owes one forced report. `D`
        places have their offset added at once. */
    method Register(ooid: Long, place: PM.Place, len: int, kind: byte, room: bool) returns (ok: bool)
      requires Valid()
      modifies this
      ensures Valid()
      ensures ok <==> && ooid != 0 && (forall i :: 0 <= i < |old(mons)| ==> old(mons)[i].ooid != ooid)
                      && place.ptr in "DIRP" && 0 < len < MAX_DATA_LEN && room
      ensures if ok then && |mons| == |old(mons)| + 1 && mons[..|old(mons)|] == old(mons)
                         && var m := mons[|old(mons)|];
                            m.ooid == ooid && m.len == len && m.kind == kind && m.force == 1
                            && m.place == AsRegistered(place, kind)
                            && m.place.ptr == place.ptr && m.place.boff == place.boff && m.place.blen == place.blen
                            && (m.place.hibit <==> kind in {98, 104, 105, 108, 113})        // b h i l q
                            && (if place.ptr == 'D' then m.place.adr == (place.adr + place.off) % 0x1_0000_0000 && m.place.off == 0
                                else m.place.adr == place.adr && m.place.off == place.off)
              else mons == old(mons)
      ensures last == if ok then old(last) - {ooid} else old(last)
      ensures cursor == old(cursor) && sent == old(sent)
      ensures oddBits == (old(oddBits) || (ok && place.blen != 0 && len !in {1, 2, 4}))
    {
      hide Replay, Reported, AllSentGood, Formatted, AllChangesSound, Agrees;
      if ooid == 0 { return false; }
      var i := 0;
      while i < |mons|
        invariant 0 <= i <= |mons|
        invariant forall j :: 0 <= j < i ==> mons[j].ooid != ooid
      {
        if mons[i].ooid == ooid { return false; }
        i := i + 1;
      }
      if place.ptr != 'D' && place.ptr != 'I' && place.ptr != 'R' && place.ptr != 'P' { return false; }
      if len <= 0 || len >= MAX_DATA_LEN { return false; }
      if !room { return false; }
      var zero := seq(len, _ => 0 as byte);
      var m := Monitor(ooid, AsRegistered(place, kind), len, kind, 0, 1, zero, zero);
      mons := mons + [m];
      last := last - {ooid};
      oddBits := oddBits || !m.BitsSupported();
      ok := true;
    }

    /** Unregister: unlink the record, and move the cursor on if it stood there. */
    method Unregister(ooid: Long) returns (ok: bool)
      requires Valid()
      modifies this
      ensures Valid()
      ensures ok <==> exists i :: 0 <= i < |old(mons)| && old(mons)[i].ooid == ooid
      ensures ok ==> exists i ::
                && 0 <= i < |old(mons)| && old(mons)[i].ooid == ooid
                && mons == old(mons)[..i] + old(mons)[i + 1..]
      // the cursor stays on its monitor, or moves on to the next when that is removed
      ensures ok && old(cursor).None? ==> cursor.None?
      ensures ok && old(cursor).Some? && old(mons)[old(cursor).value].ooid != ooid ==>
                cursor.Some? && mons[cursor.value] == old(mons)[old(cursor).value]
      ensures ok && old(cursor).Some? && old(mons)[old(cursor).value].ooid == ooid ==>
                var next := old(cursor).value + 1;
                if next < |old(mons)| then cursor.Some? && mons[cursor.value] == old(mons)[next] else cursor.None?
      ensures !ok ==> mons == old(mons) && cursor == old(cursor)
      ensures last == if ok then old(last) - {ooid} else old(last)
      ensures sent == old(sent) && oddBits == old(oddBits)
    {
      hide Replay, Reported, MonitorsSound, UpToDate, AllSentGood, RemoveAt, Formatted, AllChangesSound;
      var i := |mons|;
      while i > 0 && mons[i - 1].ooid != ooid
        invariant 0 <= i <= |mons|
        invariant forall j :: i <= j < |mons| ==> mons[j].ooid != ooid
      {
        i := i - 1;
      }
      if i == 0 { return false; }
      i := i - 1;
      OnlyOne(ooid, i);
      Unlink(i);
      RemovalKeepsSound(mons, last, i);
      RemovalKeepsUpToDate(mons, last, Replay(Reported(sent) + []), i);
      mons := RemoveAt(mons, i);
      last := last - {ooid};
      ok := true;
    }

    // -------------------------------------------------------------- the scan

    /** Poll the i-th monitor in place. */
    method PollAt(i: nat, w: World) returns (change: Option<Change>)
      requires MonitorsSound(mons, last) && i < |mons|
      modifies this`mons, this`last
      ensures MonitorsSound(mons, last)
      ensures |mons| == |old(mons)| && mons == old(mons)[i := mons[i]] && SameMonitor(old(mons)[i], mons[i])
      ensures mons[i].force == if old(mons)[i].force > 0 then old(mons)[i].force - 1 else 0
      ensures last == old(last)[mons[i].ooid := PollOf(mons[i], w)]
      ensures change == if Owes(old(mons)[i], old(last), w) then Some(ChangeOf(old(mons)[i], w)) else None
    {
      hide PollOf, Agrees, ChangeOf;
      var m;
      m, change := PollMonitor(mons[i], w, if mons[i].ooid in last then last[mons[i].ooid] else Undefined);
      SamePoll(mons[i], m, w);
      PollKeepsSound(mons, last, i, m, PollOf(m, w));
      mons := mons[i := m];
      last := last[m.ooid := PollOf(m, w)];
    }

    lemma ChangeFormatted(i: nat, w: World, pend: seq<Change>)
      requires InStep(pend) && i < |mons|
      ensures var c := ChangeOf(mons[i], w);
              c.Sound() && c.ooid == mons[i].ooid && |c.value| <= mons[i].len && c.AsPoll() == PollOf(mons[i], w)
              && AllChangesSound(pend + [c]) && (!oddBits ==> Formatted(pend + [c]))
    {
      hide Replay, Reported, UpToDate, ChangeOf;
      ChangeIsSound(mons[i], w);
    }

    /** Visit the i-th monitor: poll it and put what is to be reported in the buffer. */
    method Visit(i: nat, w: World, buf: PacketBuffer, stamp: Option<Long>, ghost pend: seq<Change>)
      returns (reported: bool, ghost pend': seq<Change>)
      requires InStep(pend) && i < |mons|
      requires buf.Valid() && Holds(buf.content, pend, stamp)
      requires buf.used + mons[i].len + 11 <= buf.data.Length
      modifies this`mons, this`last, buf, buf.data
      ensures InStep(pend') && buf.Valid() && Holds(buf.content, pend', stamp)
      ensures |mons| == |old(mons)| && mons == old(mons)[i := mons[i]] && SameMonitor(old(mons)[i], mons[i])
      ensures mons[i].force == if old(mons)[i].force > 0 then old(mons)[i].force - 1 else 0
      ensures last == old(last)[mons[i].ooid := PollOf(mons[i], w)]
      ensures reported == Owes(old(mons)[i], old(last), w)
      ensures pend' == if reported then pend + [ChangeOf(old(mons)[i], w)] else pend
      ensures !reported ==> buf.content == old(buf.content)
    {
      hide Replay, Reported, MonitorsSound, UpToDate, Holds, PollOf, ChangeOf, Agrees, AllSentGood, Formatted,
           AllChangesSound, PacketBuffer.Valid, Change.Sound;
      ghost var view := Replay(Reported(sent) + pend);
      SoundParts(i, w, pend);
      ChangeFormatted(i, w, pend);
      var change := PollAt(i, w);
      ghost var q := PollOf(mons[i], w);
      SamePoll(old(mons)[i], mons[i], w);
      SupportedStay(old(mons), mons, i);
      if change.None? {
        KeptUpToDate(old(mons), mons, old(last), view, i, q);
        return false, pend;
      }
      var c := change.value;
      ReportedUpToDate(old(mons), mons, old(last), view, i, q);
      assert Reported(sent) + (pend + [c]) == (Reported(sent) + pend) + [c];
      ReplayOne(Reported(sent) + pend, c);
      HoldsOneMore(buf.content, pend, c, stamp);
      buf.PutChange(c, stamp);
      reported, pend' := true, pend + [c];
    }

    /** Close the buffer and hand it to the sender, if there is a link. Whatever
        comes of it, its changes count as reported. */
    method Flush(buf: PacketBuffer, qty: nat, w: World, k: nat, stamp: Option<Long>, ghost pend: seq<Change>)
      returns (linked: bool, took: bool)
      requires InStep(pend) && buf.Valid() && Holds(buf.content, pend, stamp)
      requires qty == |pend| && 1 <= qty <= 255
      modifies this`sent, buf, buf.data
      ensures InStep([]) && buf.Valid()
      ensures linked == w.linked(k) && took == w.Gets(k)
      ensures sent == old(sent) + [Sent(Packet(buf.content, pend, stamp), took)] && |buf.content| == buf.used
      ensures Reported(sent) == old(Reported(sent)) + pend
    {
      hide Replay, Reported, MonitorsSound, UpToDate, Formatted, PacketBuffer.Valid;
      buf.SetCount(qty);
      linked := w.linked(k);
      took := linked && w.takes(k);
      ghost var s := Sent(Packet(buf.content, pend, stamp), took);
      SentOneMore(sent, s);
      assert Reported(sent + [s]) + [] == Reported(sent) + pend;
      NothingFormatted();
      sent := sent + [s];
    }

    /** Send a full buffer, if anything is in it, and begin an empty one. */
    method StartNewBuffer(buf: PacketBuffer, qty: nat, w: World, k0: nat, stamp: Option<Long>, ghost pend: seq<Change>)
      returns (sentBytes: nat, k: nat)
      requires InStep(pend) && buf.Valid() && Holds(buf.content, pend, stamp) && qty == |pend| <= 255
      modifies this`sent, buf, buf.data
      ensures InStep([]) && buf.Valid() && Holds(buf.content, [], stamp) && buf.used == 1
      ensures Reported(sent) == old(Reported(sent)) + pend
      ensures qty == 0 ==> sentBytes == 0 && k == k0 && sent == old(sent)
      ensures qty > 0 ==> k == k0 + 1 && |sent| == |old(sent)| + 1 && old(sent) <= sent && sent[|old(sent)|].taken == w.Gets(k0)
      ensures qty > 0 ==> sentBytes == if w.linked(k0) then |sent[|old(sent)|].packet.bytes| else 0
    {
      hide PacketBuffer.Valid, InStep, Reported, World.Gets;
      sentBytes, k := 0, k0;
      assert pend == [] || qty > 0;
      if qty > 0 {
        var linked, took := Flush(buf, qty, w, k, stamp, pend);
        k := k + 1;
        if linked { sentBytes := buf.used; }
      }
      buf.Restart();
      HoldsNothing(buf.content, stamp);
    }

    lemma SoundParts(i: nat, w: World, pend: seq<Change>)
      requires InStep(pend) && i < |mons|
      ensures MonitorsSound(mons, last) && UpToDate(mons, last, Replay(Reported(sent) + pend)) && mons[i].Sound()
    {
    }

    function Start(): nat
      reads this`cursor
    {
      if cursor.Some? then cursor.value else 0
    }

    /** How far a scan has come: what was polled, what was handed over and what is
        still in the buffer. */
    ghost predicate Progress(from: ScanStart, stop: nat, w: World, pend: seq<Change>, k: nat)
      reads this`mons, this`last, this`sent
    {
      && from.start <= stop <= |mons| == |from.mons|
      && Scanned(bufLen, from.mons, mons, from.last, last, from.start, stop, w)
      && Handed(from.sent, sent, w) && k == |sent| - |from.sent|
      && Reported(sent) + pend == Reported(from.sent) + Found(bufLen, from.mons, from.last, from.start, stop, w)
    }

    lemma SkipOne(from: ScanStart, stop: nat, w: World, pend: seq<Change>, k: nat)
      requires Progress(from, stop, w, pend, k) && stop < |mons| && !Fits(bufLen, mons[stop])
      ensures Progress(from, stop + 1, w, pend, k) && !Fits(bufLen, from.mons[stop])
      ensures Found(bufLen, from.mons, from.last, from.start, stop + 1, w) == Found(bufLen, from.mons, from.last, from.start, stop, w)
    {
      hide Scanned, Handed, Reported, Owes, ChangeOf;
      ScannedSkip(bufLen, from.mons, mons, from.last, last, from.start, stop, w);
      StillOwes(bufLen, from.mons, mons, from.last, last, from.start, stop, w);
    }

    /** The buffer during a scan, with the changes found and not yet handed over. */
    ghost predicate Loaded(buf: PacketBuffer, pend: seq<Change>, stamp: Option<Long>)
      reads this, buf, buf.data
    {
      buf.Valid() && InStep(pend) && Holds(buf.content, pend, stamp) && |pend| <= 255 && buf.data.Length == bufLen
    }

    /** Begin a new buffer in the middle of a scan when the next n bytes may not fit. */
    method MakeRoom(buf: PacketBuffer, n: nat, qty0: nat, w: World, k0: nat, sentBytes0: nat, stamp: Option<Long>,
                    ghost pend0: seq<Change>, ghost from: ScanStart, ghost stop: nat)
      returns (qty: nat, sentBytes: nat, k: nat, ghost pend: seq<Change>)
      requires Loaded(buf, pend0, stamp) && qty0 == |pend0| && n + 16 <= bufLen
      requires Progress(from, stop, w, pend0, k0) && |from.sent| <= |sent| && sentBytes0 == BytesSent(|from.sent|, sent, w)
      modifies this`sent, buf, buf.data
      ensures Loaded(buf, pend, stamp) && qty == |pend| <= 254 && buf.used + n + 11 <= bufLen
      ensures Progress(from, stop, w, pend, k) && |from.sent| <= |sent| && sentBytes == BytesSent(|from.sent|, sent, w)
      ensures pend == [] || (pend == pend0 && sent == old(sent))
      // only when it must
      ensures qty0 <= 254 && old(buf.used) + n + 16 <= bufLen ==> pend == pend0 && sent == old(sent) && buf.content == old(buf.content)
      ensures !(qty0 <= 254 && old(buf.used) + n + 16 <= bufLen) ==> pend == []
      ensures qty0 == 0 ==> sentBytes == sentBytes0
      ensures sentBytes > sentBytes0 ==> pend == [] && |sent| > |from.sent| && BytesSent(|from.sent|, sent[..|sent| - 1], w) == sentBytes0
    {
      hide PacketBuffer.Valid, InStep, Reported, World.Gets, Holds, Found, Scanned, BytesSent;
      qty, sentBytes, k, pend := qty0, sentBytes0, k0, pend0;
      if qty <= 254 && buf.used + n + 16 <= bufLen { return; }
      var more;
      more, k := StartNewBuffer(buf, qty, w, k0, stamp, pend);
      pend := [];
      assert Reported(sent) + [] == Reported(sent);
      if qty > 0 {
        qty := 0;
        assert sent == old(sent) + [sent[|old(sent)|]];
        BytesOneMore(|from.sent|, old(sent), sent[|old(sent)|], w);
      }
      sentBytes := sentBytes + more;
    }

    /** Visit the next monitor of a scan. */
    method VisitNext(i: nat, w: World, buf: PacketBuffer, stamp: Option<Long>, ghost pend: seq<Change>,
                     ghost from: ScanStart, ghost k: nat) returns (reported: bool, ghost pend': seq<Change>)
      requires Loaded(buf, pend, stamp) && |pend| <= 254
      requires Progress(from, i, w, pend, k) && i < |mons| && Fits(bufLen, mons[i])
      requires buf.used + mons[i].len + 11 <= bufLen
      modifies this`mons, this`last, buf, buf.data
      ensures Loaded(buf, pend', stamp)
      ensures Progress(from, i + 1, w, pend', k)
      ensures |pend'| == |pend| + (if reported then 1 else 0) && |mons| == |old(mons)|
      ensures Fits(bufLen, from.mons[i])
      ensures |Found(bufLen, from.mons, from.last, from.start, i + 1, w)|
              == |Found(bufLen, from.mons, from.last, from.start, i, w)| + if reported then 1 else 0
    {
      hide MonitorsSound, Holds, Scanned, InStep, PollOf, SameMonitor, PacketBuffer.Valid, Handed, Replay, Reported,
           UpToDate, ChangeOf, Owes, Monitor.Sound;
      SoundParts(i, w, pend);
      StillOwes(bufLen, from.mons, mons, from.last, last, from.start, i, w);
      reported, pend' := Visit(i, w, buf, stamp, pend);
      ScannedStep(bufLen, from.mons, old(mons), mons, from.last, old(last), last, from.start, i, w);
      OneMoreFound(Reported(sent), pend, Reported(from.sent), Found(bufLen, from.mons, from.last, from.start, i, w),
                   if reported then [ChangeOf(from.mons[i], w)] else []);
      assert pend + [] == pend;
    }

    /** A scan keeps to its limits, and stops before the end of the list only at one:
        as soon as it has polled or reported one too many, or has sent more bytes
        than it may, or the time is up when it looks. `sent` is the history when the loop ends. */
    ghost predicate Limited(from: ScanStart, stop: nat, w: World, sent: seq<Sent>, more: bool)
      requires from.start <= stop <= |from.mons| && |from.sent| <= |sent|
    {
      var polled, changed := PolledIn(bufLen, from.mons, from.start, stop),
                             |Found(bufLen, from.mons, from.last, from.start, stop, w)|;
      var tooMany := maxSentBytes > 0 && BytesSent(|from.sent|, sent, w) > maxSentBytes;
      && (maxPolled > 0 ==> polled <= maxPolled + 1)
      && (maxChanged > 0 ==> changed <= maxChanged + 1)
      && (maxTimeMs > 0 ==> InTime(w, polled))
      && (tooMany ==> more && |sent| > |from.sent| && BytesSent(|from.sent|, sent[..|sent| - 1], w) <= maxSentBytes)
      && (more ==> || (maxPolled > 0 && polled == maxPolled + 1)
                   || (maxChanged > 0 && changed == maxChanged + 1)
                   || (maxTimeMs > 0 && polled % 10 == 0 && w.late(polled))
                   || tooMany)
    }

    lemma StopsAt(from: ScanStart, stop: nat, w: World, polled: nat, changed: nat, sentBytes: nat, more: bool)
      requires from.start <= stop <= |from.mons| && |from.sent| <= |sent|
      requires polled == PolledIn(bufLen, from.mons, from.start, stop)
      requires changed == |Found(bufLen, from.mons, from.last, from.start, stop, w)|
      requires sentBytes == BytesSent(|from.sent|, sent, w)
      requires Within(w, polled, changed)
      requires maxSentBytes > 0 && sentBytes > maxSentBytes ==>
                 more && |sent| > |from.sent| && BytesSent(|from.sent|, sent[..|sent| - 1], w) <= maxSentBytes
      requires more ==> || (maxPolled > 0 && polled > maxPolled)
                        || (maxChanged > 0 && changed > maxChanged)
                        || (maxTimeMs > 0 && polled % 10 == 0 && w.late(polled))
                        || (maxSentBytes > 0 && sentBytes > maxSentBytes)
      ensures Limited(from, stop, w, sent, more)
    {
      hide PolledIn, Found, BytesSent, InTime;
    }

    /** The clock was looked at before every tenth poll, and the time was never up. */
    static ghost predicate InTime(w: World, polled: nat) {
      forall p: nat :: p < polled && p % 10 == 0 ==> !w.late(p)
    }

    /** So far no limit has been passed by more than one. */
    ghost predicate Within(w: World, polled: nat, changed: nat) {
      && (maxPolled > 0 ==> polled <= maxPolled + 1)
      && (maxChanged > 0 ==> changed <= maxChanged + 1)
      && (maxTimeMs > 0 ==> InTime(w, polled))
    }

    lemma WithinOneMore(w: World, polled: nat, changed: nat)
      requires Within(w, polled, changed)
      requires (maxPolled > 0 ==> polled <= maxPolled) && (maxChanged > 0 ==> changed <= maxChanged)
      requires maxTimeMs > 0 ==> !(polled % 10 == 0 && w.late(polled))
      ensures Within(w, polled + 1, changed) && Within(w, polled + 1, changed + 1)
    {
    }

    lemma WithinAtFirst(w: World)
      ensures Within(w, 0, 0)
    {
    }

    /** The loop of one scan, from the cursor up to `stop`. */
    method Scan(w: World, buf: PacketBuffer, stamp: Option<Long>)
      returns (stop: nat, qty: nat, k: nat, ghost pend: seq<Change>)
      requires Valid() && mons != []
      requires buf.Valid() && buf.content == [0] && buf.used == 1 && buf.data.Length == bufLen
      modifies this`mons, this`last, this`sent, buf, buf.data
      ensures buf.Valid() && InStep(pend) && Holds(buf.content, pend, stamp) && qty == |pend| <= 255
      ensures Progress(ScanStart(old(mons), old(last), old(sent), old(Start())), stop, w, pend, k)
      ensures old(Start()) <= stop <= |mons| == |old(mons)| && old(sent) <= sent
      ensures Limited(ScanStart(old(mons), old(last), old(sent), old(Start())), stop, w, sent, stop < |mons|)
      ensures maxSentBytes > 0 && BytesSent(|old(sent)|, sent, w) > maxSentBytes ==> pend == []
      ensures maxTimeMs <= 0 ==> stop > old(Start())
      ensures maxTimeMs <= 0 && maxSentBytes <= 0 && maxPolled <= 0 && maxChanged <= 0 ==> stop == |mons|
    {
      hide *;
      var polled, changed, sentBytes: nat := 0, 0, 0;
      qty, k, pend, stop := 0, 0, [], Start();
      ghost var from := ScanStart(mons, last, sent, stop);
      HoldsNothing(buf.content, stamp);
      ValidParts();
      NoProgress(w);
      assert [] == pend;
      NowLoaded(buf, stamp);
      WithinAtFirst(w);
      while stop < |mons|
        invariant Loaded(buf, pend, stamp) && qty == |pend| <= 255
        invariant Progress(from, stop, w, pend, k)
        invariant from.start <= stop <= |mons| == |from.mons| && |from.sent| <= |sent|
        invariant polled == PolledIn(bufLen, from.mons, from.start, stop)
        invariant changed == |Found(bufLen, from.mons, from.last, from.start, stop, w)|
        invariant sentBytes == BytesSent(|from.sent|, sent, w)
        invariant Within(w, polled, changed)
        invariant maxSentBytes > 0 ==> sentBytes <= maxSentBytes
        invariant stop == from.start ==> polled == changed == sentBytes == qty == 0
        decreases |from.mons| - stop
      {
        var n := mons[stop].len;
        PolledOneMore(from, stop, w, pend, k);
        if n + 16 > bufLen {
          SkipOne(from, stop, w, pend, k);
          stop := stop + 1;
          continue;
        }
        qty, sentBytes, k, pend := MakeRoom(buf, n, qty, w, k, sentBytes, stamp, pend, from, stop);
        if maxSentBytes > 0 && sentBytes > maxSentBytes { break; }
        if maxPolled > 0 && polled > maxPolled { break; }
        if maxChanged > 0 && changed > maxChanged { break; }
        if maxTimeMs > 0 && polled % 10 == 0 && w.late(polled) { break; }
        WithinOneMore(w, polled, changed);
        polled := polled + 1;
        var reported;
        reported, pend := VisitNext(stop, w, buf, stamp, pend, from, k);
        if reported {
          changed := changed + 1;
          qty := qty + 1;
        }
        stop := stop + 1;
      }
      assert buf.Valid() && InStep(pend) && Holds(buf.content, pend, stamp) by { LoadedParts(buf, pend, stamp); }
      StopsAt(from, stop, w, polled, changed, sentBytes, stop < |mons|);
      ProgressShows(from, stop, w, pend, k);
    }

    lemma ProgressShows(from: ScanStart, stop: nat, w: World, pend: seq<Change>, k: nat)
      requires Progress(from, stop, w, pend, k)
      ensures from.start <= stop <= |mons| == |from.mons| && from.sent <= sent && k == |sent| - |from.sent|
    {
      hide Scanned, Reported, Found;
    }

    lemma NowLoaded(buf: PacketBuffer, stamp: Option<Long>)
      requires InStep([]) && buf.Valid() && Holds(buf.content, [], stamp) && buf.data.Length == bufLen
      ensures Loaded(buf, [], stamp)
    {
    }

    lemma LoadedParts(buf: PacketBuffer, pend: seq<Change>, stamp: Option<Long>)
      requires Loaded(buf, pend, stamp)
      ensures buf.Valid() && InStep(pend) && Holds(buf.content, pend, stamp) && |pend| <= 255
    {
    }

    lemma ValidParts()
      requires Valid()
      ensures InStep([]) && (mons != [] ==> Start() < |mons|)
    {
    }

    lemma PolledOneMore(from: ScanStart, stop: nat, w: World, pend: seq<Change>, k: nat)
      requires Progress(from, stop, w, pend, k) && stop < |mons| == |from.mons| && from.start <= stop
      ensures PolledIn(bufLen, from.mons, from.start, stop + 1)
              == PolledIn(bufLen, from.mons, from.start, stop) + if mons[stop].len + 16 <= bufLen then 1 else 0
      ensures Fits(bufLen, mons[stop]) <==> mons[stop].len + 16 <= bufLen
    {
      hide Handed, Reported, Found;
    }

    lemma NoProgress(w: World)
      requires Start() <= |mons|
      ensures Progress(ScanStart(mons, last, sent, Start()), Start(), w, [], 0)
      ensures Found(bufLen, mons, last, Start(), Start(), w) == [] && BytesSent(|sent|, sent, w) == 0
      ensures PolledIn(bufLen, mons, Start(), Start()) == 0
    {
      hide Reported;
      ScannedNothing(bufLen, mons, last, Start(), w);
      FoundFrom(bufLen, mons, last, Start(), w, Reported(sent));
    }

    static lemma OneMoreFound(r: seq<Change>, pend: seq<Change>, r0: seq<Change>, found: seq<Change>, more: seq<Change>)
      requires r + pend == r0 + found
      ensures r + (pend + more) == r0 + (found + more)
    {
      assert r + (pend + more) == (r + pend) + more;
      assert r0 + (found + more) == (r0 + found) + more;
    }

    /** One scan. It polls every monitor that fits a packet from the cursor up to
        `stop`, where a limit stopped it or the list ended, and leaves the cursor
        there: a limit never skips a monitor. What it finds is handed over, each
        change once and in the order of the list, and nothing else is. */
    method Monitoring(w: World) returns (ok: bool, ghost stop: nat, ghost full: nat)
      requires Valid()
      modifies this
      ensures Valid()
      ensures old(Start()) == if old(cursor).Some? then old(cursor).value else 0
      ensures old(Start()) <= stop && |mons| == |old(mons)| && (mons != [] ==> stop <= |mons|)
      ensures Scanned(bufLen, old(mons), mons, old(last), last, old(Start()), stop, w)
      ensures w.room && mons != [] ==> cursor == if stop < |mons| then Some(stop) else None
      ensures !w.room || mons == [] ==> stop == old(Start()) && cursor == old(cursor) && sent == old(sent)
      // it gets somewhere, and without limits it gets to the end
      ensures w.room && mons != [] && maxTimeMs <= 0 ==> stop > old(Start())
      ensures w.room && mons != [] && maxTimeMs <= 0 && maxSentBytes <= 0 && maxPolled <= 0 && maxChanged <= 0 ==> stop == |mons|
      ensures Handed(old(sent), sent, w) && oddBits == old(oddBits)
      ensures mons != [] ==> Reported(sent) == old(Reported(sent)) + Found(bufLen, old(mons), old(last), old(Start()), stop, w)
      // the loop has handed over the packets up to `full`; one more may be left for the end
      ensures |old(sent)| <= full <= |sent| <= full + 1
      ensures w.room && mons != [] ==> Limited(ScanStart(old(mons), old(last), old(sent), old(Start())), stop, w, sent[..full], stop < |mons|)
      ensures maxSentBytes > 0 && BytesSent(|old(sent)|, sent[..full], w) > maxSentBytes ==> full == |sent|
      ensures ok <==> mons == [] || (w.room && (full < |sent| ==> sent[full].taken))
    {
      hide Holds, Scanned, InStep, PacketBuffer.Valid, World.Gets, Reported, Found, Limited, BytesSent;
      stop, full := Start(), |sent|;
      NothingSent(sent, w);
      assert sent[..full] == sent;
      ScannedNothing(bufLen, mons, last, stop, w);
      if |mons| == 0 { return true, stop, full; }
      FoundFrom(bufLen, mons, last, stop, w, Reported(sent));
      if !w.room { return false, stop, full; }
      var buf := new PacketBuffer(bufLen);
      var stamp := if useTime then Some(w.now) else None;
      var i, qty, k;
      ghost var pend;
      i, qty, k, pend := Scan(w, buf, stamp);
      cursor := if i < |mons| then Some(i) else None;
      stop, full := i, |sent|;
      ok := true;
      assert sent[..full] == sent;
      assert Reported(sent) + [] == Reported(sent);
      if qty > 0 {
        var linked;
        linked, ok := Flush(buf, qty, w, k, stamp, pend);
      } else {
        assert pend == [];
      }
    }

    static lemma NothingSent(sent: seq<Sent>, w: World)
      ensures BytesSent(|sent|, sent, w) == 0
    {
    }

    static lemma FoundFrom(bufLen: nat, mons: seq<Monitor>, last: View, start: nat, w: World, r: seq<Change>)
      requires start <= |mons|
      ensures r == r + Found(bufLen, mons, last, start, start, w)
    {
    }

    /** Before the i-th record goes: the cursor, which is a pointer into the list, is
        moved on if it points there. */
    method Unlink(i: nat)
      requires i < |mons| && (cursor.Some? ==> cursor.value < |mons|)
      modifies this`cursor
      ensures var rest, c := RemoveAt(mons, i), old(cursor);
              && rest == mons[..i] + mons[i + 1..] && |rest| == |mons| - 1
              && (cursor.Some? ==> cursor.value < |rest|)
              && (c.None? ==> cursor.None?)
              && (c.Some? && c.value != i ==> cursor.Some? && rest[cursor.value] == mons[c.value])
              && (c == Some(i) ==> if i + 1 < |mons| then cursor.Some? && rest[cursor.value] == mons[i + 1] else cursor.None?)
    {
      if cursor == Some(i) {
        cursor := if i + 1 < |mons| then Some(i) else None;
      } else if cursor.Some? && cursor.value > i {
        cursor := Some(cursor.value - 1);
      }
    }

    lemma OnlyOne(ooid: Long, i: nat)
      requires MonitorsSound(mons, last) && i < |mons| && mons[i].ooid == ooid
      ensures forall j :: 0 <= j < |mons| && mons[j].ooid == ooid ==> j == i
    {
    }

    // ------------------------------------------------------------ what follows

    /** Do the packets taken, decoded in order, show of the i-th monitor what its
        last poll found? */
    ghost predicate ShowsRight(i: nat)
      requires i < |mons|
      reads this`mons, this`last, this`sent
    {
      mons[i].ooid in last && mons[i].ooid in Seen(sent)
      && Agrees(mons[i].kind, Seen(sent)[mons[i].ooid], last[mons[i].ooid])
    }

    /** Had something that agrees with its last poll been reported before packet k? */
    ghost predicate HadReported(i: nat, k: nat)
      requires i < |mons| && k <= |sent|
      reads this`mons, this`last, this`sent
    {
      var p := Look(Replay(Reported(sent[..k])), mons[i].ooid);
      p.Some? && mons[i].ooid in last && Agrees(mons[i].kind, p.value, last[mons[i].ooid])
    }

    /** Was the last report of the i-th monitor taken? If not, and nothing about it
        since packet k, had the same been reported before that packet? */
    ghost predicate Arrived(i: nat)
      requires i < |mons|
      reads this`mons, this`last, this`sent
    {
      || mons[i].ooid !in Stale(sent)
      || exists k: nat :: LostSince(sent, mons[i].ooid, k) && HadReported(i, k)
    }

    /** No change is lost but with its packet: as long as no unsupported bit field was
        registered, the packets taken show the last poll of every monitor polled
        whose last report was taken; and of one about which nothing was taken since
        some packet was refused, if and only if what had been reported before that
        packet agrees with the last poll. */
    lemma SeenExactly(i: nat)
      requires Valid() && !oddBits && i < |mons| && mons[i].ooid in last
      ensures ShowsRight(i) <==> Arrived(i)
    {
      var o := mons[i].ooid;
      assert Reported(sent) + [] == Reported(sent);
      hide Stale, TakenOf, Reported, Flatten, Replay, Agrees, LostSince;
      TakenGood(sent);
      DecodedViewIsReplay(TakenOf(sent));
      StaleExactly(sent, o);
      if o !in Stale(sent) { FreshIsReported(sent, o); }
    }

    /** A scan that finds nothing new repairs nothing: what is wrong stays wrong for
        as long as the memory does not change. */
    method QuietScan(w: World)
      requires Valid() && (forall i :: 0 <= i < |mons| ==> !Owes(mons[i], last, w))
      modifies this
      ensures Valid() && sent == old(sent) && oddBits == old(oddBits)
      ensures |mons| == |old(mons)| && forall i :: 0 <= i < |mons| ==> SameMonitor(old(mons)[i], mons[i])
      ensures forall i :: 0 <= i < |mons| && old(mons)[i].ooid in old(last) ==> mons[i].ooid in last
    {
      hide Valid, Owes, Reported, SameMonitor;
      ghost var mons0, last0, start := mons, last, Start();
      var ok, stop, full := Monitoring(w);
      if mons != [] {
        FoundNothing(bufLen, mons0, last0, start, stop, w);
        assert Reported(old(sent)) + [] == Reported(old(sent));
        SentIsSound();
        ReportedGrows(old(sent), sent);
      }
    }

    lemma SentIsSound()
      requires Valid()
      ensures forall i :: 0 <= i < |sent| ==> sent[i].packet.Sound()
    {
    }

    /** So it is after every run of registrations, removals and scans; and as long as
        no packet is refused no object becomes stale. */
    method Run(ops: seq<Op>)
      requires Valid()
      modifies this
      ensures Valid()
      ensures !oddBits ==> forall i :: 0 <= i < |mons| && mons[i].ooid in last ==>
                (ShowsRight(i) <==> Arrived(i))
      ensures (forall i :: 0 <= i < |ops| ==> ops[i].Harmless()) ==> oddBits == old(oddBits) && Stale(sent) <= old(Stale(sent))
    {
      hide Valid, Handed, Scanned, Stale, ShowsRight, Arrived, World.Reliable, Found, Reported;
      var i := 0;
      while i < |ops|
        invariant 0 <= i <= |ops| && Valid()
        invariant (forall j :: 0 <= j < i ==> ops[j].Harmless()) ==> oddBits == old(oddBits) && Stale(sent) <= old(Stale(sent))
      {
        ghost var sent0 := sent;
        match ops[i] {
          case Add(ooid, place, len, kind, room) => var _ := Register(ooid, place, len, kind, room);
          case Remove(ooid) => var _ := Unregister(ooid);
          case ScanOnce(w) =>
            var _, _, _ := Monitoring(w);
            if ops[i].Harmless() { ReliableKeepsFresh(sent0, sent, w); }
        }
        i := i + 1;
      }
      if !oddBits {
        forall i | 0 <= i < |mons| && mons[i].ooid in last
          ensures ShowsRight(i) <==> Arrived(i)
        {
          SeenExactly(i);
        }
      }
    }
  }

  lemma {:induction false} NoneTaken(sent: seq<Sent>)
    requires forall i :: 0 <= i < |sent| ==> !sent[i].taken
    ensures TakenOf(sent) == []
    decreases |sent|
  {
    if sent != [] { NoneTaken(sent[..|sent| - 1]); }
  }

  /** A report that the sender refuses is not made again: one monitor, a scan whose
      packet is refused, and then a scan over a perfect link, which finds nothing. */
  method RefusedIsForgotten() returns (agent: Agent)
    ensures agent.Valid() && !agent.oddBits && |agent.mons| == 1 && agent.mons[0].ooid in agent.last
    ensures Seen(agent.sent) == map[] && !agent.ShowsRight(0)
  {
    hide Agent.Valid, PollOf, Stale, Reported, ChangeOf, Agrees;
    agent := new Agent(100, 0, 0, 0, 0, false);
    var ok := agent.Register(7, PM.Place(0x1000, 0, 'D', 0, 0, false), 1, 0, true);
    var deaf := World(PM.Memory(true, _ => 1, _ => 0), _ => false, _ => true, _ => false, true, 0);
    ghost var mons0 := agent.mons;
    var took, stop, full := agent.Monitoring(deaf);
    var perfect := deaf.(takes := _ => true);
    NoneTaken(agent.sent);
    assert PollOf(agent.mons[0], perfect) == PollOf(agent.mons[0], deaf) by { SameMemory(agent.mons[0], deaf, perfect); }
    AgreesReflexive(agent.mons[0].kind, agent.last[agent.mons[0].ooid]);
    agent.QuietScan(perfect);
  }

  lemma SameMemory(m: Monitor, w: World, w': World)
    requires w.mem == w'.mem
    ensures PollOf(m, w) == PollOf(m, w')
  {
  }

  datatype Op = Add(ooid: Long, place: PM.Place, len: int, kind: byte, room: bool) | Remove(ooid: Long) | ScanOnce(w: World)
  {
    /** What the caller and the link have to see to: no bit field of an
        unsupported length, and every packet taken. */
    ghost predicate Harmless() {
      match this
      case Add(_, place, len, _, _) => place.blen == 0 || len in {1, 2, 4}
      case Remove(_) => true
      case ScanOnce(w) => w.Reliable()
    }
  }
}
