/** The change packet: a count byte followed by variable length records. The
    agent writes it, the hub reads it and writes it again for its watchers. */
module MonitorCodec {
  import opened Bytes

  const STRING_TYPE: byte := 's' as int as byte

  /** One change. `stamp` is absent when the writer does not use time; `long`
      says that the length is spelled with 13 bits instead of 5. */
  datatype Record = Record(ooid: Long, kind: byte, undef: bool, long: bool, stamp: Option<Long>, value: seq<byte>)
  {
    predicate Sound() {
      && |value| < 0x2000
      && (!long ==> |value| < 0x20)
      && (undef ==> |value| == 0)
    }

    /** The flag byte: bit 7 undefined, bit 6 stamped, bit 5 long form, then
        the five low bits (short form) or five high bits (long form) of the length. */
    function Flags(): (f: byte)
      requires Sound()
    {
      ((if undef then 0x80 else 0) + (if stamp.Some? then 0x40 else 0)
       + (if long then 0x20 + |value| / 0x100 else |value|)) as byte
    }

    function Bytes(): (s: seq<byte>)
      requires Sound()
      ensures 6 <= |s| <= |value| + 11
    {
      Be32(ooid) + [kind, Flags()] + StampBytes() + LengthBytes() + value
    }

    function StampBytes(): (s: seq<byte>)
      ensures |s| == if stamp.Some? then 4 else 0
    {
      if stamp.Some? then Be32(stamp.value) else []
    }

    /** The low byte of a length in the long form. */
    function LengthBytes(): (s: seq<byte>)
      ensures |s| == if long then 1 else 0
    {
      if long then [(|value| % 0x100) as byte] else []
    }
  }

  predicate AllSound(rs: seq<Record>) {
    forall i :: 0 <= i < |rs| ==> rs[i].Sound()
  }

  function Encode(rs: seq<Record>): (s: seq<byte>)
    requires AllSound(rs)
  {
    if rs == [] then [] else rs[0].Bytes() + Encode(rs[1..])
  }

  /** A packet carries between 1 and 255 records. */
  predicate Packable(rs: seq<Record>) { 1 <= |rs| <= 255 && AllSound(rs) }

  function EncodePacket(rs: seq<Record>): (s: seq<byte>)
    requires Packable(rs)
  {
    [|rs| as byte] + Encode(rs)
  }

  lemma {:induction false} EncodeFirst(r: Record, rs: seq<Record>)
    requires r.Sound() && AllSound(rs)
    ensures AllSound([r] + rs) && Encode([r] + rs) == r.Bytes() + Encode(rs)
  {
    hide Record.Bytes, Record.Sound;
    assert ([r] + rs)[1..] == rs;
  }

  lemma SoundParts(rs: seq<Record>)
    requires AllSound(rs) && rs != []
    ensures rs[0].Sound() && AllSound(rs[1..]) && rs == [rs[0]] + rs[1..]
  {
    hide Record.Sound;
  }

  lemma {:induction false} EncodeConcat(a: seq<Record>, b: seq<Record>)
    requires AllSound(a) && AllSound(b)
    ensures AllSound(a + b) && Encode(a + b) == Encode(a) + Encode(b)
    decreases |a|
  {
    if a == [] {
      assert Encode(a) == [];
      hide *;
      assert a + b == b;
    } else {
      hide *;
      SoundParts(a);
      var r, rest := a[0], a[1..];
      EncodeConcat(rest, b);
      EncodeFirst(r, rest);
      EncodeFirst(r, rest + b);
      assert a + b == [r] + (rest + b);
      Regroup(r.Bytes(), Encode(rest), Encode(b));
    }
  }

  lemma EncodeOne(r: Record)
    requires r.Sound()
    ensures Encode([r]) == r.Bytes()
  {
    assert [r][1..] == [];
  }

  // ------------------------------------------------------------------ reading

  /** A byte of a packet, and 0 behind it: what lies there never matters. */
  function At(buf: seq<byte>, p: nat): byte {
    if p < |buf| then buf[p] else 0
  }

  function LongAt(buf: seq<byte>, p: nat): Long {
    Un32([At(buf, p), At(buf, p + 1), At(buf, p + 2), At(buf, p + 3)])
  }

  datatype Parsed = Reject | Parsed(rec: Record, next: nat)

  /** One turn of the reader's loop at offset p. */
  function ReadRecord(buf: seq<byte>, p: nat): (r: Parsed)
  {
    if p + 6 > |buf| then Reject
    else
      var flags := At(buf, p + 5) as int;
      var undef, stamped, long := flags / 0x80 % 2 == 1, flags / 0x40 % 2 == 1, flags / 0x20 % 2 == 1;
      var p1 := if stamped then p + 10 else p + 6;
      var len := if long then flags % 0x20 * 0x100 + At(buf, p1) as int else flags % 0x20;
      var p2 := if long then p1 + 1 else p1;
      if undef && len != 0 then Reject
      else if p2 + len > |buf| then Reject
      else Parsed(Record(LongAt(buf, p), At(buf, p + 4), undef, long,
                         if stamped then Some(LongAt(buf, p + 6)) else None, buf[p2..p2 + len]),
                  p2 + len)
  }

  function Prepend(rs: seq<Record>, tail: Option<seq<Record>>): Option<seq<Record>> {
    if tail.None? then None else Some(rs + tail.value)
  }

  /** The remaining `n` records from offset p, which must end where the packet ends. */
  function DecodeFrom(buf: seq<byte>, p: nat, n: nat): Option<seq<Record>>
    decreases n
  {
    if n == 0 then
      if p == |buf| then Some([]) else None
    else
      match ReadRecord(buf, p)
      case Reject => None
      case Parsed(r, q) => Prepend([r], DecodeFrom(buf, q, n - 1))
  }

  function Decode(buf: seq<byte>): Option<seq<Record>> {
    if At(buf, 0) == 0 then None else DecodeFrom(buf, 1, At(buf, 0) as nat)
  }

  /** Where the parts of a written record lie. */
  lemma Layout(r: Record)
    requires r.Sound()
    ensures var b, p1 := r.Bytes(), if r.stamp.Some? then 10 else 6;
            && b[..4] == Be32(r.ooid) && b[4] == r.kind && b[5] == r.Flags()
            && b[5] as int == (if r.undef then 0x80 else 0) + (if r.stamp.Some? then 0x40 else 0)
                              + (if r.long then 0x20 + |r.value| / 0x100 else |r.value|)
            && (r.stamp.Some? ==> b[6..10] == Be32(r.stamp.value))
            && (r.long ==> |b| > p1 && b[p1] as int == |r.value| % 0x100)
            && (var p2 := if r.long then p1 + 1 else p1; |b| == p2 + |r.value| && b[p2..] == r.value)
  {
  }

  /** A record written at offset p is the one read there. */
  lemma ReadBack(buf: seq<byte>, p: nat, r: Record)
    requires r.Sound()
    requires p + |r.Bytes()| <= |buf| && buf[p..p + |r.Bytes()|] == r.Bytes()
    ensures ReadRecord(buf, p) == Parsed(r, p + |r.Bytes()|)
  {
    hide Record.Bytes, Record.Flags, Be32, Un32, At, LongAt;
    var b := r.Bytes();
    Layout(r);
    FlagsReadBack(r);
    SameBytes(buf, p, b);
    LongReadBack(buf, p, r.ooid, b);
    assert At(buf, p + 4) == b[4] && At(buf, p + 5) == b[5];
    var p1 := if r.stamp.Some? then 10 else 6;
    if r.stamp.Some? {
      LongReadBack(buf, p + 6, r.stamp.value, b[6..]);
    }
    if r.long {
      assert At(buf, p + p1) == b[p1];
    }
    var p2 := if r.long then p1 + 1 else p1;
    assert buf[p + p2..p + |b|] == b[p2..];
  }

  lemma SameBytes(buf: seq<byte>, p: nat, b: seq<byte>)
    requires p + |b| <= |buf| && buf[p..p + |b|] == b
    ensures forall i {:trigger b[i]} :: 0 <= i < |b| ==> At(buf, p + i) == b[i]
    ensures forall i :: 0 <= i <= |b| ==> buf[p + i..p + |b|] == b[i..]
  {
    forall i | 0 <= i < |b| ensures At(buf, p + i) == b[i] {
      assert buf[p..p + |b|][i] == buf[p + i];
    }
  }

  lemma FlagsReadBack(r: Record)
    requires r.Sound()
    ensures var f := r.Flags() as int;
            && (f / 0x80 % 2 == 1 <==> r.undef)
            && (f / 0x40 % 2 == 1 <==> r.stamp.Some?)
            && (f / 0x20 % 2 == 1 <==> r.long)
            && f % 0x20 == if r.long then |r.value| / 0x100 else |r.value|
  {
  }

  lemma LongReadBack(buf: seq<byte>, p: nat, w: Long, b: seq<byte>)
    requires |b| >= 4 && b[..4] == Be32(w)
    requires p + 4 <= |buf| && forall i :: 0 <= i < 4 ==> At(buf, p + i) == b[i]
    ensures LongAt(buf, p) == w
  {
    assert [At(buf, p), At(buf, p + 1), At(buf, p + 2), At(buf, p + 3)] == Be32(w) + [] by {
      assert At(buf, p) == At(buf, p + 0);
      assert forall i :: 0 <= i < 4 ==> b[i] == b[..4][i];
    }
    Un32OfBe32(w, []);
  }

  function AfterStamp(r: Record, p: nat): nat { if r.stamp.Some? then p + 10 else p + 6 }

  function AfterLength(r: Record, p: nat): nat { AfterStamp(r, p) + if r.long then 1 else 0 }

  /** Where the parts of a record that was read lie. */
  lemma ReadParts(buf: seq<byte>, p: nat)
    requires ReadRecord(buf, p).Parsed?
    ensures var Parsed(r, q) := ReadRecord(buf, p);
            && AfterLength(r, p) <= q <= |buf| && r.Sound()
            && r.ooid == LongAt(buf, p) && r.kind == buf[p + 4] && r.value == buf[AfterLength(r, p)..q]
            && (r.stamp.Some? ==> r.stamp.value == LongAt(buf, p + 6))
            && (r.long ==> (|r.value| % 0x100) as byte == buf[AfterStamp(r, p)])
            && r.Flags() == buf[p + 5]
  {
    hide LongAt, Record.Flags;
    var r := ReadRecord(buf, p).rec;
    FlagsRewritten(r, buf[p + 5] as int);
  }

  /** And whatever is read is sound and is exactly the bytes it was read from. */
  lemma WrittenAsRead(buf: seq<byte>, p: nat)
    requires ReadRecord(buf, p).Parsed?
    ensures var Parsed(r, q) := ReadRecord(buf, p);
            r.Sound() && p < q <= |buf| && buf[p..q] == r.Bytes()
  {
    hide Un32, Be32, LongAt, Record.Flags, ReadRecord;
    ReadParts(buf, p);
    var Parsed(r, q) := ReadRecord(buf, p);
    var p1, p2 := AfterStamp(r, p), AfterLength(r, p);
    LongRewritten(buf, p);
    assert [buf[p + 4], buf[p + 5]] == buf[p + 4..p + 6];
    assert r.StampBytes() == buf[p + 6..p1] by {
      if r.stamp.Some? { LongRewritten(buf, p + 6); }
    }
    assert r.LengthBytes() == buf[p1..p2] by {
      if r.long { assert buf[p1..p2] == [buf[p1]]; } else { assert buf[p1..p2] == []; }
    }
    hide Record.StampBytes, Record.LengthBytes;
    FivePieces(buf, p, p + 4, p + 6, p1, p2, q);
  }

  lemma FivePieces(buf: seq<byte>, p: nat, a: nat, b: nat, c: nat, d: nat, q: nat)
    requires p <= a <= b <= c <= d <= q <= |buf|
    ensures buf[p..a] + buf[a..b] + buf[b..c] + buf[c..d] + buf[d..q] == buf[p..q]
  {
  }

  lemma LongRewritten(buf: seq<byte>, p: nat)
    requires p + 4 <= |buf|
    ensures Be32(LongAt(buf, p)) == buf[p..p + 4]
  {
    var b := [At(buf, p), At(buf, p + 1), At(buf, p + 2), At(buf, p + 3)];
    Be32OfUn32(b);
    assert b == buf[p..p + 4];
  }

  lemma FlagsRewritten(r: Record, f: nat)
    requires f < 0x100 && r.Sound()
    requires (f / 0x80 % 2 == 1 <==> r.undef) && (f / 0x40 % 2 == 1 <==> r.stamp.Some?) && (f / 0x20 % 2 == 1 <==> r.long)
    requires f % 0x20 == if r.long then |r.value| / 0x100 else |r.value|
    ensures r.Flags() as int == f
  {
    assert f == f / 0x80 % 2 * 0x80 + f / 0x40 % 2 * 0x40 + f / 0x20 % 2 * 0x20 + f % 0x20;
  }

  lemma {:induction false} DecodeFromEncode(buf: seq<byte>, p: nat, rs: seq<Record>)
    requires AllSound(rs)
    requires p <= |buf| && buf[p..] == Encode(rs)
    ensures DecodeFrom(buf, p, |rs|) == Some(rs)
    decreases |rs|
  {
    hide Record.Bytes, ReadRecord;
    if rs != [] {
      var b := rs[0].Bytes();
      assert buf[p..p + |b|] == buf[p..][..|b|] == b;
      ReadBack(buf, p, rs[0]);
      assert buf[p + |b|..] == buf[p..][|b|..] == Encode(rs[1..]);
      DecodeFromEncode(buf, p + |b|, rs[1..]);
      assert [rs[0]] + rs[1..] == rs;
    }
  }

  lemma {:induction false} EncodeDecodedFrom(buf: seq<byte>, p: nat, n: nat)
    requires p <= |buf| && DecodeFrom(buf, p, n).Some?
    ensures var rs := DecodeFrom(buf, p, n).value;
            |rs| == n && AllSound(rs) && buf[p..] == Encode(rs)
    decreases n
  {
    hide Record.Bytes, ReadRecord;
    if n > 0 {
      WrittenAsRead(buf, p);
      var Parsed(r, q) := ReadRecord(buf, p);
      EncodeDecodedFrom(buf, q, n - 1);
      var rest := DecodeFrom(buf, q, n - 1).value;
      assert ([r] + rest)[1..] == rest;
      assert buf[p..] == buf[p..q] + buf[q..];
    }
  }

  /** Round trip: a packet of any sound records decodes to those records. */
  lemma DecodeOfEncode(rs: seq<Record>)
    requires Packable(rs)
    ensures Decode(EncodePacket(rs)) == Some(rs)
  {
    var buf := EncodePacket(rs);
    assert buf[1..] == Encode(rs);
    DecodeFromEncode(buf, 1, rs);
  }

  /** The other way round: what decodes at all is the packet of what it decodes to. */
  lemma EncodeOfDecode(buf: seq<byte>)
    requires Decode(buf).Some?
    ensures Packable(Decode(buf).value) && EncodePacket(Decode(buf).value) == buf
  {
    EncodeDecodedFrom(buf, 1, At(buf, 0) as nat);
    assert buf == [buf[0]] + buf[1..];
  }

  /** So the reader accepts a byte string if and only if it is somebody's packet. */
  lemma AcceptsExactlyPackets(buf: seq<byte>)
    ensures Decode(buf).Some? <==> exists rs :: Packable(rs) && EncodePacket(rs) == buf
  {
    if Decode(buf).Some? {
      EncodeOfDecode(buf);
    }
    forall rs | Packable(rs) && EncodePacket(rs) == buf
      ensures Decode(buf).Some?
    {
      DecodeOfEncode(rs);
    }
  }

  lemma {:induction false} DecodePastEnd(buf: seq<byte>, p: nat, n: nat)
    requires p > |buf|
    ensures DecodeFrom(buf, p, n) == None
  {
  }

  /** Memory from the start of the receive buffer on: the packet, then whatever
      lies behind it. */
  type Memory = nat -> byte

  function PacketAt(mem: Memory, len: nat): (buf: seq<byte>)
    ensures |buf| == len && forall i :: 0 <= i < len ==> buf[i] == mem(i)
  {
    seq(len, i requires i >= 0 => mem(i))
  }

  function LongIn(mem: Memory, p: nat): Long {
    Un32([mem(p), mem(p + 1), mem(p + 2), mem(p + 3)])
  }

  /** The end of the part of memory that the head of a record at p covers. */
  function HeadEnd(mem: Memory, p: nat): nat {
    var flags := mem(p + 5) as int;
    p + 6 + (if flags / 0x40 % 2 == 1 then 4 else 0) + (if flags / 0x20 % 2 == 1 then 1 else 0)
  }

  lemma SameInMemory(mem: Memory, len: nat, p: nat)
    requires p + 6 <= len
    ensures var buf := PacketAt(mem, len);
            && LongAt(buf, p) == LongIn(mem, p) && At(buf, p + 4) == mem(p + 4) && At(buf, p + 5) == mem(p + 5)
            && (p + 10 <= len ==> LongAt(buf, p + 6) == LongIn(mem, p + 6))
            && forall q :: p <= q < len ==> At(buf, q) == mem(q)
  {
    hide Un32;
  }

  /** The head of a record behind its number and type: the flag byte, the time
      and the length. `p` is left behind them. */
  method TakeHead(mem: Memory, start: nat) returns (undef: bool, long: bool, stamp: Option<Long>, n: nat, p: nat)
    ensures p == HeadEnd(mem, start)
    ensures var flags := mem(start + 5) as int;
            && (undef <==> flags / 0x80 % 2 == 1) && (long <==> flags / 0x20 % 2 == 1)
            && stamp == (if flags / 0x40 % 2 == 1 then Some(LongIn(mem, start + 6)) else None)
            && n == if long then flags % 0x20 * 0x100 + mem(p - 1) as int else flags % 0x20
  {
    hide LongIn;
    var flags := mem(start + 5) as int;
    p := start + 6;
    undef, long, stamp, n := flags / 0x80 % 2 == 1, flags / 0x20 % 2 == 1, None, flags % 0x20;
    if flags / 0x40 % 2 == 1 {
      stamp := Some(LongIn(mem, p));
      p := p + 4;
    }
    if long {
      n := n * 0x100 + mem(p) as int;
      p := p + 1;
    }
  }

  /** The body of the hub's loop. Its only bounds check is the first line: a head
      that does not fit is looked at all the same, and a value that runs past the
      end still moves p, beyond the packet. `seen` is the end of what is looked at. */
  method TakeRecord(mem: Memory, len: nat, start: nat) returns (ok: bool, rec: Record, p: nat, ghost seen: nat)
    ensures ok && p <= len ==> ReadRecord(PacketAt(mem, len), start) == Parsed(rec, p)
    ensures !ok || p > len ==> ReadRecord(PacketAt(mem, len), start) == Reject
    ensures p >= start && (ok ==> p >= seen)
    ensures seen == if start + 6 > len then start else HeadEnd(mem, start)
  {
    hide Un32, PacketAt, At, LongAt, LongIn, Record.Sound, Record.Bytes;
    ghost var buf := PacketAt(mem, len);
    p, seen := start, start;
    rec := Record(0, 0, false, false, None, []);
    if p + 6 > len { return false, rec, p, seen; }
    SameInMemory(mem, len, p);
    var ooid, kind := LongIn(mem, p), mem(p + 4);
    var undef, long, stamp, n;
    undef, long, stamp, n, p := TakeHead(mem, p);
    seen := p;
    var value := [];
    if undef {
      if n != 0 { return false, rec, p, seen; }
    } else {
      if p + n <= len { value := PacketAt(mem, len)[p..p + n]; }
      p := p + n;
    }
    ok, rec := true, Record(ooid, kind, undef, long, stamp, value);
  }

  /** The hub's loop accepts exactly what `Decode` accepts, with the same records,
      whatever lies behind the packet. It checks the packet's end only before a
      record and once after the last, and so looks up to five bytes past it; never
      past a packet that it accepts. */
  method DecodePacket(mem: Memory, len: nat) returns (r: Option<seq<Record>>, ghost seen: nat)
    requires 1 <= len
    ensures r == Decode(PacketAt(mem, len))
    ensures seen <= len + 5 && (r.Some? ==> seen <= len)
    ensures mem(0) != 0 && 7 <= len ==> seen >= HeadEnd(mem, 1)
  {
    hide *;
    ghost var buf := PacketAt(mem, len);
    var p := 0;
    var num := mem(p) as nat;
    DecodeHead(buf);
    p := p + 1;
    seen := 1;
    if num < 1 { return None, seen; }
    var recs := [];
    var i := 0;
    while i < num
      invariant 0 <= i <= num
      invariant 1 <= seen <= p && seen <= len + 5
      invariant if i == 0 then p == 1 else 7 <= len ==> seen >= HeadEnd(mem, 1)
      invariant p > len ==> Decode(buf) == None
      invariant p <= len ==> Decode(buf) == Prepend(recs, DecodeFrom(buf, p, num - i))
    {
      DecodeStep(recs, buf, p, num - i);
      HeadEndsSoon(mem, p);
      var ok, rec, next;
      ghost var here;
      ok, rec, next, here := TakeRecord(mem, len, p);
      if p + 6 <= len { seen := here; }
      if !ok { return None, seen; }
      i := i + 1;
      recs := recs + [rec];
      p := next;
    }
    if p <= len { DecodeEnd(recs, buf, p); }
    if p != len { return None, seen; }
    r := Some(recs);
  }

  lemma DecodeHead(buf: seq<byte>)
    requires |buf| > 0
    ensures Decode(buf) == if buf[0] == 0 then None else Prepend([], DecodeFrom(buf, 1, buf[0] as nat))
  {
    PrependNone(DecodeFrom(buf, 1, buf[0] as nat));
  }

  lemma {:induction false} DecodeStep(recs: seq<Record>, buf: seq<byte>, p: nat, n: nat)
    requires n > 0
    ensures Prepend(recs, DecodeFrom(buf, p, n))
            == match ReadRecord(buf, p)
               case Reject => None
               case Parsed(r, q) => Prepend(recs + [r], DecodeFrom(buf, q, n - 1))
  {
    hide ReadRecord;
    var r := ReadRecord(buf, p);
    if r.Parsed? { PrependTwice(recs, r.rec, DecodeFrom(buf, r.next, n - 1)); }
  }

  lemma DecodeEnd(recs: seq<Record>, buf: seq<byte>, p: nat)
    ensures Prepend(recs, DecodeFrom(buf, p, 0)) == if p == |buf| then Some(recs) else None
  {
    assert recs + [] == recs;
  }

  lemma HeadEndsSoon(mem: Memory, p: nat)
    ensures p + 6 <= HeadEnd(mem, p) <= p + 11
  {
  }

  /** Five bytes it can be, and the first head is looked at in any case: that of a
      record with time and long form, of which a packet of seven bytes holds six. */
  lemma LooksFivePast(mem: Memory)
    requires mem(6) == 0x60
    ensures HeadEnd(mem, 1) == 7 + 5
  {
  }

  lemma PrependNone(tail: Option<seq<Record>>)
    ensures Prepend([], tail) == tail
  {
    if tail.Some? {
      assert [] + tail.value == tail.value;
    }
  }

  lemma PrependTwice(rs: seq<Record>, r: Record, tail: Option<seq<Record>>)
    ensures Prepend(rs, Prepend([r], tail)) == Prepend(rs + [r], tail)
  {
    if tail.Some? {
      assert rs + ([r] + tail.value) == (rs + [r]) + tail.value;
    }
  }
}
