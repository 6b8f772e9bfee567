/** The stream frame both ends of a link agree on: a six byte header (length,
    type, sender id), the payload, and a two byte checksum on an even boundary. */
module Framing {
  import opened Bytes

  const HEAD_LEN := 6
  const TAIL_LEN := 2
  const MAX_PACKET := 8192

  datatype Packet = Packet(kind: Word, payload: seq<byte>)

  /** Size of a frame: header, payload and tail rounded up to an even count. */
  function FrameLen(len: nat): (n: nat)
    ensures len + HEAD_LEN + TAIL_LEN <= n <= len + HEAD_LEN + TAIL_LEN + 1 && n % 2 == 0
  {
    var blen := len + HEAD_LEN + TAIL_LEN;
    if blen % 2 != 0 then blen + 1 else blen
  }

  /** The frame of a packet. The length word keeps 16 bits only; checksums are
      compiled out, so the tail is a zero word. */
  function Frame(id: Word, p: Packet): (f: seq<byte>)
    ensures |f| == FrameLen(|p.payload|)
  {
    var pad: seq<byte> := if |p.payload| % 2 != 0 then [0] else [];
    Be16(|p.payload| % 0x1_0000) + Be16(p.kind) + Be16(id) + p.payload + pad + [0, 0]
  }

  /** Where everything is in a frame: length, type and sender in two bytes each, the
      high one first, then the payload; behind it only zeros, up to an even length
      that leaves two of them. */
  lemma FrameLayout(id: Word, p: Packet)
    ensures var f, n := Frame(id, p), |p.payload|;
            && |f| % 2 == 0 && n + 8 <= |f| <= n + 9
            && f[0] as int * 0x100 + f[1] as int == n % 0x1_0000
            && f[2] as int * 0x100 + f[3] as int == p.kind
            && f[4] as int * 0x100 + f[5] as int == id
            && f[6..6 + n] == p.payload
            && forall i :: 6 + n <= i < |f| ==> f[i] == 0
  {
  }

  function Frames(id: Word, ps: seq<Packet>): (s: seq<byte>)
  {
    if ps == [] then [] else Frames(id, ps[..|ps| - 1]) + Frame(id, ps[|ps| - 1])
  }

  lemma {:induction false} FramesConcat(id: Word, ps: seq<Packet>, qs: seq<Packet>)
    ensures Frames(id, ps + qs) == Frames(id, ps) + Frames(id, qs)
    decreases |qs|
  {
    hide Frame;
    if qs == [] {
      assert ps + qs == ps;
    } else {
      var n := |qs| - 1;
      assert (ps + qs)[..|ps + qs| - 1] == ps + qs[..n];
      FramesConcat(id, ps, qs[..n]);
      assert Frames(id, ps) + (Frames(id, qs[..n]) + Frame(id, qs[n])) == (Frames(id, ps) + Frames(id, qs[..n])) + Frame(id, qs[n]);
    }
  }

  lemma FramesOne(id: Word, p: Packet)
    ensures Frames(id, [p]) == Frame(id, p)
  {
    assert [p][..0] == [];
  }

  lemma FramesCons(id: Word, p: Packet, ps: seq<Packet>)
    ensures Frames(id, [p] + ps) == Frame(id, p) + Frames(id, ps)
  {
    FramesConcat(id, [p], ps);
    FramesOne(id, p);
  }

  // ---------------------------------------------------------------- receiver

  /** What a receiver makes of a byte stream: the packets completed so far, and
      whether it has declared the stream broken: a length above MAX_PACKET, or a
      checksum that is not the 0 it computes itself. */
  datatype Received = Received(packets: seq<Packet>, broken: bool)

  /** The frame of len bytes that s starts with ends in a zero checksum. */
  predicate Closed(s: seq<byte>, len: nat)
    requires |s| >= FrameLen(len)
  {
    s[FrameLen(len) - TAIL_LEN..FrameLen(len)] == [0, 0]
  }

  function Deframe(s: seq<byte>): (r: Received)
    decreases |s|
  {
    if |s| < HEAD_LEN then Received([], false)
    else
      var len := Un16(s);
      if len > MAX_PACKET then Received([], true)
      else if |s| < FrameLen(len) then Received([], false)
      else if !Closed(s, len) then Received([], true)
      else
        var more := Deframe(s[FrameLen(len)..]);
        Received([Packet(Un16(s[2..]), s[HEAD_LEN..HEAD_LEN + len])] + more.packets, more.broken)
  }

  /** A packet the receiving side is willing to take. */
  predicate Deliverable(p: Packet) { |p.payload| <= MAX_PACKET }

  predicate AllDeliverable(ps: seq<Packet>) {
    forall i :: 0 <= i < |ps| ==> Deliverable(ps[i])
  }

  lemma FrameHeader(id: Word, p: Packet, rest: seq<byte>)
    ensures var s := Frame(id, p) + rest;
            && |s| >= FrameLen(|p.payload|)
            && Un16(s) == |p.payload| % 0x1_0000
            && Un16(s[2..]) == p.kind
            && s[HEAD_LEN..HEAD_LEN + |p.payload|] == p.payload
            && s[FrameLen(|p.payload|)..] == rest
            && Closed(s, |p.payload|)
  {
    var f := Frame(id, p);
    assert f[0..2] == Be16(|p.payload| % 0x1_0000);
    assert f[2..4] == Be16(p.kind);
    assert f[HEAD_LEN..HEAD_LEN + |p.payload|] == p.payload;
  }

  /** How the receiver reads a stream whose first frame has length word `len`. */
  lemma DeframeHead(s: seq<byte>, len: nat)
    requires |s| >= FrameLen(len) && len <= MAX_PACKET && Un16(s) == len
    ensures var more := Deframe(s[FrameLen(len)..]);
            Deframe(s) == if Closed(s, len)
                          then Received([Packet(Un16(s[2..]), s[HEAD_LEN..HEAD_LEN + len])] + more.packets, more.broken)
                          else Received([], true)
  {
  }

  /** One whole deliverable frame in front is received whole. */
  lemma DeframeStep(id: Word, p: Packet, f: seq<byte>, rest: seq<byte>)
    requires Deliverable(p) && f == Frame(id, p)
    ensures Deframe(f + rest)
         == Received([p] + Deframe(rest).packets, Deframe(rest).broken)
  {
    FrameHeader(id, p, rest);
    DeframeHead(f + rest, |p.payload|);
  }

  /** A frame that has not arrived whole yields nothing yet. */
  lemma PartialFrame(s: seq<byte>, len: nat, got: seq<byte>)
    requires |s| >= HEAD_LEN && Un16(s) == len && len <= MAX_PACKET
    requires got <= s && |got| < FrameLen(len)
    ensures Deframe(got) == Received([], false)
  {
    if |got| >= HEAD_LEN {
      assert got[0] == s[0] && got[1] == s[1];
    }
  }

  /** Whatever prefix of the frames of `ps` has arrived, the receiver holds a
      prefix of `ps`; once all of it has arrived it holds exactly `ps`. */
  lemma {:induction false} PrefixDeframes(id: Word, ps: seq<Packet>, got: seq<byte>)
    requires AllDeliverable(ps)
    requires got <= Frames(id, ps)
    ensures !Deframe(got).broken
    ensures Deframe(got).packets <= ps
    ensures got == Frames(id, ps) ==> Deframe(got).packets == ps
    decreases |ps|
  {
    hide *;
    if ps == [] {
      NothingDeframes(id);
      assert got == [];
    } else {
      var p, qs := ps[0], ps[1..];
      assert ps == [p] + qs;
      HeadDeliverable(p, qs);
      FramesCons(id, p, qs);
      var f, rest := Frame(id, p), Frames(id, qs);
      if |got| < |f| {
        PartialHead(id, p, rest, got);
      } else {
        SplitPrefix(f, rest, got);
        PrefixDeframes(id, qs, got[|f|..]);
        DeframeStep(id, p, f, got[|f|..]);
        GrowPrefix(p, Deframe(got[|f|..]).packets, qs);
      }
    }
  }

  lemma NothingDeframes(id: Word)
    ensures Frames(id, []) == [] && Deframe([]) == Received([], false) && AllDeliverable([])
  {
  }

  lemma HeadDeliverable(p: Packet, qs: seq<Packet>)
    requires AllDeliverable([p] + qs)
    ensures Deliverable(p) && AllDeliverable(qs)
  {
    assert ([p] + qs)[0] == p;
    assert forall i :: 0 <= i < |qs| ==> ([p] + qs)[i + 1] == qs[i];
  }

  lemma FrameLength(id: Word, p: Packet)
    ensures |Frame(id, p)| == FrameLen(|p.payload|) >= HEAD_LEN
  {
  }

  /** Part of the first frame is nothing to the receiver. */
  lemma PartialHead(id: Word, p: Packet, rest: seq<byte>, got: seq<byte>)
    requires Deliverable(p) && got <= Frame(id, p) + rest && |got| < |Frame(id, p)|
    ensures Deframe(got) == Received([], false) && got != Frame(id, p) + rest
  {
    hide Frame, Deframe, Un16;
    FrameHeader(id, p, rest);
    FrameLength(id, p);
    PartialFrame(Frame(id, p) + rest, |p.payload|, got);
  }

  lemma GrowPrefix(p: Packet, a: seq<Packet>, b: seq<Packet>)
    requires a <= b
    ensures [p] + a <= [p] + b
  {
  }

  lemma SplitPrefix(f: seq<byte>, rest: seq<byte>, got: seq<byte>)
    requires got <= f + rest && |got| >= |f|
    ensures got == f + got[|f|..] && got[|f|..] <= rest
    ensures got == f + rest ==> got[|f|..] == rest
  {
    assert (f + rest)[|f|..] == rest;
  }

  /** The receiver recovers a stream of packets exactly when each of them keeps
      to the receiver's limit. The sender itself never checks that limit. */
  lemma {:induction false} DeframeExact(id: Word, ps: seq<Packet>)
    ensures Deframe(Frames(id, ps)) == Received(ps, false) <==> AllDeliverable(ps)
    decreases |ps|
  {
    hide *;
    if ps == [] {
      NothingDeframes(id);
    } else {
      var p, qs := ps[0], ps[1..];
      assert ps == [p] + qs;
      FramesCons(id, p, qs);
      if Deliverable(p) {
        DeframeExact(id, qs);
        DeframeStep(id, p, Frame(id, p), Frames(id, qs));
        SameAfterHead(p, Deframe(Frames(id, qs)).packets, qs);
      } else {
        TooLongIsLost(id, p, qs, Frames(id, qs));
      }
    }
  }

  lemma SameAfterHead(p: Packet, a: seq<Packet>, b: seq<Packet>)
    requires Deliverable(p)
    ensures [p] + a == [p] + b <==> a == b
    ensures AllDeliverable([p] + b) <==> AllDeliverable(b)
  {
    assert ([p] + a)[1..] == a && ([p] + b)[1..] == b;
    assert ([p] + b)[0] == p;
    assert forall i :: 0 <= i < |b| ==> ([p] + b)[i + 1] == b[i];
  }

  /** A packet over the limit is not received as it was sent. */
  lemma TooLongIsLost(id: Word, p: Packet, qs: seq<Packet>, rest: seq<byte>)
    requires !Deliverable(p)
    ensures !AllDeliverable([p] + qs) && Deframe(Frame(id, p) + rest) != Received([p] + qs, false)
  {
    assert ([p] + qs)[0] == p;
    FrameHeader(id, p, rest);
    hide Frame, Un16;
    var s := Frame(id, p) + rest;
    var len := Un16(s);
    if len <= MAX_PACKET && |s| >= FrameLen(len) {
      DeframeHead(s, len);
      hide Deframe;
      assert Closed(s, len) ==> |Deframe(s).packets[0].payload| == len;
    }
  }
}
