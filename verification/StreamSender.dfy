/** The ordered stream sender: a ring of queued packets, one half-sent frame
    waiting to be put again ("reput"), an immediate-send shortcut and a resend
    loop. The agent and both sides of the hub carry a copy of it; they differ in
    whether the entry point looks at the connection state and in the resend limit. */
module StreamSender {
  import opened Bytes
  import opened Framing

  const SMALL_PACKET := 800

  datatype Conn = NotConnected | Open | Exit

  /** One ring entry; a packet without payload has no buffer. */
  datatype Slot = Slot(kind: Word, len: nat, buf: Option<seq<byte>>)
  {
    predicate Sound() {
      && (buf.Some? ==> |buf.value| == len)
      && (len > 0 ==> buf.Some?)
    }

    function AsPacket(): Packet {
      Packet(kind, if buf.Some? then buf.value else [])
    }
  }

  function PayloadBytes(ps: seq<Packet>): nat {
    if ps == [] then 0 else PayloadBytes(ps[..|ps| - 1]) + |ps[|ps| - 1].payload|
  }

  lemma NoPayload(ps: seq<Packet>)
    ensures PayloadBytes(ps[..0]) == 0
  {
  }

  lemma {:induction false} PayloadStep(ps: seq<Packet>, k: nat)
    requires k < |ps|
    ensures PayloadBytes(ps[..k + 1]) == PayloadBytes(ps[..k]) + |ps[k].payload|
  {
    assert ps[..k + 1][..k] == ps[..k];
  }

  /** Memory from offset `off` up to `len` of a buffer; an offset driven below
      zero reads whatever precedes the buffer. */
  function Window(stray: int -> byte, buf: seq<byte>, off: int, len: int): (r: seq<byte>)
    ensures 0 <= off <= len == |buf| ==> r == buf[off..]
    ensures |r| == if off <= len then len - off else 0
  {
    if len < off then []
    else seq(len - off, i => if 0 <= off + i < |buf| then buf[off + i] else stray(off + i))
  }

  lemma WindowAt(stray: int -> byte, buf: seq<byte>, off: int, len: int, i: nat)
    requires off + i < len
    ensures Window(stray, buf, off, len)[i] == if 0 <= off + i < |buf| then buf[off + i] else stray(off + i)
  {
  }

  /** Sending the first n bytes of a window leaves the window n bytes further on. */
  lemma WindowAdvance(stray: int -> byte, buf: seq<byte>, off: int, len: int, n: nat)
    requires off + n <= len
    ensures Window(stray, buf, off, len)
         == Window(stray, buf, off, len)[..n] + Window(stray, buf, off + n, len)
  {
    hide Window;
    var w, v := Window(stray, buf, off, len), Window(stray, buf, off + n, len);
    forall i | n <= i < |w| ensures w[i] == v[i - n] {
      WindowAt(stray, buf, off, len, i);
      WindowAt(stray, buf, off + n, len, i - n);
    }
  }

  /** The concrete failure behind `failedRetries`: the retry adds send's error
      return -1 to the offset, so the last byte already sent is sent again. */
  lemma FailedRetryDoublesAByte(stray: int -> byte, buf: seq<byte>, off: nat)
    requires 0 < off < |buf|
    ensures buf[..off] + Window(stray, buf, off + -1, |buf|) == buf[..off] + [buf[off - 1]] + buf[off..]
    ensures buf[..off] + Window(stray, buf, off + -1, |buf|) != buf
  {
    var again := Window(stray, buf, off + -1, |buf|);
    assert again == [buf[off - 1]] + buf[off..];
    assert |buf[..off] + again| == |buf| + 1;
  }

  /** The books of an open connection. `out` is what has left the ring: the
      bytes on the wire and the unsent end of the half-sent frame. Every retry
      that failed has put one byte too many; without any, nothing is lost,
      doubled or out of order. */
  ghost predicate Accounts(id: Word, out: seq<byte>, queue: seq<Packet>, accepted: seq<Packet>, failedRetries: nat) {
    && |out| + |Frames(id, queue)| == |Frames(id, accepted)| + failedRetries
    && (failedRetries == 0 ==> out + Frames(id, queue) == Frames(id, accepted))
  }

  /** Moving the frame of the queue's head out of the ring keeps the books. */
  lemma HeadLeaves(id: Word, out: seq<byte>, queue: seq<Packet>, accepted: seq<Packet>, failedRetries: nat)
    requires queue != []
    requires Accounts(id, out, queue, accepted, failedRetries)
    ensures Accounts(id, out + Frame(id, queue[0]), queue[1..], accepted, failedRetries)
  {
    hide Frame, Frames;
    assert queue == [queue[0]] + queue[1..];
    FramesCons(id, queue[0], queue[1..]);
    Regroup(out, Frame(id, queue[0]), Frames(id, queue[1..]));
  }

  /** Accepting a packet at the end of the ring keeps the books. */
  lemma TailJoins(id: Word, out: seq<byte>, queue: seq<Packet>, accepted: seq<Packet>, failedRetries: nat, p: Packet)
    requires Accounts(id, out, queue, accepted, failedRetries)
    ensures Accounts(id, out, queue + [p], accepted + [p], failedRetries)
  {
    hide Frame, Frames;
    FramesConcat(id, queue, [p]);
    FramesConcat(id, accepted, [p]);
    FramesOne(id, p);
    Regroup(out, Frames(id, queue), Frame(id, p));
  }

  /** With an empty ring, so does sending it straight away. */
  lemma Bypass(id: Word, out: seq<byte>, accepted: seq<Packet>, failedRetries: nat, p: Packet)
    requires Accounts(id, out, [], accepted, failedRetries)
    ensures Accounts(id, out + Frame(id, p), [], accepted + [p], failedRetries)
  {
    FramesConcat(id, accepted, [p]);
    FramesOne(id, p);
    assert out + Frames(id, []) == out;
  }

  class Sender {
    const id: Word
    const checksOpen: bool      // does the entry point refuse a connection that is not open?
    const canImmed: int         // 0 never, 1 small packets only, above 1 always
    const resendLimit: int      // payload bytes per resend pass, 0 for no limit
    const stray: int -> byte    // what lies around a frame buffer in memory

    var conn: Conn
    var qBuf: array<Slot>
    var qLen: nat
    var qRd: nat
    var qWr: nat
    var reputLen: int
    var reputOff: int
    var reputBuf: seq<byte>

    ghost var queue: seq<Packet>        // the packets in the ring, oldest first

    // The world outside, as far as the statements below speak of it.
    ghost var wire: seq<byte>           // every byte the socket has taken
    ghost var accepted: seq<Packet>     // every packet SendPacket has said OK to
    ghost var shortfalls: nat           // short or failed sends and failed allocations
    ghost var denials: nat              // those of them after which nothing more can be done now
    ghost var failedRetries: nat        // error returns from send on the retry path
    ghost var breaks: nat               // sends of a new frame that cut it off for good

    // ------------------------------------------------------------ state

    /** Ring position of the i-th queued packet. */
    function Wrap(i: nat): nat
      reads this`qBuf
    {
      if i < qBuf.Length then i else i - qBuf.Length
    }

    predicate RingShape()
      reads this`qBuf, this`qLen, this`qRd, this`qWr
    {
      && qLen <= qBuf.Length
      && (qBuf.Length == 0 ==> qRd == qWr == 0)
      && (qBuf.Length > 0 ==> qRd < qBuf.Length && qWr == Wrap(qRd + qLen))
    }

    function SlotAt(i: nat): Slot
      requires RingShape() && i < qLen
      reads this`qBuf, this`qLen, this`qRd, this`qWr, qBuf
    {
      qBuf[Wrap(qRd + i)]
    }

    /** The part of the half-sent frame still to be put. */
    function Rest(): (r: seq<byte>)
      reads this`reputLen, this`reputOff, this`reputBuf
    {
      if reputLen < 0 then [] else Window(stray, reputBuf, reputOff, reputLen)
    }

    ghost predicate RingSound()
      reads this`qBuf, this`qLen, this`qRd, this`qWr, this`queue, qBuf
    {
      && RingShape()
      && |queue| == qLen
      && (forall i :: 0 <= i < qLen ==> SlotAt(i).Sound() && SlotAt(i).AsPacket() == queue[i])
    }

    predicate ReputSound()
      reads this`reputLen, this`reputOff, this`reputBuf
    {
      reputLen >= 0 ==> reputLen == |reputBuf| && reputOff < reputLen
    }

    /** Everything accepted is on the wire, half sent, or queued, in that order. */
    ghost predicate Conserved()
      reads this
    {
      wire + Rest() + Frames(id, queue) == Frames(id, accepted)
    }

    ghost predicate Valid()
      reads this, qBuf
    {
      && RingSound()
      && ReputSound()
      && (conn == Open ==> Accounts(id, wire + Rest(), queue, accepted, failedRetries))
    }

    constructor (id: Word, size: nat, checksOpen: bool, canImmed: int, resendLimit: int, stray: int -> byte)
      ensures Valid() && fresh(qBuf) && conn == Open
      ensures wire == [] && accepted == [] && shortfalls == denials == failedRetries == breaks == 0
    {
      this.id, this.checksOpen, this.canImmed := id, checksOpen, canImmed;
      this.resendLimit, this.stray := resendLimit, stray;
      conn := Open;
      qBuf := new Slot[size](_ => Slot(0, 0, None));
      qLen, qRd, qWr := 0, 0, 0;
      reputLen, reputOff, reputBuf := -1, -1, [];
      queue := [];
      wire, accepted, shortfalls, denials, failedRetries, breaks := [], [], 0, 0, 0, 0;
    }

    // ------------------------------------------------------------ environment

    /** The socket: it takes any prefix of the bytes offered, or reports an error.
        Of a half-sent frame anything short of the rest is a denial. A new frame is
        broken when it is cut short with a broken pipe or within its header; it is
        denied when it is broken or nothing of it is taken. */
    method Send(data: seq<byte>) returns (n: int, epipe: bool)
      modifies this`wire, this`shortfalls, this`denials, this`failedRetries, this`breaks
      ensures -1 <= n <= |data|
      ensures wire == old(wire) + data[..if n < 0 then 0 else n]
      ensures shortfalls == old(shortfalls) + if n < |data| then 1 else 0
      ensures failedRetries == old(failedRetries) + if reputLen >= 0 && n < 0 then 1 else 0
      ensures breaks == old(breaks) + if Breaks(|data|, n, epipe) then 1 else 0
      ensures denials == old(denials) + if n < |data| && (reputLen >= 0 || n <= 0 || Breaks(|data|, n, epipe)) then 1 else 0
    {
      n := *;
      if n < -1 || n > |data| { n := -1; }
      epipe := *;
      wire := wire + data[..if n < 0 then 0 else n];
      shortfalls := shortfalls + if n < |data| then 1 else 0;
      failedRetries := failedRetries + if reputLen >= 0 && n < 0 then 1 else 0;
      breaks := breaks + if Breaks(|data|, n, epipe) then 1 else 0;
      denials := denials + if n < |data| && (reputLen >= 0 || n <= 0 || Breaks(|data|, n, epipe)) then 1 else 0;
    }

    ghost predicate Breaks(size: nat, n: int, epipe: bool)
      reads this`reputLen
    {
      reputLen < 0 && n < size && (epipe || 0 < n < HEAD_LEN)
    }

    /** The allocator: it may run out of memory at any time. */
    method Allocate() returns (got: bool)
      modifies this`shortfalls, this`denials
      ensures shortfalls == old(shortfalls) + if got then 0 else 1
      ensures denials == old(denials) + if got then 0 else 1
    {
      got := *;
      shortfalls := shortfalls + if got then 0 else 1;
      denials := denials + if got then 0 else 1;
    }

    // ------------------------------------------------------------ operations

    /** Finish the half-sent frame, if there is one. */
    method RetryReput() returns (ok: bool)
      requires ReputSound()
      modifies this`wire, this`shortfalls, this`denials, this`failedRetries, this`breaks,
               this`reputLen, this`reputOff, this`reputBuf
      ensures ReputSound() && breaks == old(breaks)
      ensures ok <==> reputLen < 0
      ensures denials == old(denials) + if ok then 0 else 1
      ensures shortfalls == old(shortfalls) + if ok then 0 else 1
      ensures old(reputLen) < 0 ==> ok && wire == old(wire)
      ensures ok ==> failedRetries == old(failedRetries)
      ensures failedRetries == old(failedRetries) || failedRetries == old(failedRetries) + 1
      ensures failedRetries == old(failedRetries) ==> wire + Rest() == old(wire + Rest())
      ensures |wire| + |Rest()| == |old(wire + Rest())| + failedRetries - old(failedRetries)
    {
      if reputLen >= 0 {
        hide Window;
        var blen := reputLen - reputOff;
        ghost var rest := Rest();
        var n, epipe := Send(Rest());
        reputOff := reputOff + n;
        if n < blen {
          if n >= 0 {
            WindowAdvance(stray, reputBuf, old(reputOff), reputLen, n);
            Regroup(old(wire), rest[..n], Rest());
          } else {
            assert wire == old(wire) + [];
          }
          return false;
        }
        assert rest[..n] == rest;
        reputBuf, reputOff, reputLen := [], -1, -1;
        assert wire + Rest() == old(wire) + rest;
      }
      ok := true;
    }

    /** Push a new frame out at once, keeping its unsent end as the half-sent frame.
        The connection ends exactly when the frame is broken. */
    method PutFrame(p: Packet) returns (ok: bool)
      requires reputLen < 0
      modifies this`wire, this`shortfalls, this`denials, this`failedRetries, this`breaks,
               this`reputLen, this`reputOff, this`reputBuf, this`conn
      ensures ReputSound() && failedRetries == old(failedRetries)
      ensures ok <==> denials == old(denials)
      ensures ok ==> wire + Rest() == old(wire) + Frame(id, p)
      ensures !ok ==> reputLen < 0 && (breaks == old(breaks) ==> wire == old(wire))
      ensures old(breaks) <= breaks && conn == if breaks == old(breaks) then old(conn) else Exit
      ensures breaks > old(breaks) ==> !ok
      ensures old(denials) <= denials <= old(denials) + 1 && old(shortfalls) <= shortfalls <= old(shortfalls) + 1
      ensures shortfalls > old(shortfalls) <==> !ok || reputLen >= 0
    {
      var got := Allocate();
      if !got { return false; }
      var buf := Frame(id, p);
      var n, epipe := Send(buf);
      if n == |buf| {
        assert buf[..n] == buf;
        return true;
      }
      if epipe {
        conn := Exit;
        return false;
      }
      if 0 < n < HEAD_LEN {
        conn := Exit;
        return false;
      }
      if n <= 0 { return false; }
      reputBuf, reputOff, reputLen := buf, n, |buf|;
      assert Rest() == buf[n..];
      ok := true;
    }

    /** One step of the stream: retry first, then, for a length that is not
        negative, the new packet. */
    method PokeStream(kind: Word, len: int, dp: Option<seq<byte>>) returns (ok: bool)
      requires ReputSound()
      requires dp.Some? ==> |dp.value| >= len
      modifies this`wire, this`shortfalls, this`denials, this`failedRetries, this`breaks,
               this`reputLen, this`reputOff, this`reputBuf, this`conn
      ensures ReputSound()
      ensures old(breaks) <= breaks && conn == if breaks == old(breaks) then old(conn) else Exit
      ensures old(failedRetries) <= failedRetries <= old(failedRetries) + 1
      ensures failedRetries > old(failedRetries) || breaks > old(breaks) ==> !ok
      ensures ok && len < 0 ==> reputLen < 0
      ensures ok && len < 0 ==> wire + Rest() == old(wire + Rest())
      ensures ok && len >= 0 ==> wire + Rest() == old(wire + Rest()) + Frame(id, Packet(kind, Payload(len, dp)))
      ensures !ok && breaks == old(breaks) && failedRetries == old(failedRetries) ==> wire + Rest() == old(wire + Rest())
      ensures !ok && breaks == old(breaks) ==> |wire| + |Rest()| == |old(wire + Rest())| + failedRetries - old(failedRetries)
      ensures ok <==> denials == old(denials) && (len > 0 ==> dp.Some?)
      ensures old(denials) <= denials <= old(denials) + 1 && old(shortfalls) <= shortfalls <= old(shortfalls) + 1
      ensures denials > old(denials) ==> shortfalls > old(shortfalls)
      ensures shortfalls > old(shortfalls) ==> denials > old(denials) || reputLen >= 0
      ensures shortfalls == old(shortfalls) ==> reputLen < 0
    {
      hide Window, Frame;
      ok := RetryReput();
      if !ok { return; }
      if len < 0 { return true; }
      if len > 0 && dp.None? { return false; }
      ok := PutFrame(Packet(kind, Payload(len, dp)));
    }

    static function Payload(len: int, dp: Option<seq<byte>>): seq<byte>
      requires dp.Some? ==> |dp.value| >= len
    {
      if len <= 0 || dp.None? then [] else dp.value[..len]
    }

    /** Drop the ring entry just sent. */
    method Dequeue()
      requires RingSound() && qLen > 0
      modifies this`qRd, this`qLen, this`queue, qBuf
      ensures RingSound()
      ensures queue == old(queue)[1..]
    {
      qBuf[qRd] := Slot(0, 0, None);
      qRd := qRd + 1;
      if qRd == qBuf.Length { qRd := 0; }
      qLen := qLen - 1;
      queue := queue[1..];
      assert forall i :: 0 <= i < qLen ==> SlotAt(i) == old(SlotAt(i + 1));
    }

    /** Append a packet to the ring. */
    method Enqueue(kind: Word, len: nat, buf: Option<seq<byte>>)
      requires RingSound() && qLen < qBuf.Length
      requires Slot(kind, len, buf).Sound()
      modifies this`qWr, this`qLen, this`queue, qBuf
      ensures RingSound()
      ensures queue == old(queue) + [Slot(kind, len, buf).AsPacket()]
    {
      qBuf[qWr] := Slot(kind, len, buf);
      qWr := qWr + 1;
      if qWr == qBuf.Length { qWr := 0; }
      qLen := qLen + 1;
      queue := queue + [Slot(kind, len, buf).AsPacket()];
      assert forall i :: 0 <= i < qLen - 1 ==> SlotAt(i) == old(SlotAt(i));
    }

    /** Finish the half-sent frame on its own, if there is one. */
    method FlushReput() returns (ok: bool)
      requires Valid()
      modifies this`wire, this`shortfalls, this`denials, this`failedRetries, this`breaks,
               this`reputLen, this`reputOff, this`reputBuf, this`conn
      ensures Valid() && (ok ==> reputLen < 0)
      ensures old(breaks) <= breaks && conn == if breaks == old(breaks) then old(conn) else Exit
      ensures old(denials) <= denials && (ok <==> denials == old(denials))
      ensures shortfalls == old(shortfalls) + if ok then 0 else 1
    {
      ok := true;
      if reputLen >= 0 {
        ok := PokeStream(0, -1, None);
      }
    }

    /** Push the oldest queued packet out and drop it from the ring. */
    method SendHead() returns (ok: bool, len: nat)
      requires Valid() && qLen > 0
      modifies this`wire, this`shortfalls, this`denials, this`failedRetries, this`breaks,
               this`reputLen, this`reputOff, this`reputBuf, this`conn, this`qRd, this`qLen, this`queue, qBuf
      ensures Valid()
      ensures old(breaks) <= breaks && conn == if breaks == old(breaks) then old(conn) else Exit
      ensures |old(queue)| == old(qLen) && len == |old(queue)[0].payload| && |queue| == qLen
      ensures queue == if ok then old(queue)[1..] else old(queue)
      ensures old(denials) <= denials && (ok <==> denials == old(denials))
      ensures old(shortfalls) <= shortfalls <= old(shortfalls) + 1
      ensures shortfalls > old(shortfalls) <==> !ok || reputLen >= 0
    {
      hide Frame, Frames;
      var pkt := SlotAt(0);
      assert Packet(pkt.kind, Payload(pkt.len, pkt.buf)) == queue[0];
      len := pkt.len;
      ok := PokeStream(pkt.kind, pkt.len, pkt.buf);
      if ok {
        if conn == Open {
          HeadLeaves(id, old(wire + Rest()), queue, accepted, failedRetries);
        }
        Dequeue();
      }
    }

    /** Retry the half-sent frame and drain the ring until the socket pushes
        back, the ring is empty, or the resend limit is passed. */
    method ResendStream() returns (ghost sent: nat)
      requires Valid()
      modifies this`wire, this`shortfalls, this`denials, this`failedRetries, this`breaks,
               this`reputLen, this`reputOff, this`reputBuf, this`conn, this`qRd, this`qLen, this`queue, qBuf
      ensures Valid()
      ensures old(breaks) <= breaks && conn == if breaks == old(breaks) then old(conn) else Exit
      ensures sent <= |old(queue)| && queue == old(queue)[sent..]
      // it stops at the first push from outside, and as soon as the resend limit is passed
      ensures old(shortfalls) <= shortfalls <= old(shortfalls) + 1
      ensures resendLimit != 0 && sent > 1 ==> PayloadBytes(old(queue)[..sent - 1]) <= resendLimit
      // and at nothing else
      ensures shortfalls == old(shortfalls) ==> reputLen < 0 && denials == old(denials)
      ensures shortfalls > old(shortfalls) ==> denials > old(denials) || reputLen >= 0
      ensures shortfalls == old(shortfalls) && qLen > 0
           ==> resendLimit != 0 && PayloadBytes(old(queue)[..sent]) > resendLimit
    {
      hide *;
      sent := 0;
      var total, more := 0, true;
      ghost var q0, last := queue, 0;
      NoPayload(q0);
      assert q0[0..] == q0;
      while more
        invariant Valid()
        invariant old(breaks) <= breaks && conn == if breaks == old(breaks) then old(conn) else Exit
        invariant sent <= |q0| && queue == q0[sent..] && total == PayloadBytes(q0[..sent])
        invariant sent > 0 ==> last == PayloadBytes(q0[..sent - 1])
        invariant resendLimit != 0 && sent > 1 ==> last <= resendLimit
        invariant more ==> shortfalls == old(shortfalls) && denials == old(denials)
        invariant more && resendLimit != 0 && sent > 0 ==> total <= resendLimit
        invariant !more ==> Pushed(old(shortfalls), old(denials)) && (shortfalls == old(shortfalls) && qLen > 0 ==> resendLimit != 0 && total > resendLimit)
        decreases more, qLen
      {
        ghost var was := total;
        ghost var n;
        more, n, total := SendOneMore(q0, sent, total);
        if n > sent { last := was; }
        sent := n;
      }
      PushedParts(old(shortfalls), old(denials));
    }

    /** The outside pushed back at most once, and only so far. */
    ghost predicate Pushed(shortfalls0: nat, denials0: nat)
      reads this`shortfalls, this`denials, this`reputLen
    {
      && shortfalls0 <= shortfalls <= shortfalls0 + 1
      && if shortfalls == shortfalls0 then reputLen < 0 && denials == denials0 else denials > denials0 || reputLen >= 0
    }

    lemma PushedParts(shortfalls0: nat, denials0: nat)
      requires Pushed(shortfalls0, denials0)
      ensures shortfalls0 <= shortfalls <= shortfalls0 + 1
      ensures shortfalls == shortfalls0 ==> reputLen < 0 && denials == denials0
      ensures shortfalls > shortfalls0 ==> denials > denials0 || reputLen >= 0
    {
    }

    /** One round of the resend loop. */
    method SendOneMore(ghost q0: seq<Packet>, ghost sent0: nat, total0: nat) returns (more: bool, ghost sent: nat, total: nat)
      requires Valid() && sent0 <= |q0| && queue == q0[sent0..] && total0 == PayloadBytes(q0[..sent0])
      modifies this`wire, this`shortfalls, this`denials, this`failedRetries, this`breaks,
               this`reputLen, this`reputOff, this`reputBuf, this`conn, this`qRd, this`qLen, this`queue, qBuf
      ensures Valid()
      ensures old(breaks) <= breaks && conn == if breaks == old(breaks) then old(conn) else Exit
      ensures sent0 <= sent <= |q0| && sent <= sent0 + 1 && queue == q0[sent..] && total == PayloadBytes(q0[..sent])
      ensures Pushed(old(shortfalls), old(denials))
      ensures more <==> shortfalls == old(shortfalls) && qLen > 0 && (resendLimit == 0 || total <= resendLimit)
      ensures more ==> sent == sent0 + 1 && qLen < old(qLen) && denials == old(denials)
      ensures shortfalls == old(shortfalls) && qLen > 0 ==> sent == sent0 + 1
    {
      hide PayloadBytes, Accounts, Window, RingShape;
      sent, total := sent0, total0;
      var ok := FlushReput();
      if !ok || qLen == 0 { return false, sent, total; }
      var len;
      ok, len := SendHead();
      if !ok { return false, sent, total; }
      total := total + len;
      PayloadStep(q0, sent);
      sent := sent + 1;
      if qLen == 0 || reputLen >= 0 { return false, sent, total; }
      more := resendLimit == 0 || total <= resendLimit;
    }

    /** The immediate-send shortcut, taken only when nothing is waiting. */
    method SendNow(kind: Word, len: nat, data: Option<seq<byte>>) returns (ok: bool)
      requires Valid() && qLen == 0 && reputLen < 0
      requires data.Some? ==> |data.value| >= len
      requires len > 0 ==> data.Some?
      modifies this`wire, this`shortfalls, this`denials, this`failedRetries, this`breaks,
               this`reputLen, this`reputOff, this`reputBuf, this`conn, this`accepted
      ensures Valid()
      ensures old(breaks) <= breaks && conn == if breaks == old(breaks) then old(conn) else Exit
      ensures accepted == if ok then old(accepted) + [Packet(kind, Payload(len, data))] else old(accepted)
      ensures denials == old(denials) + if ok then 0 else 1
    {
      ok := PokeStream(kind, len, data);
      if ok {
        if conn == Open {
          assert queue == [];
          Bypass(id, old(wire + Rest()), accepted, failedRetries, Packet(kind, Payload(len, data)));
        }
        accepted := accepted + [Packet(kind, Payload(len, data))];
      }
    }

    /** Copy a packet into the ring. */
    method SendLater(kind: Word, len: nat, data: Option<seq<byte>>) returns (ok: bool)
      requires Valid()
      requires data.Some? ==> |data.value| >= len
      requires len > 0 ==> data.Some?
      modifies this`qWr, this`qLen, this`queue, this`shortfalls, this`denials, this`accepted, qBuf
      ensures Valid()
      ensures accepted == if ok then old(accepted) + [Packet(kind, Payload(len, data))] else old(accepted)
      ensures queue == if ok then old(queue) + [Packet(kind, Payload(len, data))] else old(queue)
      ensures ok <==> old(qLen) != qBuf.Length && denials == old(denials)
      ensures old(denials) <= denials && ((len == 0 || old(qLen) == qBuf.Length) ==> denials == old(denials))
    {
      hide Frame, Frames;
      if qLen == qBuf.Length { return false; }
      var buf := None;
      if len != 0 {
        var got := Allocate();
        if !got { return false; }
        buf := Some(data.value[..len]);
      }
      Enqueue(kind, len, buf);
      if conn == Open {
        TailJoins(id, wire + Rest(), old(queue), accepted, failedRetries, Packet(kind, Payload(len, data)));
      }
      accepted := accepted + [Packet(kind, Payload(len, data))];
      ok := true;
    }

    /** Is a packet sent past the ring? Only when nothing is waiting, and then if all
        packets may, or small ones may and it is small. */
    ghost predicate GoesAtOnce(len: int)
      reads this`qLen, this`reputLen
    {
      qLen == 0 && reputLen < 0 && (canImmed > 1 || (canImmed != 0 && len < SMALL_PACKET))
    }

    ghost predicate Refused(len: int, data: Option<seq<byte>>)
      reads this`conn
    {
      len < 0 || (len > 0 && data.None?) || (checksOpen && conn != Open)
    }

    /** Send a packet now or later. OK means it has been taken on; an error
        means it has not, and why. */
    method SendPacket(kind: Word, len: int, data: Option<seq<byte>>) returns (ok: bool)
      requires Valid()
      requires data.Some? ==> |data.value| >= len
      modifies this, qBuf
      ensures Valid() && qBuf == old(qBuf)
      ensures old(breaks) <= breaks && conn == if breaks == old(breaks) then old(conn) else Exit
      ensures accepted == if ok then old(accepted) + [Packet(kind, Payload(len, data))] else old(accepted)
      ensures old(denials) <= denials
      ensures old(Refused(len, data)) ==> !ok && wire == old(wire) && queue == old(queue) && denials == old(denials)
      // past the ring, unless that is denied; then, as always otherwise, into the ring
      ensures !old(Refused(len, data)) && old(GoesAtOnce(len)) ==>
        && (denials == old(denials) ==> ok && queue == [])
        && (denials > old(denials) ==> (ok <==> qBuf.Length > 0 && denials == old(denials) + 1)
                                       && queue == if ok then [Packet(kind, Payload(len, data))] else [])
      ensures !old(Refused(len, data)) && !old(GoesAtOnce(len)) ==>
        && wire == old(wire) && Rest() == old(Rest()) && conn == old(conn)
        && (ok <==> old(qLen) != qBuf.Length && denials == old(denials))
        && queue == if ok then old(queue) + [Packet(kind, Payload(len, data))] else old(queue)
      ensures ok && len == 0 ==> Payload(len, data) == []
      ensures ok && len != 0 ==> len > 0 && data.Some? && Payload(len, data) == data.value[..len]
    {
      if len < 0 || (len > 0 && data.None?) { return false; }
      if checksOpen && conn != Open { return false; }
      if qLen == 0 && reputLen < 0 && canImmed != 0 && (len < SMALL_PACKET || canImmed > 1) {
        ok := SendNow(kind, len, data);
        if ok { return; }
      }
      ok := SendLater(kind, len, data);
    }

    // ------------------------------------------------------------ what follows

    /** Whole runs: whatever the program sends and however the socket and the
        allocator behave, a connection that is still open has neither lost,
        doubled nor reordered a byte, up to one doubled byte for each retry on
        which send reported an error; and it is exact if and only if there was
        no such retry. An open connection stays open if and only if no new frame
        was broken. */
    method Run(ops: seq<Op>)
      requires Valid()
      modifies this, qBuf
      ensures Valid()
      ensures conn == Open ==> (Conserved() <==> failedRetries == 0)
      ensures conn == Open ==> |wire + Rest() + Frames(id, queue)| == |Frames(id, accepted)| + failedRetries
      ensures old(breaks) <= breaks && conn == if breaks == old(breaks) then old(conn) else Exit
    {
      var i := 0;
      while i < |ops|
        invariant Valid() && qBuf == old(qBuf)
        invariant old(breaks) <= breaks && conn == if breaks == old(breaks) then old(conn) else Exit
      {
        match ops[i] {
          case SendIt(p) => var _ := SendPacket(p.kind, |p.payload|, Some(p.payload));
          case Writable => if conn != Exit { var _ := ResendStream(); }
        }
        i := i + 1;
      }
      ExactIffNoFailedRetry(id, wire + Rest(), queue, accepted, failedRetries, conn == Open);
    }

    /** What the other end holds: a prefix of the accepted packets, whole and in
        order, and all of them once the ring and the half-sent frame are empty. */
    lemma DeliveredInOrder()
      requires Valid() && conn == Open && failedRetries == 0
      requires AllDeliverable(accepted)
      ensures !Deframe(wire).broken
      ensures Deframe(wire).packets <= accepted
      ensures qLen == 0 && reputLen < 0 ==> Deframe(wire).packets == accepted
    {
      var all := wire + Rest() + Frames(id, queue);
      assert wire <= all;
      assert qLen == 0 && reputLen < 0 ==> all == wire;
      PrefixDeframes(id, accepted, wire);
    }
  }

  /** What can happen to a sender: a packet to send, or a writable socket. */
  datatype Op = SendIt(p: Packet) | Writable

  lemma ExactIffNoFailedRetry(id: Word, out: seq<byte>, queue: seq<Packet>, accepted: seq<Packet>, failedRetries: nat, open: bool)
    requires open ==> Accounts(id, out, queue, accepted, failedRetries)
    ensures open ==> (out + Frames(id, queue) == Frames(id, accepted) <==> failedRetries == 0)
    ensures open ==> |out + Frames(id, queue)| == |Frames(id, accepted)| + failedRetries
  {
  }
}
