/** The receiver of a TCP stream, which three programs of the repository share:
    it reads a header, then the body behind it, over as many calls as it takes
    for the bytes to arrive. */
module StreamReceiver {
  import opened Bytes
  import opened Framing

  /** The length of the complete frames that a stream starts with. */
  function Whole(s: seq<byte>): (n: nat)
    ensures n <= |s|
    decreases |s|
  {
    if |s| < HEAD_LEN then 0
    else
      var len := Un16(s);
      if len > MAX_PACKET || |s| < FrameLen(len) || !Closed(s, len) then 0
      else FrameLen(len) + Whole(s[FrameLen(len)..])
  }

  /** How much of a stream lies behind its last complete frame. */
  function Rest(s: seq<byte>): nat { |s| - Whole(s) }

  lemma {:induction false} NoFrameYet(s: seq<byte>)
    requires |s| < HEAD_LEN || (Un16(s) <= MAX_PACKET && |s| < FrameLen(Un16(s)))
    ensures Deframe(s) == Received([], false) && Whole(s) == 0
  {
  }

  lemma {:induction false} BadFrame(s: seq<byte>)
    requires |s| >= HEAD_LEN
    requires Un16(s) > MAX_PACKET || (|s| >= FrameLen(Un16(s)) && !Closed(s, Un16(s)))
    ensures Deframe(s) == Received([], true)
  {
  }

  lemma {:induction false} OneFrame(s: seq<byte>)
    requires |s| >= HEAD_LEN && Un16(s) <= MAX_PACKET && |s| >= FrameLen(Un16(s)) && Closed(s, Un16(s))
    ensures var len := Un16(s);
            var t := s[FrameLen(len)..];
            && Deframe(s) == Received([Packet(Un16(s[2..]), s[HEAD_LEN..HEAD_LEN + len])] + Deframe(t).packets, Deframe(t).broken)
            && Whole(s) == FrameLen(len) + Whole(t)
  {
  }

  lemma Front(x: seq<byte>, t: seq<byte>, len: nat)
    requires |x| >= FrameLen(len)
    ensures Un16(x + t) == Un16(x) && Closed(x + t, len) == Closed(x, len)
    ensures Un16((x + t)[2..]) == Un16(x[2..]) && (x + t)[HEAD_LEN..HEAD_LEN + len] == x[HEAD_LEN..HEAD_LEN + len]
    ensures (x + t)[FrameLen(len)..] == x[FrameLen(len)..] + t
  {
    var n := FrameLen(len);
    assert (x + t)[n - TAIL_LEN..n] == x[n - TAIL_LEN..n];
  }

  lemma {:induction false} WholeParts(x: seq<byte>)
    requires Whole(x) == |x| > 0
    ensures |x| >= HEAD_LEN && Un16(x) <= MAX_PACKET && |x| >= FrameLen(Un16(x)) && Closed(x, Un16(x))
    ensures Whole(x[FrameLen(Un16(x))..]) == |x| - FrameLen(Un16(x))
  {
  }

  /** Behind complete frames a stream is read as if it began there. */
  lemma {:induction false} BehindFrames(x: seq<byte>, t: seq<byte>)
    requires Whole(x) == |x|
    ensures !Deframe(x).broken
    ensures Deframe(x + t) == Received(Deframe(x).packets + Deframe(t).packets, Deframe(t).broken)
    ensures Whole(x + t) == |x| + Whole(t)
    decreases |x|
  {
    hide Deframe, Whole, Un16, Closed, FrameLen;
    if x == [] {
      assert x + t == t;
      NoFrameYet(x);
      assert [] + Deframe(t).packets == Deframe(t).packets;
    } else {
      WholeParts(x);
      var len := Un16(x);
      Front(x, t, len);
      OneFrame(x);
      OneFrame(x + t);
      BehindFrames(x[FrameLen(len)..], t);
      Regroup([Packet(Un16(x[2..]), x[HEAD_LEN..HEAD_LEN + len])], Deframe(x[FrameLen(len)..]).packets, Deframe(t).packets);
    }
  }

  // What has been read up to n, when complete frames end at `base`.

  ghost predicate FramesTo(s: seq<byte>, base: nat, packets: seq<Packet>) {
    base <= |s| && Whole(s[..base]) == base && packets == Deframe(s[..base]).packets
  }

  lemma StillOpenFrame(s: seq<byte>, base: nat, n: nat, packets: seq<Packet>)
    requires FramesTo(s, base, packets) && base <= n <= |s|
    requires n - base < HEAD_LEN || (Un16(s[base..n]) <= MAX_PACKET && n - base < FrameLen(Un16(s[base..n])))
    ensures Deframe(s[..n]) == Received(packets, false) && Rest(s[..n]) == n - base
  {
    hide Deframe, Whole, Un16;
    assert s[..n] == s[..base] + s[base..n];
    BehindFrames(s[..base], s[base..n]);
    NoFrameYet(s[base..n]);
    assert packets + [] == packets;
  }

  lemma SpoiltFrame(s: seq<byte>, base: nat, n: nat, packets: seq<Packet>)
    requires FramesTo(s, base, packets) && base + HEAD_LEN <= n <= |s|
    requires var t := s[base..n]; Un16(t) > MAX_PACKET || (|t| >= FrameLen(Un16(t)) && !Closed(t, Un16(t)))
    ensures Deframe(s[..n]) == Received(packets, true)
  {
    hide Deframe, Whole, Un16, Closed;
    assert s[..n] == s[..base] + s[base..n];
    BehindFrames(s[..base], s[base..n]);
    BadFrame(s[base..n]);
    assert packets + [] == packets;
  }

  lemma WholeFrame(s: seq<byte>, base: nat, n: nat, packets: seq<Packet>)
    requires FramesTo(s, base, packets) && base + HEAD_LEN <= n <= |s|
    requires var t := s[base..n]; Un16(t) <= MAX_PACKET && |t| == FrameLen(Un16(t)) && Closed(t, Un16(t))
    ensures var t := s[base..n];
            FramesTo(s, n, packets + [Packet(Un16(t[2..]), t[HEAD_LEN..HEAD_LEN + Un16(t)])])
  {
    hide Deframe, Whole, Un16, Closed;
    var t := s[base..n];
    assert s[..n] == s[..base] + t;
    BehindFrames(s[..base], t);
    OneFrame(t);
    assert t[FrameLen(Un16(t))..] == [];
    NoFrameYet([]);
  }

  // ------------------------------------------------------------ the receiver

  /** Why a call stopped reading. */
  datatype Why = NothingMore | NothingAtAll | TooLong | BadSum | NoRoom | CutShort

  /** How many bytes of the stream have arrived when a call reads for the k-th time. */
  type Arrived = nat -> nat

  ghost predicate Grows(ready: Arrived, pos: nat, end: nat) {
    && pos <= ready(0)
    && (forall i: nat, j: nat :: i <= j ==> ready(i) <= ready(j))
    && forall k: nat :: ready(k) <= end
  }

  /** The bytes end between packets or in a header, and nothing is wrong with them. */
  predicate Intact(s: seq<byte>, n: nat)
    requires n <= |s|
  {
    !Deframe(s[..n]).broken && Rest(s[..n]) < HEAD_LEN
  }

  predicate Rising(arrivals: seq<nat>, end: nat) {
    && (forall i :: 0 <= i < |arrivals| ==> 0 < arrivals[i] <= end)
    && forall i, j :: 0 <= i < j < |arrivals| ==> arrivals[i] < arrivals[j]
  }

  ghost predicate FirstBad(s: seq<byte>, arrivals: seq<nat>, j: nat)
    requires Rising(arrivals, |s|)
  {
    j < |arrivals| && !Intact(s, arrivals[j]) && forall i :: 0 <= i < j ==> Intact(s, arrivals[i])
  }

  /** A stream once broken stays as it is. */
  lemma {:induction false} BrokenStays(x: seq<byte>, t: seq<byte>)
    requires Deframe(x).broken
    ensures Deframe(x + t) == Deframe(x)
    decreases |x|
  {
    var len := Un16(x);
    assert Un16(x + t) == len;
    if len <= MAX_PACKET {
      Front(x, t, len);
      if Closed(x, len) { BrokenStays(x[FrameLen(len)..], t); }
    }
  }

  class Receiver {
    var hdr: seq<byte>             // the part of a header read so far
    var len: int                   // of the body being read, or -1 between packets
    var off: int
    var kind: Word
    var buf: Option<seq<byte>>     // where the body goes
    var open: bool
    var pos: nat                   // how much of the stream has been read
    ghost var packets: seq<Packet> // handed to the protocol

    /** Between packets, with part of a header. */
    ghost predicate Between(s: seq<byte>)
      reads this
    {
      && |hdr| < HEAD_LEN && |hdr| <= pos <= |s| && hdr == s[pos - |hdr|..pos]
      && FramesTo(s, pos - |hdr|, packets)
    }

    /** A body was begun and not finished; what is left to read is counted as nothing. */
    predicate Stuck()
      reads this
    {
      len >= 0 && (buf.None? || off >= len + TAIL_LEN)
    }

    /** The packets handed on are always those of the bytes read. */
    ghost predicate Valid(s: seq<byte>)
      reads this
    {
      && pos <= |s| && packets == Deframe(s[..pos]).packets
      && (open ==> if len < 0 then Between(s) else Stuck())
    }

    constructor ()
      ensures open && len < 0 && pos == 0 && packets == []
      ensures forall s :: Valid(s)
    {
      hdr, len, off, kind, buf, open, pos := [], -1, -1, 0, None, true, 0;
      packets := [];
      new;
      NoFrameYet([]);
      assert forall s: seq<byte> :: s[..0] == [];
    }

    /** recv: what has arrived, up to the size asked for; nothing at all counts as
        an error. */
    method Recv(s: seq<byte>, ready: nat, want: int) returns (num: int, got: seq<byte>)
      requires pos <= |s| && ready <= |s|
      modifies this`pos
      ensures num > 0 <==> want > 0 && ready > old(pos)
      ensures if num > 0 then
                && num == (if want <= ready - old(pos) then want else ready - old(pos))
                && pos == old(pos) + num && got == s[old(pos)..pos]
              else pos == old(pos) && got == []
    {
      if want <= 0 || ready <= pos { return -1, []; }
      num := if want <= ready - pos then want else ready - pos;
      got := s[pos..pos + num];
      pos := pos + num;
    }

    /** The header: true when it is complete. */
    method ReadHeader(s: seq<byte>, ready: nat, first: bool) returns (whole: bool, why: Why)
      requires open && len < 0 && Between(s) && pos <= ready <= |s|
      modifies this`hdr, this`pos, this`open
      ensures pos - |hdr| == old(pos) - |old(hdr)| || !open
      ensures whole ==> open && |hdr| == HEAD_LEN && pos <= ready && hdr == s[pos - HEAD_LEN..pos]
      ensures !whole ==> pos == ready
      ensures !whole && open ==> why.NothingMore? && Between(s)
      ensures !whole && !open ==> why.NothingAtAll? && first && pos == old(pos)
    {
      hide Deframe, Whole, FramesTo;
      why := NothingMore;
      var want := HEAD_LEN - |hdr|;
      var num, got := Recv(s, ready, want);
      if num > 0 { hdr := hdr + got; }
      assert hdr == s[pos - |hdr|..pos];
      whole := num == want;
      if !whole && first && num <= 0 { open, hdr, why := false, [], NothingAtAll; }
    }

    /** The body behind a header h that has just been read: payload and checksum. */
    method ReadBody(s: seq<byte>, ready: Arrived, k: nat, room: bool) returns (whole: bool, why: Why, payload: seq<byte>, sum: seq<byte>)
      requires open && 0 <= len <= MAX_PACKET && off == 0 && pos <= |s|
      requires Grows(ready, 0, |s|) && pos <= ready(k)
      modifies this`off, this`buf, this`open, this`pos
      ensures old(pos) <= pos <= ready(k)
      ensures whole ==> open && pos == old(pos) - HEAD_LEN + FrameLen(len)
      ensures whole ==> payload == s[old(pos)..old(pos) + len] && sum == s[pos - TAIL_LEN..pos]
      ensures !whole ==> pos < old(pos) - HEAD_LEN + FrameLen(len) && (open ==> Stuck())
      ensures !whole ==> if why.NoRoom? then !room && pos == old(pos)
                         else why.CutShort? && ready(k) < old(pos) - HEAD_LEN + FrameLen(len)
    {
      whole, why, payload, sum := false, CutShort, [], [];
      if len == 0 {
        buf := None;
        if ready(k) - pos < TAIL_LEN { return; }
        var num;
        num, sum := Recv(s, ready(k + 1), TAIL_LEN);
        return true, NothingMore, [], sum;
      }
      var want := len + TAIL_LEN - off;
      if want % 2 != 0 { want := want + 1; }
      if !room {
        buf := None;
        return false, NoRoom, [], [];
      }
      var num, got := Recv(s, ready(k), want);
      buf := Some(got);
      if num <= 0 {
        open := false;
        return;
      }
      if num != want {
        off := want;
        return;
      }
      return true, NothingMore, got[..len], got[want - TAIL_LEN..];
    }

    /** The turn of the loop behind a header that ends at pos: the body, if it is there. */
    method TakeBody(s: seq<byte>, ready: Arrived, k: nat, room: bool, ghost base: nat)
      returns (more: bool, why: Why, ghost seen: nat)
      requires open && 0 <= len <= MAX_PACKET && off == 0 && hdr == []
      requires FramesTo(s, base, packets) && pos == base + HEAD_LEN <= |s|
      requires len == Un16(s[base..pos]) && kind == Un16(s[base..pos][2..])
      requires Grows(ready, 0, |s|) && pos <= ready(k)
      modifies this
      ensures old(pos) <= pos && old(packets) <= packets && seen == ready(k)
      ensures more ==> open && len < 0 && pos <= ready(k) && Between(s) && Valid(s)
      ensures !more ==> Valid(s) && Stopped(s, why, seen, old(pos), false, room)
    {
      hide Deframe, Whole, FramesTo, Un16, Closed, FrameLen;
      seen := ready(k);
      var payload, sum;
      var whole;
      whole, why, payload, sum := ReadBody(s, ready, k, room);
      Header(s, base, pos);
      if !whole {
        StillOpenFrame(s, base, pos, packets);
        if why.CutShort? {
          Header(s, base, seen);
          StillOpenFrame(s, base, seen, packets);
        }
        return false, why, seen;
      }
      Body(s, base, pos, len);
      if sum != [0, 0] {
        SpoiltFrame(s, base, pos, packets);
        open := false;
        return false, BadSum, seen;
      }
      WholeFrame(s, base, pos, packets);
      packets := packets + [Packet(kind, payload)];
      len, off, buf := -1, -1, None;
      why := NothingMore;
      more := true;
      assert s[pos..pos] == [];
      StillOpenFrame(s, pos, pos, packets);
    }

    /** One turn of the loop between packets: read a packet, if it is there. */
    method TakePacket(s: seq<byte>, ready: Arrived, k: nat, first: bool, room: bool) returns (more: bool, why: Why, ghost seen: nat)
      requires open && len < 0 && Between(s) && Valid(s) && Grows(ready, 0, |s|) && pos <= ready(k)
      modifies this
      ensures Valid(s) && old(pos) <= pos && old(packets) <= packets && (seen == ready(k) || seen == ready(k + 1))
      ensures more ==> open && len < 0 && old(pos) < pos <= ready(k + 1)
      ensures !more ==> Stopped(s, why, seen, old(pos), first, room)
    {
      hide Deframe, Whole, FramesTo, Un16, Closed, FrameLen;
      seen := ready(k);
      ghost var base := pos - |hdr|;
      var whole;
      whole, why := ReadHeader(s, ready(k), first);
      if !whole {
        StillOpenFrame(s, base, pos, packets);
        return false, why, seen;
      }
      len, off, kind, hdr := Un16(hdr), 0, Un16(hdr[2..]), [];
      if len > MAX_PACKET {
        SpoiltFrame(s, base, pos, packets);
        open := false;
        return false, TooLong, seen;
      }
      more, why, seen := TakeBody(s, ready, k + 1, room, base);
    }

    /** What the state is when a call stops, by reason; `seen` is how much had arrived
        when it last read. */
    ghost predicate Stopped(s: seq<byte>, why: Why, seen: nat, pos0: nat, first: bool, room: bool)
      reads this
    {
      && pos <= seen <= |s|
      && match why
         case NothingMore => open && len < 0 && pos == seen && Rest(s[..seen]) < HEAD_LEN
         case NothingAtAll => !open && pos == pos0 == seen && first
         case TooLong | BadSum => !open && Deframe(s[..pos]).broken
         case NoRoom => (!open || Stuck()) && !room
         case CutShort => (!open || Stuck()) && Rest(s[..seen]) >= HEAD_LEN && Deframe(s[..seen]) == Received(packets, false)
    }

    /** The whole call. A body begun in an earlier call is never finished: what was
        left of it is counted as nothing, and reading nothing ends the connection. */
    method Receive(s: seq<byte>, ready: Arrived, room: nat -> bool) returns (ghost why: Why, ghost seen: nat)
      requires open && Valid(s) && Grows(ready, pos, |s|)
      modifies this
      ensures Valid(s) && old(pos) <= pos && old(packets) <= packets
      ensures old(len) >= 0 ==> !open && packets == old(packets) && pos == old(pos)
      ensures old(len) < 0 ==> (exists k: nat :: seen == ready(k)) && Stopped(s, why, seen, old(pos), true, forall j: nat :: room(j))
    {
      hide Deframe, Whole, FramesTo, Between;
      why, seen := NothingMore, ready(0);
      var first, k := true, 0;
      if len >= 0 {
        var want := len + TAIL_LEN - off;
        if want % 2 != 0 { want := want + 1; }
        var num, got := Recv(s, ready(0), if buf.None? then 0 else want);
        if num <= 0 { open := false; } else { assert false; }
      } else {
        var more := true;
        while more
          invariant Valid(s) && old(pos) <= pos <= ready(k) && old(packets) <= packets
          invariant first ==> pos == old(pos)
          invariant more ==> open && len < 0
          invariant !more ==> (exists k: nat :: seen == ready(k)) && Stopped(s, why, seen, old(pos), true, forall j: nat :: room(j))
          decreases more, |s| - pos
        {
          more, why, seen := TakePacket(s, ready, k, first, room(k));
          first, k := false, k + 3;
        }
      }
      if !open { buf, len, off := None, -1, -1; }
    }

    predicate Alive()
      reads this
    {
      open && len < 0
    }

    /** A run of calls, each made when more has arrived than before, and with memory
        to be had. The connection lives if and only if at no call the bytes end
        behind the header of a packet and before its end; every packet is handed
        on while it lives, and none once it does not. */
    method Run(s: seq<byte>, arrivals: seq<nat>)
      requires Alive() && pos == 0 && packets == [] && Valid(s) && Rising(arrivals, |s|)
      modifies this
      ensures Valid(s)
      ensures Alive() <==> forall i :: 0 <= i < |arrivals| ==> Intact(s, arrivals[i])
      ensures Alive() && arrivals != [] ==> packets == Deframe(s[..arrivals[|arrivals| - 1]]).packets
      ensures forall j: nat :: FirstBad(s, arrivals, j) ==> packets == Deframe(s[..arrivals[j]]).packets
    {
      hide Deframe, Whole, Valid, Intact, Receiver.Stopped;
      ghost var bad := 0;
      var i := 0;
      while i < |arrivals|
        invariant 0 <= i <= |arrivals| && Valid(s) && bad <= i
        invariant pos <= if i == 0 then 0 else arrivals[i - 1]
        invariant forall j :: 0 <= j < bad ==> Intact(s, arrivals[j])
        invariant Alive() ==> bad == i && pos == if i == 0 then 0 else arrivals[i - 1]
        invariant !Alive() ==> bad < i && !Intact(s, arrivals[bad]) && packets == Deframe(s[..arrivals[bad]]).packets
      {
        var n := arrivals[i];
        ghost var alive := Alive();
        if open {
          ghost var why, seen;
          why, seen := Receive(s, _ => n, _ => true);
          if alive { Judge(s, n, why, seen, if i == 0 then 0 else arrivals[i - 1]); }
        }
        if Alive() { bad := bad + 1; }
        i := i + 1;
      }
      if Alive() && arrivals != [] { PacketsAre(s); }
    }

    lemma PacketsAre(s: seq<byte>)
      requires Valid(s)
      ensures pos <= |s| && packets == Deframe(s[..pos]).packets
    {
    }

    /** After one call on a connection that was alive. */
    lemma Judge(s: seq<byte>, n: nat, why: Why, seen: nat, pos0: nat)
      requires Valid(s) && Stopped(s, why, n, pos0, true, true) && seen == n && pos0 < n <= |s|
      ensures Alive() <==> Intact(s, n)
      ensures pos <= n && (Alive() ==> pos == n)
      ensures packets == Deframe(s[..n]).packets
    {
      hide Whole;
      assert s[..n] == s[..pos] + s[pos..n];
      if why.TooLong? || why.BadSum? { BrokenStays(s[..pos], s[pos..n]); }
      if why.NothingMore? { StillOpenFrame(s, pos - |hdr|, pos, packets); }
    }
  }

  // ---------------------------------------------------- between two programs

  /** Where k frames end, and up to five bytes of the header behind them. */
  ghost predicate AtFrame(id: Word, ps: seq<Packet>, n: nat, k: nat) {
    k <= |ps| && |Frames(id, ps[..k])| <= n < |Frames(id, ps[..k])| + HEAD_LEN
  }

  lemma FrameInFront(id: Word, p: Packet, rest: seq<byte>)
    requires Deliverable(p)
    ensures var s := Frame(id, p) + rest;
            && |Frame(id, p)| >= HEAD_LEN
            && Deframe(s).broken == Deframe(rest).broken && Whole(s) == |Frame(id, p)| + Whole(rest)
  {
    hide Frame, Deframe, Whole, Un16, Closed;
    FrameHeader(id, p, rest);
    FrameLength(id, p);
    OneFrame(Frame(id, p) + rest);
  }

  lemma FrameCutShort(id: Word, p: Packet, rest: seq<byte>, got: seq<byte>)
    requires Deliverable(p) && got <= Frame(id, p) + rest && |got| < |Frame(id, p)|
    ensures Deframe(got) == Received([], false) && Whole(got) == 0
  {
    FrameHeader(id, p, rest);
    FrameLength(id, p);
    hide Frame, Deframe, Whole;
    var s := Frame(id, p) + rest;
    if |got| >= HEAD_LEN { assert got[0] == s[0] && got[1] == s[1]; }
    NoFrameYet(got);
  }

  /** Of what the sender puts on the wire the receiver survives exactly the arrivals
      that end between two frames or less than six bytes behind one. */
  lemma {:induction false} SurvivesExactly(id: Word, ps: seq<Packet>, n: nat)
    requires AllDeliverable(ps) && n <= |Frames(id, ps)|
    ensures Intact(Frames(id, ps), n) <==> exists k: nat :: AtFrame(id, ps, n, k)
    decreases |ps|
  {
    hide Frame, Deframe, Whole, Deliverable, AllDeliverable, Frames, Intact, AtFrame;
    if ps == [] {
      SurvivesNothing(id, n);
    } else {
      var p, qs := ps[0], ps[1..];
      assert ps == [p] + qs;
      HeadDeliverable(p, qs);
      FramesCons(id, p, qs);
      var f, rest := Frame(id, p), Frames(id, qs);
      if n < |f| {
        SurvivesInFirst(id, p, qs, n);
      } else {
        SurvivesExactly(id, qs, n - |f|);
        SurvivesBehind(id, p, qs, n, n - |f|);
      }
    }
  }

  lemma SurvivesNothing(id: Word, n: nat)
    requires n <= |Frames(id, [])|
    ensures Intact(Frames(id, []), n) && AtFrame(id, [], n, 0)
  {
    NoFrameYet([]);
  }

  lemma SurvivesInFirst(id: Word, p: Packet, qs: seq<Packet>, n: nat)
    requires Deliverable(p) && n < |Frame(id, p)| && n <= |Frames(id, [p] + qs)|
    ensures Intact(Frames(id, [p] + qs), n) <==> exists k: nat :: AtFrame(id, [p] + qs, n, k)
  {
    hide Frame, Deframe, Whole, Deliverable, Frames;
    var ps := [p] + qs;
    FramesCons(id, p, qs);
    FrameCutShort(id, p, Frames(id, qs), Frames(id, ps)[..n]);
    NothingDeframes(id);
    assert ps[..0] == [];
    if n < HEAD_LEN { assert AtFrame(id, ps, n, 0); }
    forall k: nat | AtFrame(id, ps, n, k) ensures k == 0 {
      if k > 0 {
        assert ps[..k] == [p] + qs[..k - 1];
        FramesCons(id, p, qs[..k - 1]);
      }
    }
  }

  lemma SurvivesBehind(id: Word, p: Packet, qs: seq<Packet>, n: nat, m: nat)
    requires Deliverable(p) && n == |Frame(id, p)| + m && m <= |Frames(id, qs)|
    requires |Frames(id, [p] + qs)| == |Frame(id, p)| + |Frames(id, qs)|
    requires Intact(Frames(id, qs), m) <==> exists k: nat :: AtFrame(id, qs, m, k)
    ensures Intact(Frames(id, [p] + qs), n) <==> exists k: nat :: AtFrame(id, [p] + qs, n, k)
  {
    hide Frame, Deframe, Whole, Deliverable, Frames;
    var ps := [p] + qs;
    FramesCons(id, p, qs);
    FrameInFront(id, p, Frames(id, qs)[..m]);
    NothingDeframes(id);
    assert ps[..0] == [];
    assert Frames(id, ps)[..n] == Frame(id, p) + Frames(id, qs)[..m];
    forall k: nat | AtFrame(id, qs, m, k) ensures AtFrame(id, ps, n, k + 1) {
      assert ps[..k + 1] == [p] + qs[..k];
      FramesCons(id, p, qs[..k]);
    }
    forall k: nat | AtFrame(id, ps, n, k) ensures k > 0 && AtFrame(id, qs, m, k - 1) {
      if k > 0 {
        assert ps[..k] == [p] + qs[..k - 1];
        FramesCons(id, p, qs[..k - 1]);
      }
    }
  }

  lemma Header(s: seq<byte>, base: nat, n: nat)
    requires base + HEAD_LEN <= n <= |s|
    ensures Un16(s[base..n]) == Un16(s[base..base + HEAD_LEN]) && Un16(s[base..n][2..]) == Un16(s[base..base + HEAD_LEN][2..])
  {
  }

  lemma Within(s: seq<byte>, a: nat, b: nat, i: nat, j: nat)
    requires a <= b <= |s| && i <= j <= b - a
    ensures s[a..b][i..j] == s[a + i..a + j]
  {
    var x, y := s[a..b][i..j], s[a + i..a + j];
    forall k | 0 <= k < j - i ensures x[k] == y[k] {
      assert x[k] == s[a..b][i + k];
    }
    assert x == y;
  }

  lemma Body(s: seq<byte>, base: nat, n: nat, len: nat)
    requires base + FrameLen(len) == n <= |s|
    ensures s[base..n][HEAD_LEN..HEAD_LEN + len] == s[base + HEAD_LEN..base + HEAD_LEN + len]
    ensures Closed(s[base..n], len) <==> s[n - TAIL_LEN..n] == [0, 0]
  {
    hide FrameLen;
    Within(s, base, n, HEAD_LEN, HEAD_LEN + len);
    Within(s, base, n, FrameLen(len) - TAIL_LEN, FrameLen(len));
  }
}
