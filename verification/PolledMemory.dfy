/** Where a monitor points and what the agent reads there. */
module PolledMemory {
  import opened Bytes
  import BitFields

  /** The memory of the agent's process. `wild` is what a shift by 32 or more
      leaves, which C does not say. */
  datatype Memory = Memory(little: bool, at: Long -> byte, wild: nat -> byte)

  /** Address, offset and kind of pointer of a monitor; `blen` is 0 for plain data. */
  datatype Place = Place(adr: Long, off: Long, ptr: char, boff: nat, blen: nat, hibit: bool)

  /** NULL_ADDR: 0 and the eight addresses at the top. */
  predicate Null(a: Long) { a == 0 || a >= 0x1_0000_0000 - 8 }

  function Plus(a: Long, k: nat): Long { (a + k) % 0x1_0000_0000 }

  function Fetch(m: Memory, a: Long, n: nat): (s: seq<byte>)
    ensures |s| == n && forall k :: 0 <= k < n ==> s[k] == m.at(Plus(a, k))
  {
    seq(n, k requires k >= 0 => m.at(Plus(a, k)))
  }

  /** The long at an address, in the machine's byte order. */
  function LongIn(m: Memory, a: Long): Long {
    var s := Fetch(m, a, 4);
    Un32(if m.little then [s[3], s[2], s[1], s[0]] else s)
  }

  function Checked(a: Long): Option<Long> { if Null(a) then None else Some(a) }

  function Follow(m: Memory, a: Option<Long>): Option<Long> {
    if a.None? then None else Checked(LongIn(m, a.value))
  }

  /** Where a place leads: D is the address, I the pointer at address plus offset,
      R the pointer at the address plus offset, P the pointer that R leads to. */
  function Target(m: Memory, p: Place): Option<Long> {
    var start := Checked(p.adr);
    if start.None? then None
    else match p.ptr
      case 'D' => start
      case 'I' => Follow(m, Some(Plus(p.adr, p.off)))
      case 'R' => Checked(Plus(LongIn(m, p.adr), p.off))
      case 'P' => Follow(m, Checked(Plus(LongIn(m, p.adr), p.off)))
      case _ => None
  }

  /** The value of a long is put together from four bytes, the lowest first or last. */
  lemma LongInBytes(m: Memory, a: Long)
    ensures var b0, b1, b2, b3 := m.at(a), m.at((a + 1) % 0x1_0000_0000), m.at((a + 2) % 0x1_0000_0000), m.at((a + 3) % 0x1_0000_0000);
            LongIn(m, a) == if m.little then b0 as int + 0x100 * b1 as int + 0x1_0000 * b2 as int + 0x100_0000 * b3 as int
                            else b3 as int + 0x100 * b2 as int + 0x1_0000 * b1 as int + 0x100_0000 * b0 as int
  {
  }

  /** Is v the long that lies k bytes behind address a? */
  ghost predicate Points(m: Memory, a: Long, k: nat, v: Long) {
    LongIn(m, (a + k) % 0x1_0000_0000) == v
  }

  /** Where each kind of pointer leads: to the address itself; to where the long
      behind it points; to what is behind the place it points to; and to where the
      long points that is found there. A null address on the way leads nowhere. */
  lemma TargetMeans(m: Memory, p: Place)
    ensures p.ptr == 'D' ==> Target(m, p) == if Null(p.adr) then None else Some(p.adr)
    ensures p.ptr == 'I' ==> forall t: Long :: Target(m, p) == Some(t) <==> !Null(p.adr) && Points(m, p.adr, p.off, t) && !Null(t)
    ensures p.ptr == 'R' ==> forall t: Long :: Target(m, p) == Some(t) <==>
              !Null(p.adr) && !Null(t) && exists b: Long :: Points(m, p.adr, 0, b) && t == (b + p.off) % 0x1_0000_0000
    ensures p.ptr == 'P' ==> forall t: Long :: Target(m, p) == Some(t) <==>
              !Null(p.adr) && !Null(t) && exists b: Long :: Points(m, p.adr, 0, b) && !Null((b + p.off) % 0x1_0000_0000) && Points(m, b, p.off, t)
    ensures p.ptr !in "DIRP" ==> Target(m, p).None?
    ensures Null(p.adr) ==> Target(m, p).None?
  {
    hide LongIn, Null;
    assert p.adr % 0x1_0000_0000 == p.adr;
    assert Points(m, p.adr, 0, LongIn(m, p.adr));
  }

  /** A null address is at most eight before 0, going round. */
  lemma NullMeans(a: Long)
    ensures Null(a) <==> exists k: nat :: k <= 8 && Plus(a, k) == 0
  {
    if a >= 0x1_0000_0000 - 8 { assert Plus(a, 0x1_0000_0000 - a) == 0; }
    if a == 0 { assert Plus(a, 0) == 0; }
  }

  /** The switch over the kind of pointer. `undef` is 0 when the address is good. */
  method Resolve(m: Memory, p: Place) returns (undef: byte, a: Long)
    ensures undef == if Target(m, p).Some? then 0 else 0x80
    ensures undef == 0 ==> a == Target(m, p).value
  {
    hide LongIn, Null;
    undef, a := 0x80, p.adr;
    if p.ptr == 'D' {
      if Null(a) { return; }
      undef := 0;
    } else if p.ptr == 'I' {
      if Null(a) { return; }
      a := Plus(a, p.off);
      a := LongIn(m, a);
      if Null(a) { return; }
      undef := 0;
    } else if p.ptr == 'R' {
      if Null(a) { return; }
      a := LongIn(m, a);
      a := Plus(a, p.off);
      if Null(a) { return; }
      undef := 0;
    } else if p.ptr == 'P' {
      if Null(a) { return; }
      a := LongIn(m, a);
      a := Plus(a, p.off);
      if Null(a) { return; }
      a := LongIn(m, a);
      if Null(a) { return; }
      undef := 0;
    }
  }

  // -------------------------------------------------------------- bit fields

  function Bits(s: seq<byte>): (b: seq<bv8>)
    ensures |b| == |s|
  {
    seq(|s|, i requires 0 <= i < |s| => s[i] as bv8)
  }

  function FromBits(b: seq<bv8>): (s: seq<byte>)
    ensures |s| == |b|
  {
    seq(|b|, i requires 0 <= i < |b| => b[i] as byte)
  }

  function FieldOf(p: Place, n: nat): BitFields.Field { BitFields.Field(n, p.boff, p.blen) }

  /** What is read at an address: n bytes, or the bit field in them, if n is a width
      that bit fields can have. */
  function Value(m: Memory, p: Place, n: nat, a: Long): (v: Option<seq<byte>>)
    ensures v.Some? <==> p.blen == 0 || n in {1, 2, 4}
    ensures v.Some? ==> |v.value| == n
  {
    if p.blen == 0 then Some(Fetch(m, a, n))
    else if n !in {1, 2, 4} then None
    else if FieldOf(p, n).Shiftable() then
      Some(FromBits(BitFields.GetFrom(Bits(Fetch(m, a, n)), m.little, FieldOf(p, n), p.hibit)))
    else Some(seq(n, k requires k >= 0 => m.wild(k)))
  }

  /** The value polled of plain data is the bytes at the address. */
  lemma PlainValue(m: Memory, p: Place, n: nat, a: Long)
    requires p.blen == 0
    ensures Value(m, p, n, a).Some?
    ensures forall k :: 0 <= k < n ==> Value(m, p, n, a).value[k] == m.at((a + k) % 0x1_0000_0000)
  {
    hide BitFields.GetFrom;
    var v := Value(m, p, n, a).value;
    forall k | 0 <= k < n ensures v[k] == m.at((a + k) % 0x1_0000_0000) {
      assert v[k] == Fetch(m, a, n)[k];
    }
  }

  lemma BitsBack(b: seq<bv8>)
    ensures Bits(FromBits(b)) == b
  {
    assert forall i :: 0 <= i < |b| ==> (b[i] as byte) as bv8 == b[i];
  }

  /** The value polled of a bit field holds the field's bits in memory, filled up
      with its sign. */
  lemma FieldValue(m: Memory, p: Place, n: nat, a: Long)
    requires p.blen > 0 && FieldOf(p, n).Shiftable()
    ensures Value(m, p, n, a).Some?
    ensures BitFields.ReadOut(Bits(Fetch(m, a, n)), Bits(Value(m, p, n, a).value), m.little, FieldOf(p, n), p.hibit)
  {
    hide BitFields.ReadOut, BitFields.GetFrom;
    var s := Bits(Fetch(m, a, n));
    BitFields.GetFromReads(s, m.little, FieldOf(p, n), p.hibit);
    BitsBack(BitFields.GetFrom(s, m.little, FieldOf(p, n), p.hibit));
  }
}
