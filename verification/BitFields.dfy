/** Bit fields of 1-, 2- and 4-byte words: how the agent writes and reads them. */
module BitFields {
  // ------------------------------------------------------------- single bits

  /** A bit number as a shift count. */
  function Count(i: nat): bv6 {
    if i == 0 then 0 else Count(i - 1) + 1
  }

  lemma {:induction false} CountIs(i: nat)
    requires i < 64
    ensures Count(i) as int == i
  {
    if i > 0 {
      CountIs(i - 1);
      NextCount(Count(i - 1));
    }
  }

  lemma NextCount(c: bv6)
    requires c as int + 1 < 64
    ensures (c + 1) as int == c as int + 1
  {
  }

  lemma {:induction false} CountMinus(i: nat, k: nat)
    requires k <= i
    ensures Count(i) - Count(k) == Count(i - k)
  {
    if k > 0 { CountMinus(i - 1, k - 1); }
  }

  lemma CountLess(i: nat, k: nat)
    requires i < 64 && k < 64
    ensures Count(i) < Count(k) <==> i < k
  {
    CountIs(i);
    CountIs(k);
    CountOrder(Count(i), Count(k));
  }

  lemma CountOrder(c: bv6, d: bv6)
    ensures c < d <==> c as int < d as int
  {
  }

  lemma CountSmall(i: nat)
    requires i < 64
    ensures Count(i) < 32 <==> i < 32
  {
    CountIs(i);
    CountOrder(Count(i), 32);
  }

  predicate BitAt(x: bv32, i: bv6)
    requires i < 32
  {
    (x >> i) & 1 == 1
  }

  /** Bit i of a word; there are 32. */
  predicate Bit(x: bv32, i: nat) {
    i < 32 && Count(i) < 32 && BitAt(x, Count(i))
  }

  // The operators of the source, by name.

  function And(x: bv32, y: bv32): bv32 { x & y }

  function Or(x: bv32, y: bv32): bv32 { x | y }

  function Not(x: bv32): bv32 { !x }

  function ShiftLeft(x: bv32, k: bv6): bv32
    requires k < 32
  {
    x << k
  }

  function ShiftRight(x: bv32, k: bv6): bv32
    requires k < 32
  {
    x >> k
  }

  function Left(x: bv32, k: nat): bv32
    requires k < 32
  {
    CountSmall(k);
    ShiftLeft(x, Count(k))
  }

  function Right(x: bv32, k: nat): bv32
    requires k < 32
  {
    CountSmall(k);
    ShiftRight(x, Count(k))
  }

  /** Is bit k set, as the source tests it? */
  predicate HasBit(x: bv32, k: nat)
    requires k < 32
  {
    And(x, Left(1, k)) != 0
  }

  function Ones(len: nat): bv32
    requires len < 32
  {
    Left(1, len) - 1
  }

  /** All the bits a word of n bytes has. */
  function Whole(n: nat): bv32 {
    if n == 1 then 0xFF else if n == 2 then 0xFFFF else 0xFFFF_FFFF
  }

  lemma AndAt(x: bv32, y: bv32, i: bv6)
    requires i < 32
    ensures BitAt(And(x, y), i) == (BitAt(x, i) && BitAt(y, i))
  {
  }

  lemma OrAt(x: bv32, y: bv32, i: bv6)
    requires i < 32
    ensures BitAt(Or(x, y), i) == (BitAt(x, i) || BitAt(y, i))
  {
  }

  lemma NotAt(x: bv32, i: bv6)
    requires i < 32
    ensures BitAt(Not(x), i) == !BitAt(x, i)
  {
  }

  lemma AndBit(x: bv32, y: bv32, i: nat)
    ensures Bit(And(x, y), i) == (Bit(x, i) && Bit(y, i))
  {
    hide Count, BitAt, And;
    if i < 32 { CountSmall(i); AndAt(x, y, Count(i)); }
  }

  lemma OrBit(x: bv32, y: bv32, i: nat)
    ensures Bit(Or(x, y), i) == (Bit(x, i) || Bit(y, i))
  {
    hide Count, BitAt, Or;
    if i < 32 { CountSmall(i); OrAt(x, y, Count(i)); }
  }

  lemma NotBit(x: bv32, i: nat)
    requires i < 32
    ensures Bit(Not(x), i) == !Bit(x, i)
  {
    hide Count, BitAt, Not;
    CountSmall(i);
    NotAt(x, Count(i));
  }

  lemma LeftAt(x: bv32, k: bv6, j: bv6)
    requires k < 32 && j < 32 && j + k < 32
    ensures BitAt(ShiftLeft(x, k), j + k) == BitAt(x, j)
  {
  }

  lemma LeftBelow(x: bv32, k: bv6, i: bv6)
    requires i < k < 32
    ensures !BitAt(ShiftLeft(x, k), i)
  {
  }

  lemma RightAt(x: bv32, k: bv6, i: bv6)
    requires k < 32 && i < 32
    ensures BitAt(ShiftRight(x, k), i) == (k + i < 32 && BitAt(x, k + i))
  {
  }

  lemma SumOf(s: bv6, c: bv6, d: bv6)
    requires s - d == c
    ensures s == c + d
  {
  }

  lemma LeftBit(x: bv32, k: nat, i: nat)
    requires k < 32 && i < 32
    ensures Bit(Left(x, k), i) == (k <= i && Bit(x, i - k))
  {
    hide Count, BitAt, ShiftLeft;
    CountSmall(k);
    CountSmall(i);
    CountLess(i, k);
    if i < k {
      LeftBelow(x, Count(k), Count(i));
    } else {
      CountMinus(i, k);
      CountSmall(i - k);
      SumOf(Count(i), Count(i - k), Count(k));
      LeftAt(x, Count(k), Count(i - k));
    }
  }

  lemma RightBit(x: bv32, k: nat, i: nat)
    requires k < 32 && i < 32
    ensures Bit(Right(x, k), i) == Bit(x, k + i)
  {
    hide Count, BitAt, ShiftRight;
    CountSmall(k);
    CountSmall(i);
    CountMinus(k + i, i);
    CountSmall(k + i);
    SumOf(Count(k + i), Count(k), Count(i));
    RightAt(x, Count(k), Count(i));
  }

  lemma OneAt(len: bv6, i: bv6)
    requires len < 32 && i < 32
    ensures BitAt(ShiftLeft(1, len) - 1, i) <==> i < len
  {
  }

  lemma OnesBit(len: nat, i: nat)
    requires len < 32 && i < 32
    ensures Bit(Ones(len), i) <==> i < len
  {
    hide Count, BitAt, ShiftLeft;
    CountSmall(len);
    CountSmall(i);
    CountLess(i, len);
    OneAt(Count(len), Count(i));
  }

  lemma PowerAt(x: bv32, k: bv6)
    requires k < 32
    ensures And(x, ShiftLeft(1, k)) != 0 <==> BitAt(x, k)
  {
  }

  lemma PowerBit(x: bv32, k: nat)
    requires k < 32
    ensures HasBit(x, k) <==> Bit(x, k)
  {
    hide Count, BitAt, ShiftLeft, And;
    CountSmall(k);
    PowerAt(x, Count(k));
  }

  lemma WholeAt(n: nat, i: bv6)
    requires (n == 1 || n == 2 || n == 4) && i < 32
    ensures BitAt(Whole(n), i) <==> i < if n == 1 then 8 else if n == 2 then 16 else 32
  {
  }

  lemma WholeBit(n: nat, i: nat)
    requires (n == 1 || n == 2 || n == 4) && i < 32
    ensures Bit(Whole(n), i) <==> i < 8 * n
  {
    hide Count, BitAt, Whole;
    CountIs(i);
    CountSmall(i);
    WholeAt(n, Count(i));
    CountOrder(Count(i), 8);
    CountOrder(Count(i), 16);
  }

  // ------------------------------------------------------------------ fields

  /** A field of `len` bits, `off` bits up, in a word of n bytes. */
  datatype Field = Field(n: nat, off: nat, len: nat)
  {
    /** What C defines: shifts by less than 32. */
    predicate Shiftable() { n in {1, 2, 4} && 1 <= len < 32 && off < 32 }

    /** What is asked of a bit field: it lies in its word as well. */
    predicate Valid() { Shiftable() && off + len <= 8 * n }

    predicate Covers(i: nat) { off <= i < off + len }

    predicate Apart(f: Field) { off + len <= f.off || f.off + f.len <= off }
  }

  /** The word after the datum has been put into the field. */
  function Put(f: Field, word: bv32, datum: bv32): bv32
    requires f.Shiftable()
  {
    var mask := Ones(f.len);
    And(Or(And(word, Not(Left(mask, f.off))), Left(And(datum, mask), f.off)), Whole(f.n))
  }

  /** What is read from the field, as a word of n bytes. */
  function Get(f: Field, signed: bool, word: bv32): bv32
    requires f.Shiftable()
  {
    var mask := Ones(f.len);
    var v := And(Right(word, f.off), mask);
    if signed && HasBit(v, f.len - 1) then And(Or(v, Not(mask)), Whole(f.n)) else v
  }

  /** Bit by bit, what a write leaves: the datum in the field, all else as before. */
  lemma PutBits(f: Field, word: bv32, datum: bv32, i: nat)
    requires f.Shiftable() && i < 8 * f.n
    ensures Bit(Put(f, word, datum), i) == if f.Covers(i) then Bit(datum, i - f.off) else Bit(word, i)
  {
    hide Bit, Ones, Whole, And, Or, Not, Left;
    var mask := Ones(f.len);
    var kept, added := And(word, Not(Left(mask, f.off))), Left(And(datum, mask), f.off);
    AndBit(Or(kept, added), Whole(f.n), i);
    WholeBit(f.n, i);
    OrBit(kept, added, i);
    AndBit(word, Not(Left(mask, f.off)), i);
    NotBit(Left(mask, f.off), i);
    LeftBit(mask, f.off, i);
    LeftBit(And(datum, mask), f.off, i);
    if f.off <= i {
      OnesBit(f.len, i - f.off);
      AndBit(datum, mask, i - f.off);
    }
  }

  lemma FieldBit(f: Field, word: bv32, i: nat)
    requires f.Shiftable() && i < 32
    ensures Bit(And(Right(word, f.off), Ones(f.len)), i) == (i < f.len && Bit(word, f.off + i))
  {
    hide Bit, Ones, And, Right;
    AndBit(Right(word, f.off), Ones(f.len), i);
    RightBit(word, f.off, i);
    OnesBit(f.len, i);
  }

  /** Bit by bit, what a read gives: the field, filled up with its sign if it has one. */
  lemma GetBits(f: Field, signed: bool, word: bv32, i: nat)
    requires f.Shiftable() && i < 8 * f.n
    ensures Bit(Get(f, signed, word), i) ==
            if i < f.len then Bit(word, f.off + i) else signed && Bit(word, f.off + f.len - 1)
  {
    hide Bit, Ones, Whole, And, Or, Not, Right, HasBit;
    var mask := Ones(f.len);
    var v := And(Right(word, f.off), mask);
    FieldBit(f, word, i);
    FieldBit(f, word, f.len - 1);
    PowerBit(v, f.len - 1);
    AndBit(Or(v, Not(mask)), Whole(f.n), i);
    OrBit(v, Not(mask), i);
    NotBit(mask, i);
    OnesBit(f.len, i);
    WholeBit(f.n, i);
  }

  // ------------------------------------------------------------------- laws

  /** Two words have the same n bytes. */
  ghost predicate Alike(n: nat, x: bv32, y: bv32) {
    forall i: nat :: i < 8 * n ==> Bit(x, i) == Bit(y, i)
  }

  /** A write and then a read give the low bits of the datum, filled up with its
      sign when the type has one. */
  lemma WriteThenRead(f: Field, signed: bool, word: bv32, datum: bv32, i: nat)
    requires f.Valid() && i < 8 * f.n
    ensures Bit(Get(f, signed, Put(f, word, datum)), i) ==
            if i < f.len then Bit(datum, i) else signed && Bit(datum, f.len - 1)
  {
    hide Bit, Get, Put;
    GetBits(f, signed, Put(f, word, datum), i);
    PutBits(f, word, datum, f.off + if i < f.len then i else f.len - 1);
  }

  /** A write leaves every field apart from it as it reads. */
  lemma ApartReadsTheSame(f: Field, g: Field, signed: bool, word: bv32, datum: bv32)
    requires f.Valid() && g.Valid() && f.n == g.n && f.Apart(g)
    ensures Alike(f.n, Get(g, signed, Put(f, word, datum)), Get(g, signed, word))
  {
    hide Bit, Get, Put;
    forall i: nat | i < 8 * f.n ensures Bit(Get(g, signed, Put(f, word, datum)), i) == Bit(Get(g, signed, word), i) {
      GetBits(g, signed, Put(f, word, datum), i);
      GetBits(g, signed, word, i);
      PutBits(f, word, datum, g.off + if i < g.len then i else g.len - 1);
    }
  }

  /** Writes to fields apart from each other can be made in either order. */
  lemma ApartWritesCommute(f: Field, g: Field, word: bv32, d: bv32, e: bv32)
    requires f.Valid() && g.Valid() && f.n == g.n && f.Apart(g)
    ensures Alike(f.n, Put(g, Put(f, word, d), e), Put(f, Put(g, word, e), d))
  {
    hide Bit, Put;
    forall i: nat | i < 8 * f.n ensures Bit(Put(g, Put(f, word, d), e), i) == Bit(Put(f, Put(g, word, e), d), i) {
      PutBits(g, Put(f, word, d), e, i);
      PutBits(f, word, d, i);
      PutBits(f, Put(g, word, e), d, i);
      PutBits(g, word, e, i);
    }
  }

  /** Writing back what was read changes nothing. */
  lemma WriteBack(f: Field, signed: bool, word: bv32)
    requires f.Valid()
    ensures Alike(f.n, Put(f, word, Get(f, signed, word)), word)
  {
    hide Bit, Get, Put;
    forall i: nat | i < 8 * f.n ensures Bit(Put(f, word, Get(f, signed, word)), i) == Bit(word, i) {
      PutBits(f, word, Get(f, signed, word), i);
      if f.Covers(i) { GetBits(f, signed, word, i - f.off); }
    }
  }

  // ------------------------------------------------------------------ memory

  function Join(a: bv8, b: bv8, c: bv8, d: bv8): bv32 {
    (a as bv32 << 24) | (b as bv32 << 16) | (c as bv32 << 8) | d as bv32
  }

  /** A word in memory, in the byte order of the machine. */
  function Load(s: seq<bv8>, little: bool): bv32
    requires |s| in {1, 2, 4}
  {
    if |s| == 1 then Join(0, 0, 0, s[0])
    else if |s| == 2 then if little then Join(0, 0, s[1], s[0]) else Join(0, 0, s[0], s[1])
    else if little then Join(s[3], s[2], s[1], s[0])
    else Join(s[0], s[1], s[2], s[3])
  }

  predicate ByteBit(x: bv8, j: nat) { Bit(x as bv32, j) }

  /** The byte with q less significant ones, of a word of |s| bytes in memory. */
  function ByteAt(s: seq<bv8>, little: bool, q: nat): bv8 {
    if q >= |s| then 0 else s[if little then q else |s| - 1 - q]
  }

  /** Bit i of a word of |s| bytes in memory. */
  predicate MemoryBit(s: seq<bv8>, little: bool, i: nat) {
    ByteBit(ByteAt(s, little, i / 8), i % 8)
  }

  lemma JoinAt(a: bv8, b: bv8, c: bv8, d: bv8, i: bv6)
    requires i < 32
    ensures BitAt(Join(a, b, c, d), i) ==
            if i < 8 then BitAt(d as bv32, i) else if i < 16 then BitAt(c as bv32, i - 8)
            else if i < 24 then BitAt(b as bv32, i - 16) else BitAt(a as bv32, i - 24)
  {
  }

  lemma CountWithin(i: nat, k: nat, b: bv6)
    requires k <= i < 32 && b as int == k
    ensures Count(i - k) == Count(i) - b && Count(i) < 32 && Count(i - k) < 32
  {
    hide Count;
    CountMinus(i, k);
    CountIs(k);
    CountSmall(i);
    CountSmall(i - k);
  }

  lemma JoinBit(a: bv8, b: bv8, c: bv8, d: bv8, i: nat)
    requires i < 32
    ensures Bit(Join(a, b, c, d), i) ==
            if i < 8 then ByteBit(d, i) else if i < 16 then ByteBit(c, i - 8)
            else if i < 24 then ByteBit(b, i - 16) else ByteBit(a, i - 24)
  {
    hide Count, BitAt, Join;
    CountSmall(i);
    CountIs(i);
    CountOrder(Count(i), 8);
    CountOrder(Count(i), 16);
    CountOrder(Count(i), 24);
    JoinAt(a, b, c, d, Count(i));
    if i >= 24 { CountWithin(i, 24, 24); } else if i >= 16 { CountWithin(i, 16, 16); } else if i >= 8 { CountWithin(i, 8, 8); }
  }

  lemma LoadIs(s: seq<bv8>, little: bool)
    requires |s| in {1, 2, 4}
    ensures Load(s, little) == Join(ByteAt(s, little, 3), ByteAt(s, little, 2), ByteAt(s, little, 1), ByteAt(s, little, 0))
  {
    hide Join;
  }

  /** The word loaded has the bits that lie in memory, in either byte order. */
  lemma LoadBit(s: seq<bv8>, little: bool, i: nat)
    requires |s| in {1, 2, 4}
    ensures Bit(Load(s, little), i) == MemoryBit(s, little, i)
  {
    hide Bit, ByteBit, Join, Load, ByteAt;
    if i < 32 {
      LoadIs(s, little);
      JoinBit(ByteAt(s, little, 3), ByteAt(s, little, 2), ByteAt(s, little, 1), ByteAt(s, little, 0), i);
      assert i / 8 == if i < 8 then 0 else if i < 16 then 1 else if i < 24 then 2 else 3;
    } else {
      NothingBehind(s, little, i);
    }
  }

  lemma NothingBehind(s: seq<bv8>, little: bool, i: nat)
    requires |s| in {1, 2, 4} && i >= 32
    ensures !Bit(Load(s, little), i) && !MemoryBit(s, little, i)
  {
    hide Count;
    assert ByteAt(s, little, i / 8) == 0;
  }

  function Byte(x: bv32, k: bv6): bv8
    requires k < 32
  {
    ((x >> k) & 0xFF) as bv8
  }

  function Store(x: bv32, n: nat, little: bool): (s: seq<bv8>)
    requires n in {1, 2, 4}
    ensures |s| == n
  {
    if n == 1 then [Byte(x, 0)]
    else if n == 2 then if little then [Byte(x, 0), Byte(x, 8)] else [Byte(x, 8), Byte(x, 0)]
    else if little then [Byte(x, 0), Byte(x, 8), Byte(x, 16), Byte(x, 24)]
    else [Byte(x, 24), Byte(x, 16), Byte(x, 8), Byte(x, 0)]
  }

  lemma JoinBytes(x: bv32)
    ensures Join(Byte(x, 24), Byte(x, 16), Byte(x, 8), Byte(x, 0)) == x
    ensures x & 0xFFFF == x ==> Byte(x, 24) == 0 && Byte(x, 16) == 0
    ensures x & 0xFF == x ==> Byte(x, 24) == 0 && Byte(x, 16) == 0 && Byte(x, 8) == 0
  {
  }

  lemma LoadOfStore(x: bv32, n: nat, little: bool)
    requires n in {1, 2, 4} && And(x, Whole(n)) == x
    ensures Load(Store(x, n, little), little) == x
  {
    hide Byte, Join;
    JoinBytes(x);
  }

  lemma PutIsWhole(f: Field, word: bv32, datum: bv32)
    requires f.Shiftable()
    ensures And(Put(f, word, datum), Whole(f.n)) == Put(f, word, datum)
  {
    hide Or, Left, Not, Ones;
  }

  lemma GetIsWhole(f: Field, signed: bool, word: bv32)
    requires f.Shiftable() && And(word, Whole(f.n)) == word
    ensures And(Get(f, signed, word), Whole(f.n)) == Get(f, signed, word)
  {
    hide Bit, Or, Not, HasBit;
    var v := And(Right(word, f.off), Ones(f.len));
    WholeOfRight(f.n, word, f.off);
    WholeOfWhole(f.n, Or(v, Not(Ones(f.len))));
    WholeOfAnd(f.n, Right(word, f.off), Ones(f.len));
  }

  lemma WholeOfRight(n: nat, word: bv32, k: nat)
    requires k < 32 && And(word, Whole(n)) == word
    ensures And(Right(word, k), Whole(n)) == Right(word, k)
  {
    hide Count;
    CountSmall(k);
    RightWhole(n, word, Count(k));
  }

  lemma RightWhole(n: nat, word: bv32, k: bv6)
    requires k < 32 && And(word, Whole(n)) == word
    ensures And(ShiftRight(word, k), Whole(n)) == ShiftRight(word, k)
  {
  }

  lemma WholeOfWhole(n: nat, x: bv32)
    ensures And(And(x, Whole(n)), Whole(n)) == And(x, Whole(n))
  {
  }

  lemma WholeOfAnd(n: nat, x: bv32, y: bv32)
    requires And(x, Whole(n)) == x
    ensures And(And(x, y), Whole(n)) == And(x, y)
  {
  }

  lemma LoadIsWhole(s: seq<bv8>, little: bool)
    requires |s| in {1, 2, 4}
    ensures And(Load(s, little), Whole(|s|)) == Load(s, little)
  {
  }

  /** In memory: what a write leaves of a word, bit by bit. */
  ghost predicate Written(was: seq<bv8>, now: seq<bv8>, little: bool, f: Field, datum: seq<bv8>)
    requires f.Shiftable() && |was| == |now| == |datum| == f.n
  {
    forall i: nat :: i < 8 * f.n ==>
      MemoryBit(now, little, i) == if f.Covers(i) then MemoryBit(datum, little, i - f.off) else MemoryBit(was, little, i)
  }

  /** And what a read gives: the field's bits, filled up with its sign. */
  ghost predicate ReadOut(s: seq<bv8>, data: seq<bv8>, little: bool, f: Field, signed: bool)
    requires f.Shiftable() && |s| == |data| == f.n
  {
    forall i: nat :: i < 8 * f.n ==>
      MemoryBit(data, little, i)
      == if i < f.len then MemoryBit(s, little, f.off + i) else signed && MemoryBit(s, little, f.off + f.len - 1)
  }

  /** The word with the datum put in, back in memory. */
  function PutInto(s: seq<bv8>, little: bool, f: Field, datum: seq<bv8>): (s': seq<bv8>)
    requires f.Shiftable() && |s| == |datum| == f.n
    ensures |s'| == f.n
  {
    Store(Put(f, Load(s, little), Load(datum, little)), f.n, little)
  }

  function GetFrom(s: seq<bv8>, little: bool, f: Field, signed: bool): (s': seq<bv8>)
    requires f.Shiftable() && |s| == f.n
    ensures |s'| == f.n
  {
    Store(Get(f, signed, Load(s, little)), f.n, little)
  }

  lemma PutIntoWrites(s: seq<bv8>, little: bool, f: Field, datum: seq<bv8>)
    requires f.Shiftable() && |s| == |datum| == f.n
    ensures Written(s, PutInto(s, little, f, datum), little, f, datum)
  {
    hide Bit, Put, Load, Store, MemoryBit, Whole, And;
    var word := Put(f, Load(s, little), Load(datum, little));
    PutIsWhole(f, Load(s, little), Load(datum, little));
    LoadOfStore(word, f.n, little);
    forall i: nat | i < 8 * f.n
      ensures MemoryBit(PutInto(s, little, f, datum), little, i)
              == if f.Covers(i) then MemoryBit(datum, little, i - f.off) else MemoryBit(s, little, i)
    {
      PutBits(f, Load(s, little), Load(datum, little), i);
      LoadBit(PutInto(s, little, f, datum), little, i);
      LoadBit(s, little, i);
      if f.Covers(i) { LoadBit(datum, little, i - f.off); }
    }
  }

  lemma GetFromReads(s: seq<bv8>, little: bool, f: Field, signed: bool)
    requires f.Shiftable() && |s| == f.n
    ensures ReadOut(s, GetFrom(s, little, f, signed), little, f, signed)
  {
    hide Bit, Get, Load, Store, MemoryBit, Whole, And;
    var word := Get(f, signed, Load(s, little));
    LoadIsWhole(s, little);
    GetIsWhole(f, signed, Load(s, little));
    LoadOfStore(word, f.n, little);
    LoadBit(s, little, f.off + f.len - 1);
    forall i: nat | i < 8 * f.n
      ensures MemoryBit(GetFrom(s, little, f, signed), little, i)
              == if i < f.len then MemoryBit(s, little, f.off + i) else signed && MemoryBit(s, little, f.off + f.len - 1)
    {
      GetBits(f, signed, Load(s, little), i);
      LoadBit(GetFrom(s, little, f, signed), little, i);
      if i < f.len { LoadBit(s, little, f.off + i); }
    }
  }

  /** A short as it goes over the network. */
  function Short(k: nat): (s: seq<bv8>)
    requires k < 0x1_0000
    ensures |s| == 2
  {
    [(k / 0x100) as bv8, (k % 0x100) as bv8]
  }

  /** An error is answered without length and data. */
  function ReplyLength(err: int, n: nat): nat { if err != 0 then 6 else 8 + n }

  /** The agent's memory. */
  class Memory {
    const little: bool
    const bytes: array<bv8>

    constructor (bytes: array<bv8>, little: bool)
      ensures this.bytes == bytes && this.little == little
    {
      this.bytes, this.little := bytes, little;
    }

    /** The bit-field part of osubjHandleDataWrite: the word at `a` is changed in the
        field only, and no byte around it is. */
    method WriteField(a: nat, n: nat, off: nat, len: nat, datum: seq<bv8>) returns (err: int)
      requires a + n <= bytes.Length && |datum| == n && (n in {1, 2, 4} ==> Field(n, off, len).Shiftable())
      modifies bytes
      ensures err == if n in {1, 2, 4} then 0 else -1
      ensures bytes[..a] == old(bytes[..a]) && bytes[a + n..] == old(bytes[a + n..])
      ensures err == 0 ==> Written(old(bytes[a..a + n]), bytes[a..a + n], little, Field(n, off, len), datum)
      ensures err != 0 ==> bytes[..] == old(bytes[..])
    {
      hide Put, Load, Store, Written;
      if n !in {1, 2, 4} { return -1; }
      ghost var was := bytes[a..a + n];
      var f := Field(n, off, len);
      var word := Put(f, Load(bytes[a..a + n], little), Load(datum, little));
      var s := Store(word, n, little);
      PutIntoWrites(was, little, f, datum);
      forall i | 0 <= i < n { bytes[a + i] := s[i]; }
      assert bytes[a..a + n] == s;
      err := 0;
    }

    /** The field at `a` into the reply buffer; a width it cannot handle leaves the
        buffer as it is. */
    method FetchField(a: nat, n: nat, off: nat, len: nat, signed: bool, reply: array<bv8>) returns (err: int)
      requires a + n <= bytes.Length && n + 8 <= reply.Length && reply != bytes
      requires n in {1, 2, 4} ==> Field(n, off, len).Shiftable()
      modifies reply
      ensures err == if n in {1, 2, 4} then 0 else -4
      ensures reply[8 + n..] == old(reply[8 + n..])
      ensures if err == 0 then ReadOut(bytes[a..a + n], reply[8..8 + n], little, Field(n, off, len), signed)
              else reply[..] == old(reply[..])
    {
      hide Get, Load, Store, ReadOut;
      if n !in {1, 2, 4} { return -4; }
      var f, s := Field(n, off, len), bytes[a..a + n];
      GetFromReads(s, little, f, signed);
      var data := Store(Get(f, signed, Load(s, little)), n, little);
      forall i | 0 <= i < n { reply[8 + i] := data[i]; }
      assert reply[8..8 + n] == data && bytes[a..a + n] == s;
      err := 0;
    }

    /** The bit-field part of osubjHandleDataRead: a reply of id, error, length and
        data in a buffer that is not cleared. A length it cannot handle is noted as
        an error, but the error is cleared before the reply is sent, which then
        carries what the buffer held. */
    method ReadField(id: seq<bv8>, a: nat, n: nat, off: nat, len: nat, signed: bool, reply: array<bv8>) returns (plen: nat)
      requires |id| == 4 && 0 < n < 4192 && a + n <= bytes.Length && n + 8 <= reply.Length && reply != bytes
      requires n in {1, 2, 4} ==> Field(n, off, len).Shiftable()
      modifies reply
      ensures plen == 8 + n && reply[plen..] == old(reply[plen..])
      ensures reply[..8] == id + Short(0) + Short(n)
      ensures if n in {1, 2, 4} then ReadOut(bytes[a..a + n], reply[8..plen], little, Field(n, off, len), signed)
              else reply[8..plen] == old(reply[8..plen])
    {
      hide ReadOut, Short;
      ghost var word := bytes[a..a + n];
      var err := FetchField(a, n, off, len, signed, reply);
      ghost var data, behind := reply[8..8 + n], reply[8 + n..];
      err := 0;
      var head := id + Short(err) + Short(n);
      forall i | 0 <= i < 8 { reply[i] := head[i]; }
      assert reply[8..8 + n] == data && reply[8 + n..] == behind && bytes[a..a + n] == word;
      plen := ReplyLength(err, n);
    }
  }
}
