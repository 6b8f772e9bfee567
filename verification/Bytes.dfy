/** Bytes and big-endian words: what OHTONS and OHTONL put on the wire
    (include/optikus/conf-net.h), for a 32-bit long. */
module Bytes {
  newtype byte = x: int | 0 <= x < 0x100

  type Word = x: int | 0 <= x < 0x1_0000
  type Long = x: int | 0 <= x < 0x1_0000_0000

  datatype Option<+T> = None | Some(value: T)

  lemma Regroup<T>(a: seq<T>, b: seq<T>, c: seq<T>)
    ensures (a + b) + c == a + (b + c)
  {
  }

  function Be16(w: Word): (s: seq<byte>)
    ensures |s| == 2
  {
    [(w / 0x100) as byte, (w % 0x100) as byte]
  }

  function Un16(s: seq<byte>): (w: Word)
    requires |s| >= 2
  {
    s[0] as int * 0x100 + s[1] as int
  }

  function Be32(w: Long): (s: seq<byte>)
    ensures |s| == 4
  {
    Be16(w / 0x1_0000) + Be16(w % 0x1_0000)
  }

  function Un32(s: seq<byte>): (w: Long)
    requires |s| >= 4
  {
    Un16(s) * 0x1_0000 + Un16(s[2..])
  }

  /** The bytes of a word are its digits to the base 256, the highest first. */
  lemma Be32Digits(w: Long)
    ensures var s := Be32(w);
            w == s[0] as int * 0x100_0000 + s[1] as int * 0x1_0000 + s[2] as int * 0x100 + s[3] as int
  {
  }

  lemma Un32OfBe32(w: Long, rest: seq<byte>)
    ensures Un32(Be32(w) + rest) == w
  {
    var s := Be32(w) + rest;
    assert s[..2] == Be16(w / 0x1_0000);
    assert s[2..] == Be16(w % 0x1_0000) + rest;
  }

  /** The other direction: every four bytes are the image of the long they decode to. */
  lemma Be32OfUn32(s: seq<byte>)
    requires |s| >= 4
    ensures Be32(Un32(s)) == s[..4]
  {
    var hi, lo := Un16(s), Un16(s[2..]);
    var w := Un32(s);
    assert w / 0x1_0000 == hi && w % 0x1_0000 == lo;
    Be16OfUn16(s);
    Be16OfUn16(s[2..]);
    assert s[..4] == s[..2] + s[2..][..2];
  }

  lemma Be16OfUn16(s: seq<byte>)
    requires |s| >= 2
    ensures Be16(Un16(s)) == s[..2]
  {
  }
}
