/**
 Bytes, their bitwise operations, and integers as little-endian memory and big-endian wire fields.
 */
module Bytes {

  type Byte = x: int | 0 <= x < 0x100

  type Word = x: int | 0 <= x < 0x1_0000

  type Dword = x: int | 0 <= x < 0x1_0000_0000

  datatype Option<T> = None | Some(value: T)

  function Min(a: nat, b: nat): nat {
    if a < b then a else b
  }

  // ---------- bitwise operations ----------

  predicate IsPowerOfTwo(m: nat) {
    m == 1 || (m > 1 && m % 2 == 0 && IsPowerOfTwo(m / 2))
  }

  /** The bitwise or of two numbers, as far as the bits below `m` go. */
  function OrBits(a: nat, b: nat, m: nat): (r: nat)
    requires IsPowerOfTwo(m)
    ensures r < m
  {
    if m == 1 then 0
    else 2 * OrBits(a / 2, b / 2, m / 2) + (if a % 2 == 1 || b % 2 == 1 then 1 else 0)
  }

  /** The bitwise and of two numbers, as far as the bits below `m` go. */
  function AndBits(a: nat, b: nat, m: nat): (r: nat)
    requires IsPowerOfTwo(m)
    ensures r < m
  {
    if m == 1 then 0
    else 2 * AndBits(a / 2, b / 2, m / 2) + (if a % 2 == 1 && b % 2 == 1 then 1 else 0)
  }

  function Or(a: Byte, b: Byte): Byte {
    OrBits(a, b, 0x100)
  }

  function And(a: Byte, b: Byte): Byte {
    AndBits(a, b, 0x100)
  }

  lemma {:induction false} ComplementSum(u: nat, x: nat, y: nat, m: nat)
    requires IsPowerOfTwo(m) && u < m && x + y == m - 1
    ensures OrBits(u, x, m) + OrBits(u, y, m) == u + m - 1
  {
    if m > 1 {
      ComplementSum(u / 2, x / 2, y / 2, m / 2);
    }
  }

  lemma {:induction false} ComplementAnd(u: nat, x: nat, y: nat, m: nat)
    requires IsPowerOfTwo(m) && u < m && x + y == m - 1
    ensures AndBits(OrBits(u, x, m), OrBits(u, y, m), m) == u
  {
    if m > 1 {
      ComplementAnd(u / 2, x / 2, y / 2, m / 2);
    }
  }

  lemma {:induction false} OrZero(u: nat, m: nat)
    requires IsPowerOfTwo(m) && u < m
    ensures OrBits(u, 0, m) == u
  {
    if m > 1 {
      OrZero(u / 2, m / 2);
    }
  }

  /** Setting the lowest bit. */
  lemma {:induction false} OrOne(u: Byte)
    ensures Or(u, 1) == if u % 2 == 0 then u + 1 else u
  {
    OrZero(u / 2, 0x80);
  }

  /** The bit of weight 2^i. */
  predicate Bit(x: nat, i: nat) {
    if i == 0 then x % 2 == 1 else Bit(x / 2, i - 1)
  }

  lemma {:induction false} OrIsBitwise(a: nat, b: nat, m: nat, i: nat)
    requires IsPowerOfTwo(m)
    ensures Bit(OrBits(a, b, m), i) <==> Bit(m - 1, i) && (Bit(a, i) || Bit(b, i))
  {
    if m == 1 {
      NoBits(i);
    } else if i > 0 {
      OrIsBitwise(a / 2, b / 2, m / 2, i - 1);
      assert (m - 1) / 2 == m / 2 - 1;
    }
  }

  lemma {:induction false} AndIsBitwise(a: nat, b: nat, m: nat, i: nat)
    requires IsPowerOfTwo(m)
    ensures Bit(AndBits(a, b, m), i) <==> Bit(m - 1, i) && Bit(a, i) && Bit(b, i)
  {
    if m == 1 {
      NoBits(i);
    } else if i > 0 {
      AndIsBitwise(a / 2, b / 2, m / 2, i - 1);
      assert (m - 1) / 2 == m / 2 - 1;
    }
  }

  lemma {:induction false} NoBits(i: nat)
    ensures !Bit(0, i)
  {
    if i > 0 {
      NoBits(i - 1);
    }
  }

  /** The two halves in which a discovery reply sends a byte. */
  function HighHalf(u: Byte): Byte {
    Or(u, 0xaa)
  }

  function LowHalf(u: Byte): Byte {
    Or(u, 0x55)
  }

  /** The two halves give the byte back, and together they are the byte and 0xff. */
  lemma {:induction false} HalvesRestore(u: Byte)
    ensures And(HighHalf(u), LowHalf(u)) == u
    ensures HighHalf(u) + LowHalf(u) == u + 0xff
  {
    ComplementAnd(u, 0xaa, 0x55, 0x100);
    ComplementSum(u, 0xaa, 0x55, 0x100);
  }

  /** The first half has all the odd bits set, and the second all the even ones; the other bits are the byte's. */
  lemma {:induction false} HalvesKeepBits(u: Byte, i: nat)
    requires i < 8
    ensures Bit(HighHalf(u), i) <==> i % 2 == 1 || Bit(u, i)
    ensures Bit(LowHalf(u), i) <==> i % 2 == 0 || Bit(u, i)
  {
    OrIsBitwise(u, 0xaa, 0x100, i);
    OrIsBitwise(u, 0x55, 0x100, i);
    BitsOfMasks(i);
  }

  /** The number of 2n bits of which every other one is set, from the lowest on. */
  function Alternating(n: nat): nat {
    if n == 0 then 0 else 4 * Alternating(n - 1) + 1
  }

  lemma {:induction false} AlternatingBits(n: nat, i: nat)
    requires i < 2 * n
    ensures Bit(3 * Alternating(n), i) && (Bit(2 * Alternating(n), i) <==> i % 2 == 1)
    ensures Bit(Alternating(n), i) <==> i % 2 == 0
  {
    var x := Alternating(n - 1);
    assert Alternating(n) == 4 * x + 1;
    assert 2 * Alternating(n) == 4 * (2 * x) + 2 && 3 * Alternating(n) == 4 * (3 * x) + 3;
    LowBits(x, 1, i);
    LowBits(2 * x, 2, i);
    LowBits(3 * x, 3, i);
    if i >= 2 {
      AlternatingBits(n - 1, i - 2);
    }
  }

  /** The two lowest bits, and those above them. */
  lemma {:induction false} LowBits(x: nat, low: nat, i: nat)
    requires low < 4
    ensures Bit(4 * x + low, i) == if i == 0 then low % 2 == 1 else if i == 1 then low / 2 == 1 else Bit(x, i - 2)
  {
    var y := 4 * x + low;
    assert y % 2 == low % 2 && y / 2 == 2 * x + low / 2 && (y / 2) % 2 == low / 2 && y / 2 / 2 == x;
  }

  lemma {:induction false} BitsOfMasks(i: nat)
    requires i < 8
    ensures Bit(0xff, i) && (Bit(0xaa, i) <==> i % 2 == 1) && (Bit(0x55, i) <==> i % 2 == 0)
  {
    assert Alternating(1) == 1 && Alternating(2) == 5 && Alternating(3) == 0x15 && Alternating(4) == 0x55;
    AlternatingBits(4, i);
  }

  // ---------- numbers ----------

  /** The number that bytes stand for on the wire, where the first weighs most. */
  function BigEndian(s: seq<Byte>): nat {
    if s == [] then 0 else BigEndian(s[..|s| - 1]) * 0x100 + s[|s| - 1]
  }

  /** The number that bytes stand for in memory, where the first weighs least. */
  function LittleEndian(s: seq<Byte>): nat {
    if s == [] then 0 else s[0] + 0x100 * LittleEndian(s[1..])
  }

  lemma {:induction false} BigEndianAppend(s: seq<Byte>, b: Byte)
    ensures BigEndian(s + [b]) == BigEndian(s) * 0x100 + b
  {
    assert (s + [b])[..|s|] == s;
  }

  lemma {:induction false} LittleEndianPrepend(b: Byte, s: seq<Byte>)
    ensures LittleEndian([b] + s) == b + 0x100 * LittleEndian(s)
  {
    assert ([b] + s)[1..] == s;
  }

  function Reversed(s: seq<Byte>): (r: seq<Byte>)
    ensures |r| == |s|
  {
    if s == [] then [] else Reversed(s[1..]) + [s[0]]
  }

  /** The order of the bytes is all that differs. */
  lemma {:induction false} ReversedIsBigEndian(s: seq<Byte>)
    ensures BigEndian(Reversed(s)) == LittleEndian(s)
  {
    if s != [] {
      var rest := s[1..];
      ReversedIsBigEndian(rest);
      BigEndianAppend(Reversed(rest), s[0]);
      assert Reversed(s) == Reversed(rest) + [s[0]];
      assert LittleEndian(s) == s[0] + 0x100 * LittleEndian(rest);
    }
  }

  // ---------- integers ----------

  function Le16(x: Word): (s: seq<Byte>)
    ensures |s| == 2
  {
    [x % 0x100, x / 0x100]
  }

  function Le32(x: Dword): (s: seq<Byte>)
    ensures |s| == 4
  {
    Le16(x % 0x1_0000) + Le16(x / 0x1_0000)
  }

  /** The bytes of an integer in memory stand for it. */
  lemma {:induction false} LeIsLittleEndian(w: Word, d: Dword)
    ensures LittleEndian(Le16(w)) == w && LittleEndian(Le32(d)) == d
  {
    TwoBytes(w % 0x100, w / 0x100);
    var lo, hi := d % 0x1_0000, d / 0x1_0000;
    TwoBytes(hi % 0x100, hi / 0x100);
    assert Le32(d) == [lo % 0x100] + ([lo / 0x100] + Le16(hi));
    LittleEndianPrepend(lo / 0x100, Le16(hi));
    LittleEndianPrepend(lo % 0x100, [lo / 0x100] + Le16(hi));
  }

  lemma {:induction false} TwoBytes(a: Byte, b: Byte)
    ensures LittleEndian([a, b]) == a + 0x100 * b && BigEndian([a, b]) == a * 0x100 + b
  {
    assert [a, b] == [a] + [b] && [b] == [b] + [];
    LittleEndianPrepend(b, []);
    LittleEndianPrepend(a, [b]);
    BigEndianAppend([], a);
    BigEndianAppend([a], b);
    assert [] + [a] == [a];
  }

  function Be16(hi: Byte, lo: Byte): Word {
    hi * 0x100 + lo
  }

  function Be32(b3: Byte, b2: Byte, b1: Byte, b0: Byte): Dword {
    Be16(b3, b2) * 0x1_0000 + Be16(b1, b0)
  }

  lemma {:induction false} Le16RoundTrip(x: Word)
    ensures Be16(Le16(x)[1], Le16(x)[0]) == x
  {
  }

  lemma {:induction false} Le32RoundTrip(x: Dword)
    ensures Be32(Le32(x)[3], Le32(x)[2], Le32(x)[1], Le32(x)[0]) == x
  {
    Le16RoundTrip(x % 0x1_0000);
    Le16RoundTrip(x / 0x1_0000);
  }

  /** The sum of the bytes, without a bound. */
  function Sum(s: seq<Byte>): (n: nat)
    ensures n <= 0xff * |s|
  {
    if s == [] then 0 else Sum(s[..|s| - 1]) + s[|s| - 1]
  }

  lemma {:induction false} SumConcat(s: seq<Byte>, t: seq<Byte>)
    ensures Sum(s + t) == Sum(s) + Sum(t)
  {
    if t == [] {
      assert s + t == s;
    } else {
      assert (s + t)[..|s + t| - 1] == s + t[..|t| - 1];
      SumConcat(s, t[..|t| - 1]);
    }
  }
}
