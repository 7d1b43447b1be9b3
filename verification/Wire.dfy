/**
 The wire format of `src/simgear/fgmpmsg.hxx`: byte swaps, XDR words, and words as numbers.

 `little` says on which kind of machine the program runs. What travels is the same on both: big-endian
 integers, as in sections 3.2 and 3.5 of RFC 1832.
 */
module Wire {

  type byte = bv8
  type Bytes = seq<byte>

  // ---------------------------------------------------------------- byte order

  function Bswap32(x: bv32): bv32
  {
    var y := ((x >> 8) & 0x00FF00FF) | ((x << 8) & 0xFF00FF00);
    (y >> 16) | (y << 16)
  }

  function Bswap64(x: bv64): bv64
  {
    var y := ((x >> 8) & 0x00FF00FF00FF00FF) | ((x << 8) & 0xFF00FF00FF00FF00);
    var z := ((y >> 16) & 0x0000FFFF0000FFFF) | ((y << 16) & 0xFFFF0000FFFF0000);
    (z >> 32) | (z << 32)
  }

  /** The word whose bytes are, from the most significant, `a`, `b`, `c`, `d`. */
  function Join(a: byte, b: byte, c: byte, d: byte): bv32
  {
    ((a as bv32) << 24) | ((b as bv32) << 16) | ((c as bv32) << 8) | (d as bv32)
  }

  /** The bytes of a word, most significant first. */
  function Split(w: bv32): (b: Bytes)
    ensures |b| == 4
    ensures Join(b[0], b[1], b[2], b[3]) == w
  {
    [((w >> 24) & 0xFF) as byte, ((w >> 16) & 0xFF) as byte, ((w >> 8) & 0xFF) as byte, (w & 0xFF) as byte]
  }

  lemma SplitJoin(a: byte, b: byte, c: byte, d: byte)
    ensures Split(Join(a, b, c, d)) == [a, b, c, d]
  {
  }

  function Join64(hi: bv32, lo: bv32): bv64
  {
    ((hi as bv64) << 32) | (lo as bv64)
  }

  /** Swapping reverses the bytes, and doing it twice changes nothing. */
  lemma SwapReverses(a: byte, b: byte, c: byte, d: byte)
    ensures Bswap32(Join(a, b, c, d)) == Join(d, c, b, a)
    ensures Bswap32(Bswap32(Join(a, b, c, d))) == Join(a, b, c, d)
  {
  }

  /** A 64-bit swap swaps each half and exchanges them. */
  lemma SwapReverses64(hi: bv32, lo: bv32)
    ensures Bswap64(Join64(hi, lo)) == Join64(Bswap32(lo), Bswap32(hi))
    ensures Bswap64(Bswap64(Join64(hi, lo))) == Join64(hi, lo)
  {
  }

  /** The value of a 32-bit variable whose storage holds the bytes `m`. */
  function Load(m: Bytes, little: bool): bv32
    requires |m| == 4
  {
    if little then Join(m[3], m[2], m[1], m[0]) else Join(m[0], m[1], m[2], m[3])
  }

  /** The bytes a 32-bit variable holding `w` occupies. */
  function Store(w: bv32, little: bool): (m: Bytes)
    ensures |m| == 4 && Load(m, little) == w
  {
    var b := Split(w);
    if little then [b[3], b[2], b[1], b[0]] else b
  }

  /** `XDR_encode_uint32` and `XDR_decode_uint32`, which are the same function. */
  function Xdr(w: bv32, little: bool): bv32
  {
    if little then Bswap32(w) else w
  }

  /** Encoding lays a value out big-endian on either machine, and decoding takes it from there. */
  lemma XdrIsBigEndian(w: bv32, m: Bytes, little: bool)
    requires |m| == 4
    ensures Store(Xdr(w, little), little) == Split(w)
    ensures Xdr(Load(m, little), little) == Join(m[0], m[1], m[2], m[3])
    ensures Xdr(Xdr(w, little), little) == w
  {
    var b := Split(w);
    SwapReverses(b[0], b[1], b[2], b[3]);
    SplitJoin(b[3], b[2], b[1], b[0]);
    SwapReverses(m[3], m[2], m[1], m[0]);
  }

  // ---------------------------------------------------------------- lengths as numbers

  /** The number a byte stands for, bit by bit. */
  function ByteValue(b: byte): (n: nat)
    ensures n < 256
  {
    (if b & 0x80 != 0 then 128 else 0) + (if b & 0x40 != 0 then 64 else 0) +
    (if b & 0x20 != 0 then 32 else 0) + (if b & 0x10 != 0 then 16 else 0) +
    (if b & 0x08 != 0 then 8 else 0) + (if b & 0x04 != 0 then 4 else 0) +
    (if b & 0x02 != 0 then 2 else 0) + (if b & 0x01 != 0 then 1 else 0)
  }

  function FromBits(b7: bool, b6: bool, b5: bool, b4: bool, b3: bool, b2: bool, b1: bool, b0: bool): byte
  {
    (if b7 then 0x80 else 0) | (if b6 then 0x40 else 0) | (if b5 then 0x20 else 0) | (if b4 then 0x10 else 0) |
    (if b3 then 0x08 else 0) | (if b2 then 0x04 else 0) | (if b1 then 0x02 else 0) | (if b0 then 0x01 else 0)
  }

  function Odd(n: nat): bool
  {
    n % 2 == 1
  }

  function ByteOf(n: nat): byte
    requires n < 256
  {
    var q1 := n / 2;
    var q2 := q1 / 2;
    var q3 := q2 / 2;
    var q4 := q3 / 2;
    var q5 := q4 / 2;
    var q6 := q5 / 2;
    FromBits(Odd(q6 / 2), Odd(q6), Odd(q5), Odd(q4), Odd(q3), Odd(q2), Odd(q1), Odd(n))
  }

  lemma BitsValue(b7: bool, b6: bool, b5: bool, b4: bool, b3: bool, b2: bool, b1: bool, b0: bool)
    ensures ByteValue(FromBits(b7, b6, b5, b4, b3, b2, b1, b0)) ==
            (if b7 then 128 else 0) + (if b6 then 64 else 0) + (if b5 then 32 else 0) + (if b4 then 16 else 0) +
            (if b3 then 8 else 0) + (if b2 then 4 else 0) + (if b1 then 2 else 0) + (if b0 then 1 else 0)
  {
  }

  lemma BitsSum(n: nat, q1: nat, q2: nat, q3: nat, q4: nat, q5: nat, q6: nat, q7: nat)
    requires n < 256
    requires q1 == n / 2 && q2 == q1 / 2 && q3 == q2 / 2 && q4 == q3 / 2 && q5 == q4 / 2 && q6 == q5 / 2 && q7 == q6 / 2
    ensures n == (if Odd(q7) then 128 else 0) + (if Odd(q6) then 64 else 0) + (if Odd(q5) then 32 else 0) +
                 (if Odd(q4) then 16 else 0) + (if Odd(q3) then 8 else 0) + (if Odd(q2) then 4 else 0) +
                 (if Odd(q1) then 2 else 0) + (if Odd(n) then 1 else 0)
  {
    hide Odd;
    Halve(n, q1);
    Halve(q1, q2);
    Halve(q2, q3);
    Halve(q3, q4);
    Halve(q4, q5);
    Halve(q5, q6);
    Halve(q6, q7);
    Halve(q7, 0);
  }

  lemma Halve(n: nat, q: nat)
    requires q == n / 2
    ensures n == 2 * q + if Odd(n) then 1 else 0
  {
  }

  lemma ByteValueOf(n: nat)
    requires n < 256
    ensures ByteValue(ByteOf(n)) == n
  {
    hide ByteValue, FromBits, Odd;
    var q1 := n / 2;
    var q2 := q1 / 2;
    var q3 := q2 / 2;
    var q4 := q3 / 2;
    var q5 := q4 / 2;
    var q6 := q5 / 2;
    BitsValue(Odd(q6 / 2), Odd(q6), Odd(q5), Odd(q4), Odd(q3), Odd(q2), Odd(q1), Odd(n));
    BitsSum(n, q1, q2, q3, q4, q5, q6, q6 / 2);
  }

  /** The number four bytes stand for, most significant first. */
  function Number(a: nat, b: nat, c: nat, d: nat): nat
  {
    ((a * 256 + b) * 256 + c) * 256 + d
  }

  /** The number a word stands for. */
  function Value(w: bv32): nat
  {
    var b := Split(w);
    Number(ByteValue(b[0]), ByteValue(b[1]), ByteValue(b[2]), ByteValue(b[3]))
  }

  lemma ValueIsBounded(w: bv32)
    ensures Value(w) < 0x1_0000_0000
  {
    hide ByteValue, Split;
  }

  function WordOf(n: nat): bv32
    requires n < 0x1_0000_0000
  {
    var q1 := n / 256;
    var q2 := q1 / 256;
    Join(ByteOf(q2 / 256), ByteOf(q2 % 256), ByteOf(q1 % 256), ByteOf(n % 256))
  }

  lemma NumberOf(n: nat, q1: nat, q2: nat, q3: nat)
    requires q1 == n / 256 && q2 == q1 / 256 && q3 == q2 / 256
    ensures Number(q3, q2 % 256, q1 % 256, n % 256) == n
  {
    Divided(n, q1);
    Divided(q1, q2);
    Divided(q2, q3);
  }

  lemma Divided(n: nat, q: nat)
    requires q == n / 256
    ensures n == q * 256 + n % 256
  {
  }

  lemma ValueOfWord(n: nat)
    requires n < 0x1_0000_0000
    ensures Value(WordOf(n)) == n
  {
    hide ByteValue, ByteOf, Join, Split, Number;
    var q1 := n / 256;
    var q2 := q1 / 256;
    var a, b, c, d := q2 / 256, q2 % 256, q1 % 256, n % 256;
    ByteValueOf(a);
    ByteValueOf(b);
    ByteValueOf(c);
    ByteValueOf(d);
    SplitJoin(ByteOf(a), ByteOf(b), ByteOf(c), ByteOf(d));
    NumberOf(n, q1, q2, a);
  }

  // ---------------------------------------------------------------- adding numbers

  /** Addition in 32 bits. */
  function Plus(a: bv32, b: bv32): bv32
  {
    a + b
  }

  lemma PlusIsAssociative(a: bv32, b: bv32, c: bv32)
    ensures Plus(Plus(a, b), c) == Plus(a, Plus(b, c)) && Plus(a, 0) == a
  {
  }

  function Successor(w: bv32): bv32
  {
    Plus(w, 1)
  }

  function NextByte(b: byte): byte
  {
    b + 1
  }

  lemma ValueOfNextByte(b: byte)
    ensures ByteValue(b) == (if b == 0xFF then 255 else ByteValue(NextByte(b)) - 1)
    ensures ByteValue(0) == 0
  {
  }

  /** Adding one carries over bytes that are full. */
  lemma NextInFourth(a: byte, b: byte, c: byte, d: byte)
    requires d != 0xFF
    ensures Successor(Join(a, b, c, d)) == Join(a, b, c, NextByte(d))
  {
  }

  lemma NextInThird(a: byte, b: byte, c: byte)
    requires c != 0xFF
    ensures Successor(Join(a, b, c, 0xFF)) == Join(a, b, NextByte(c), 0)
  {
  }

  lemma NextInSecond(a: byte, b: byte)
    requires b != 0xFF
    ensures Successor(Join(a, b, 0xFF, 0xFF)) == Join(a, NextByte(b), 0, 0)
  {
  }

  lemma NextInFirst(a: byte)
    requires a != 0xFF
    ensures Successor(Join(a, 0xFF, 0xFF, 0xFF)) == Join(NextByte(a), 0, 0, 0)
  {
  }

  lemma NextOfLast()
    ensures Successor(Join(0xFF, 0xFF, 0xFF, 0xFF)) == Join(0, 0, 0, 0)
  {
  }

  lemma ValueOfJoin(a: byte, b: byte, c: byte, d: byte)
    ensures Value(Join(a, b, c, d)) == Number(ByteValue(a), ByteValue(b), ByteValue(c), ByteValue(d))
  {
    hide Join, Split, ByteValue, Number;
    SplitJoin(a, b, c, d);
  }

  lemma NextNumber(a: nat, b: nat, c: nat, d: nat)
    requires a < 256 && b < 256 && c < 256 && d < 256
    ensures Number(a, b, c, d + 1) == Number(a, b, c, d) + 1
    ensures Number(a, b, c + 1, 0) == Number(a, b, c, 255) + 1
    ensures Number(a, b + 1, 0, 0) == Number(a, b, 255, 255) + 1
    ensures Number(a + 1, 0, 0, 0) == Number(a, 255, 255, 255) + 1
  {
    Spread(a, b, c, d);
    Spread(a, b, c, d + 1);
    Spread(a, b, c + 1, 0);
    Spread(a, b, c, 255);
    Spread(a, b + 1, 0, 0);
    Spread(a, b, 255, 255);
    Spread(a + 1, 0, 0, 0);
    Spread(a, 255, 255, 255);
  }

  lemma Spread(a: nat, b: nat, c: nat, d: nat)
    ensures Number(a, b, c, d) == 0x100_0000 * a + 0x1_0000 * b + 0x100 * c + d
  {
  }

  lemma NumberRange(a: nat, b: nat, c: nat, d: nat)
    requires a < 256 && b < 256 && c < 256 && d < 256
    ensures Number(a, b, c, d) == 0xFFFF_FFFF <==> a == b == c == d == 255
    ensures Number(a, b, c, d) == 0 <==> a == b == c == d == 0
  {
    hide Number;
    Spread(a, b, c, d);
  }

  /** The next word stands for the next number, and after the last comes 0. */
  lemma ValueOfNext(w: bv32)
    ensures Value(Successor(w)) == if Value(w) == 0xFFFF_FFFF then 0 else Value(w) + 1
  {
    hide Join, Split, ByteValue, Value, Successor, NextByte, Number;
    var x := Split(w);
    var a, b, c, d := x[0], x[1], x[2], x[3];
    ValueOfJoin(a, b, c, d);
    ValueOfNextByte(a);
    ValueOfNextByte(b);
    ValueOfNextByte(c);
    ValueOfNextByte(d);
    NextNumber(ByteValue(a), ByteValue(b), ByteValue(c), ByteValue(d));
    NumberRange(ByteValue(a), ByteValue(b), ByteValue(c), ByteValue(d));
    NumberRange(0, 0, 0, 0);
    if d != 0xFF {
      NextInFourth(a, b, c, d);
      ValueOfJoin(a, b, c, NextByte(d));
    } else if c != 0xFF {
      NextInThird(a, b, c);
      ValueOfJoin(a, b, NextByte(c), 0);
    } else if b != 0xFF {
      NextInSecond(a, b);
      ValueOfJoin(a, NextByte(b), 0, 0);
    } else if a != 0xFF {
      NextInFirst(a);
      ValueOfJoin(NextByte(a), 0, 0, 0);
    } else {
      NextOfLast();
      ValueOfJoin(0, 0, 0, 0);
    }
  }

  function Predecessor(w: bv32): bv32
  {
    w - 1
  }

  lemma ByteOfZero(b: byte)
    ensures ByteValue(b) == 0 <==> b == 0
  {
  }

  lemma ZeroWordValue(w: bv32)
    ensures Value(w) == 0 <==> w == 0
  {
    hide ByteValue, Number;
    var x := Split(w);
    ByteOfZero(x[0]);
    ByteOfZero(x[1]);
    ByteOfZero(x[2]);
    ByteOfZero(x[3]);
    NumberRange(ByteValue(x[0]), ByteValue(x[1]), ByteValue(x[2]), ByteValue(x[3]));
  }

  lemma PlusNext(a: bv32, b: bv32)
    ensures Plus(a, Successor(b)) == Successor(Plus(a, b))
  {
    hide Plus;
    PlusIsAssociative(a, b, 1);
  }

  lemma NextBefore(b: bv32)
    ensures Successor(Predecessor(b)) == b
  {
  }

  lemma Wrap(n: nat)
    ensures (n + 1) % 0x1_0000_0000 == if n % 0x1_0000_0000 == 0xFFFF_FFFF then 0 else n % 0x1_0000_0000 + 1
  {
  }

  /** The sum of two words stands for the sum of their numbers, modulo 2 to the 32. */
  lemma {:induction false} ValueOfSum(a: bv32, b: bv32)
    ensures Value(Plus(a, b)) == (Value(a) + Value(b)) % 0x1_0000_0000
    decreases Value(b)
  {
    hide Value, Successor, Predecessor, Plus;
    ValueIsBounded(a);
    ZeroWordValue(b);
    if b == 0 {
      PlusIsAssociative(a, 0, 0);
    } else {
      var c := Predecessor(b);
      NextBefore(b);
      PlusNext(a, c);
      ValueOfNext(c);
      ValueOfNext(Plus(a, c));
      ValueOfSum(a, c);
      Wrap(Value(a) + Value(c));
    }
  }
}
