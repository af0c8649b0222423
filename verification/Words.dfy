/**
 Machine words as bit vectors, whose operations can be evaluated, and the natural numbers
 they stand for.
 */
module Words {
  import opened Bitwise

  function LowBit(x: bv64): (b: nat)
    ensures b < 2
  {
    if x & 1 == 1 then 1 else 0
  }

  function Value(x: bv64): nat
    decreases x
  {
    if x == 0 then 0 else 2 * Value(x >> 1) + LowBit(x)
  }

  function Half(x: bv64): bv64
  {
    x >> 1
  }

  // The sum of the polynomials.
  function Add(a: bv64, b: bv64): bv64
  {
    a ^ b
  }

  lemma ValueStep(x: bv64)
    ensures Value(x) == 2 * Value(Half(x)) + LowBit(x)
  {
  }

  lemma BitsOfAdd(a: bv64, b: bv64)
    ensures Half(Add(a, b)) == Add(Half(a), Half(b))
    ensures LowBit(Add(a, b)) == BitXor(LowBit(a), LowBit(b))
  {
    assert (a ^ b) & 1 == (a & 1) ^ (b & 1);
    assert a & 1 == 0 || a & 1 == 1;
    assert b & 1 == 0 || b & 1 == 1;
  }

  lemma ValueAddStep(a: bv64, b: bv64)
    requires Value(Add(Half(a), Half(b))) == Xor(Value(Half(a)), Value(Half(b)))
    ensures Value(Add(a, b)) == Xor(Value(a), Value(b))
  {
    hide *;
    BitsOfAdd(a, b);
    ValueStep(a);
    ValueStep(b);
    ValueStep(Add(a, b));
    XorStep(Value(Half(a)), LowBit(a), Value(Half(b)), LowBit(b));
  }

  // The bits of either word.
  function Either(a: bv64, b: bv64): bv64
  {
    a | b
  }

  // The number of bits up to the highest that is one.
  function Width(x: bv64): nat
    decreases x
  {
    if x == 0 then 0 else Width(x >> 1) + 1
  }

  lemma HalvesShorter(a: bv64, b: bv64)
    requires Width(Either(a, b)) != 0
    ensures Width(Either(Half(a), Half(b))) < Width(Either(a, b))
  {
    assert (a | b) >> 1 == (a >> 1) | (b >> 1);
  }

  lemma ValueAddNone(a: bv64, b: bv64)
    requires Width(Either(a, b)) == 0
    ensures Value(Add(a, b)) == Xor(Value(a), Value(b))
  {
    NoBits(a, b);
    ValueZero();
    hide *;
    XorZero(0);
  }

  // The operator on words is the one on natural numbers.
  lemma {:induction false} ValueAdd(a: bv64, b: bv64)
    ensures Value(Add(a, b)) == Xor(Value(a), Value(b))
    decreases Width(Either(a, b))
  {
    hide *;
    if Width(Either(a, b)) == 0 {
      ValueAddNone(a, b);
    } else {
      HalvesShorter(a, b);
      ValueAdd(Half(a), Half(b));
      ValueAddStep(a, b);
    }
  }

  lemma NoBits(a: bv64, b: bv64)
    requires Width(Either(a, b)) == 0
    ensures a == 0 && b == 0 && Add(a, b) == 0
  {
  }

  lemma ValueZero()
    ensures Value(0) == 0
  {
  }

  lemma ValueDouble(x: bv64)
    requires x & 0x8000000000000000 == 0
    ensures Value(x << 1) == 2 * Value(x)
  {
    hide *;
    BitsOfDouble(x);
    ValueStep(x << 1);
  }

  lemma BitsOfDouble(x: bv64)
    requires x & 0x8000000000000000 == 0
    ensures Half(x << 1) == x && LowBit(x << 1) == 0
  {
    assert (x << 1) & 1 == 0;
  }

  // A hexadecimal digit, and what is left without it.
  function Digit(x: bv64): (d: nat)
    ensures d < 16
  {
    (if x & 8 == 8 then 8 else 0) + (if x & 4 == 4 then 4 else 0) + (if x & 2 == 2 then 2 else 0) + LowBit(x)
  }

  function Rest(x: bv64): bv64
  {
    x >> 4
  }

  lemma DigitBits(x: bv64, a: bv64, b: bv64, c: bv64, d: bv64)
    requires a == x >> 1 && b == a >> 1 && c == b >> 1 && d == c >> 1
    ensures d == Rest(x) && Digit(x) == 8 * LowBit(c) + 4 * LowBit(b) + 2 * LowBit(a) + LowBit(x)
  {
    assert a & 1 == 1 <==> x & 2 == 2;
    assert b & 1 == 1 <==> x & 4 == 4;
    assert c & 1 == 1 <==> x & 8 == 8;
  }

  lemma ValueDigit(x: bv64)
    ensures Value(x) == 16 * Value(Rest(x)) + Digit(x)
  {
    var a := x >> 1;
    var b := a >> 1;
    var c := b >> 1;
    var d := c >> 1;
    DigitBits(x, a, b, c, d);
    ValueSteps(x, a, b, c, d);
    hide *;
  }

  lemma ValueSteps(x: bv64, a: bv64, b: bv64, c: bv64, d: bv64)
    requires a == x >> 1 && b == a >> 1 && c == b >> 1 && d == c >> 1
    ensures Value(x) == 16 * Value(d) + 8 * LowBit(c) + 4 * LowBit(b) + 2 * LowBit(a) + LowBit(x)
  {
    hide LowBit;
    ValueOfShifted(x, a);
    ValueOfShifted(a, b);
    ValueOfShifted(b, c);
    ValueOfShifted(c, d);
    hide Value;
  }

  lemma ValueOfShifted(x: bv64, y: bv64)
    requires y == x >> 1
    ensures Value(x) == 2 * Value(y) + LowBit(x)
  {
  }

  // The number that sixteen hexadecimal digits spell.
  function Hex(x: bv64): nat
  {
    Hex8(x) + 0x1_0000_0000 * Hex8(x >> 32)
  }

  function Hex8(x: bv64): nat
  {
    Digit(x) + 16 * (Digit(x >> 4) + 16 * (Digit(x >> 8) + 16 * (Digit(x >> 12)
    + 16 * (Digit(x >> 16) + 16 * (Digit(x >> 20) + 16 * (Digit(x >> 24) + 16 * Digit(x >> 28)))))))
  }

  lemma Shifts(x: bv64)
    ensures Rest(x) == x >> 4 && Rest(x >> 4) == x >> 8 && Rest(x >> 8) == x >> 12 && Rest(x >> 12) == x >> 16
    ensures Rest(x >> 16) == x >> 20 && Rest(x >> 20) == x >> 24 && Rest(x >> 24) == x >> 28
    ensures Rest(x >> 28) == x >> 32
  {
  }

  lemma ValueHex8(x: bv64)
    ensures Value(x) == Hex8(x) + 0x1_0000_0000 * Value(x >> 32)
  {
    hide Value, Digit, Rest;
    Shifts(x);
    ValueDigit(x);
    ValueDigit(x >> 4);
    ValueDigit(x >> 8);
    ValueDigit(x >> 12);
    ValueDigit(x >> 16);
    ValueDigit(x >> 20);
    ValueDigit(x >> 24);
    ValueDigit(x >> 28);
  }

  lemma ValueHex(x: bv64)
    ensures Value(x) == Hex(x)
  {
    hide Value, Hex8;
    ValueHex8(x);
    ValueHex8(x >> 32);
    NothingLeft(x);
    ValueZero();
  }

  lemma NothingLeft(x: bv64)
    ensures (x >> 32) >> 32 == 0
  {
  }

  // The top byte of a word of 32 bits.
  function TopByte(x: bv64): nat
  {
    16 * Digit(x >> 28) + Digit(x >> 24)
  }

  lemma ValueTop(x: bv64)
    requires x >> 32 == 0
    ensures Value(x) / 0x100_0000 == TopByte(x)
  {
    hide Value, Rest;
    ValueHex8(x);
    ValueZero();
    var a: nat, b: nat, c: nat := Digit(x), Digit(x >> 4), Digit(x >> 8);
    var d: nat, e: nat, f: nat := Digit(x >> 12), Digit(x >> 16), Digit(x >> 20);
    LowDigits(a, b, c, d, e, f, TopByte(x));
    hide Digit;
  }

  lemma LowDigits(a: nat, b: nat, c: nat, d: nat, e: nat, f: nat, top: nat)
    requires a < 16 && b < 16 && c < 16 && d < 16 && e < 16 && f < 16
    ensures (a + 16 * (b + 16 * (c + 16 * (d + 16 * (e + 16 * (f + 16 * top)))))) / 0x100_0000 == top
  {
  }
}
