/**
 Unsigned machine arithmetic on natural numbers: powers of two, and the C operators
 `^` and `|` defined bit by bit.  A natural number also stands for a polynomial over
 GF(2): bit k is the coefficient of x^k, and `Xor` is polynomial addition.
 */
module Bitwise {

  type byte = b: nat | b < 256
  type bit = b: nat | b < 2

  function Pow2(k: nat): (p: nat)
    ensures p >= 1
  {
    if k == 0 then 1 else 2 * Pow2(k - 1)
  }

  lemma {:induction false} Pow2Add(a: nat, b: nat)
    ensures Pow2(a + b) == Pow2(a) * Pow2(b)
  {
    if b > 0 {
      Pow2Add(a, b - 1);
    }
  }

  lemma {:induction false} Pow2Monotone(a: nat, b: nat)
    ensures a <= b ==> Pow2(a) <= Pow2(b)
  {
    if a < b {
      Pow2Monotone(a, b - 1);
    }
  }

  lemma Pow2Values()
    ensures Pow2(0) == 1 && Pow2(1) == 2 && Pow2(2) == 4 && Pow2(3) == 8 && Pow2(4) == 16
    ensures Pow2(5) == 32 && Pow2(6) == 64 && Pow2(7) == 128
    ensures Pow2(8) == 0x100 && Pow2(16) == 0x1_0000 && Pow2(24) == 0x100_0000 && Pow2(25) == 0x200_0000
    ensures Pow2(32) == 0x1_0000_0000
  {
    Pow2Add(8, 8);
    Pow2Add(16, 8);
    Pow2Add(16, 16);
  }

  function BitXor(x: nat, y: nat): nat
  {
    if x == y then 0 else 1
  }

  // Exclusive or, bit by bit.
  function Xor(a: nat, b: nat): nat
    decreases a + b
  {
    if a == 0 && b == 0 then 0 else 2 * Xor(a / 2, b / 2) + BitXor(a % 2, b % 2)
  }

  // Inclusive or, bit by bit.
  function Or(a: nat, b: nat): nat
    decreases a + b
  {
    if a == 0 && b == 0 then 0 else 2 * Or(a / 2, b / 2) + (if a % 2 + b % 2 > 0 then 1 else 0)
  }

  lemma {:induction false} XorZero(a: nat)
    ensures Xor(a, 0) == a && Xor(0, a) == a
  {
    if a != 0 {
      XorZero(a / 2);
    }
  }

  lemma {:induction false} XorSelf(a: nat)
    ensures Xor(a, a) == 0
  {
    if a != 0 {
      XorSelf(a / 2);
    }
  }

  lemma {:induction false} XorComm(a: nat, b: nat)
    ensures Xor(a, b) == Xor(b, a)
    decreases a + b
  {
    if a != 0 || b != 0 {
      XorComm(a / 2, b / 2);
    }
  }

  lemma XorStep(a: nat, x: nat, b: nat, y: nat)
    requires x < 2 && y < 2
    ensures Xor(2 * a + x, 2 * b + y) == 2 * Xor(a, b) + BitXor(x, y)
  {
    assert (2 * a + x) / 2 == a && (2 * b + y) / 2 == b;
  }

  lemma XorAssocStep(a: nat, x: nat, b: nat, y: nat, c: nat, z: nat)
    requires x < 2 && y < 2 && z < 2
    requires Xor(Xor(a, b), c) == Xor(a, Xor(b, c))
    ensures Xor(Xor(2 * a + x, 2 * b + y), 2 * c + z) == Xor(2 * a + x, Xor(2 * b + y, 2 * c + z))
  {
    hide Xor;
    XorStep(a, x, b, y);
    XorStep(b, y, c, z);
    XorStep(Xor(a, b), BitXor(x, y), c, z);
    XorStep(a, x, Xor(b, c), BitXor(y, z));
  }

  lemma {:induction false} XorAssoc(a: nat, b: nat, c: nat)
    ensures Xor(Xor(a, b), c) == Xor(a, Xor(b, c))
    decreases a + b + c
  {
    hide Xor;
    XorZero(0);
    if a + b + c != 0 {
      XorAssoc(a / 2, b / 2, c / 2);
      XorAssocStep(a / 2, a % 2, b / 2, b % 2, c / 2, c % 2);
    }
  }

  lemma XorCancel(a: nat, b: nat)
    ensures Xor(a, Xor(a, b)) == b
    ensures Xor(a, b) == 0 ==> a == b
  {
    XorAssoc(a, a, b);
    XorSelf(a);
    XorZero(b);
    XorZero(a);
  }

  // (a ^ b) ^ (c ^ d) can be regrouped as (a ^ c) ^ (b ^ d).
  lemma XorRegroup(a: nat, b: nat, c: nat, d: nat)
    ensures Xor(Xor(a, b), Xor(c, d)) == Xor(Xor(a, c), Xor(b, d))
  {
    XorAssoc(a, b, Xor(c, d));
    XorAssoc(b, c, d);
    XorComm(b, c);
    XorAssoc(c, b, d);
    XorAssoc(a, c, Xor(b, d));
  }

  lemma XorSplitStep(a: nat, c: nat, x: nat, b: nat, d: nat, y: nat, p: nat)
    requires x < 2 && y < 2
    requires Xor(a * p + c, b * p + d) == Xor(a, b) * p + Xor(c, d)
    ensures Xor(2 * (a * p + c) + x, 2 * (b * p + d) + y) == 2 * (Xor(a, b) * p) + Xor(2 * c + x, 2 * d + y)
  {
    hide Xor;
    XorStep(a * p + c, x, b * p + d, y);
    XorStep(c, x, d, y);
  }

  // Xor works on the digits of base 2^k independently.
  lemma {:induction false} XorSplit(a: nat, c: nat, b: nat, d: nat, k: nat)
    requires c < Pow2(k) && d < Pow2(k)
    ensures Xor(a * Pow2(k) + c, b * Pow2(k) + d) == Xor(a, b) * Pow2(k) + Xor(c, d)
    ensures Xor(c, d) < Pow2(k)
  {
    hide Xor;
    if k == 0 {
      XorZero(0);
    } else {
      var p := Pow2(k - 1);
      XorSplit(a, c / 2, b, d / 2, k - 1);
      XorStep(c / 2, c % 2, d / 2, d % 2);
      XorSplitStep(a, c / 2, c % 2, b, d / 2, d % 2, p);
      Double(a, c, p);
      Double(b, d, p);
      Double(Xor(a, b), 0, p);
    }
  }

  lemma Double(a: nat, c: nat, p: nat)
    ensures a * (2 * p) + c == 2 * (a * p + c / 2) + c % 2
  {
    assert a * (2 * p) == 2 * (a * p);
  }

  lemma OrStep(a: nat, x: nat, b: nat, y: nat)
    requires x < 2 && y < 2
    ensures Or(2 * a + x, 2 * b + y) == 2 * Or(a, b) + (if x + y > 0 then 1 else 0)
  {
    assert (2 * a + x) / 2 == a && (2 * b + y) / 2 == b;
  }

  // Or-ing a value into low bits that are still zero is addition.
  lemma {:induction false} OrDisjoint(hi: nat, lo: nat, k: nat)
    requires lo < Pow2(k)
    ensures Or(hi * Pow2(k), lo) == hi * Pow2(k) + lo
  {
    hide Or;
    if k == 0 {
      OrZero(hi);
    } else {
      OrDisjoint(hi, lo / 2, k - 1);
      OrStep(hi * Pow2(k - 1), 0, lo / 2, lo % 2);
      Double(hi, 0, Pow2(k - 1));
    }
  }

  lemma OrSignStep(low: nat, x: nat, p: nat, q: nat)
    requires x < 2 && p < q && Or(p + low, q - p) == q - p + low
    ensures Or(2 * p + (2 * low + x), 2 * q - 2 * p) == 2 * q - 2 * p + (2 * low + x)
  {
    hide Or;
    OrStep(p + low, x, q - p, 0);
  }

  lemma OrOnes(q: nat)
    requires q > 0
    ensures Or(1, 2 * q - 1) == 2 * q - 1
  {
    hide Or;
    OrStep(0, 1, q - 1, 1);
    OrZero(q - 1);
  }

  // Or-ing in ones from bit k up to bit n - 1, over a number whose highest bit is k.
  lemma {:induction false} OrSign(low: nat, k: nat, n: nat)
    requires low < Pow2(k) && k < n
    ensures Pow2(k) < Pow2(n)
    ensures Or(Pow2(k) + low, Pow2(n) - Pow2(k)) == Pow2(n) - Pow2(k) + low
  {
    hide Or;
    Pow2Monotone(k, n - 1);
    if k == 0 {
      OrOnes(Pow2(n - 1));
    } else {
      OrSign(low / 2, k - 1, n - 1);
      OrSignStep(low / 2, low % 2, Pow2(k - 1), Pow2(n - 1));
    }
  }

  lemma {:induction false} OrZero(a: nat)
    ensures Or(a, 0) == a && Or(0, a) == a
  {
    if a != 0 {
      OrZero(a / 2);
    }
  }

  //////////////////////////////////////////////////////////////////////////////
  // Shifting right and masking
  //////////////////////////////////////////////////////////////////////////////

  // n >> k.
  function ShiftRight(n: nat, k: nat): nat
  {
    if k == 0 then n else ShiftRight(n / 2, k - 1)
  }

  // n with all bits from k upwards cleared.
  function LowBits(n: nat, k: nat): (r: nat)
    ensures r < Pow2(k)
  {
    if k == 0 then 0 else 2 * LowBits(n / 2, k - 1) + n % 2
  }

  lemma ShiftByNone(n: nat)
    ensures ShiftRight(n, 0) == n
  {
  }

  lemma {:induction false} ShiftSplit(n: nat, k: nat)
    ensures n == ShiftRight(n, k) * Pow2(k) + LowBits(n, k)
  {
    if k > 0 {
      ShiftSplit(n / 2, k - 1);
      Double(ShiftRight(n, k), 0, Pow2(k - 1));
    }
  }

  lemma {:induction false} ShiftJoin(h: nat, l: nat, k: nat)
    requires l < Pow2(k)
    ensures ShiftRight(h * Pow2(k) + l, k) == h && LowBits(h * Pow2(k) + l, k) == l
  {
    if k > 0 {
      ShiftJoin(h, l / 2, k - 1);
      Double(h, l, Pow2(k - 1));
      var m := h * Pow2(k - 1) + l / 2;
      assert (2 * m + l % 2) / 2 == m;
    }
  }

  lemma {:induction false} ShiftOne(n: nat, k: nat)
    ensures ShiftRight(n, k + 1) == ShiftRight(n, k) / 2
  {
    if k > 0 {
      ShiftOne(n / 2, k - 1);
    }
  }

  lemma {:induction false} ShiftBound(n: nat, k: nat, m: nat)
    requires n < Pow2(k + m)
    ensures ShiftRight(n, k) < Pow2(m)
  {
    if k > 0 {
      ShiftBound(n / 2, k - 1, m);
    }
  }

  lemma {:induction false} ShiftTwice(n: nat, a: nat, b: nat)
    ensures ShiftRight(ShiftRight(n, a), b) == ShiftRight(n, a + b)
  {
    if a > 0 {
      ShiftTwice(n / 2, a - 1, b);
    }
  }

  // Low bits of low bits, and shifting low bits.
  lemma {:induction false} LowBitsOfLow(n: nat, a: nat, t: nat)
    ensures LowBits(LowBits(n, a + t), t) == LowBits(n, t)
    ensures ShiftRight(LowBits(n, a + t), t) == LowBits(ShiftRight(n, t), a)
  {
    if t > 0 {
      var m := LowBits(n / 2, a + t - 1);
      assert LowBits(n, a + t) == 2 * m + n % 2 && (2 * m + n % 2) / 2 == m;
      LowBitsOfLow(n / 2, a, t - 1);
    }
  }

  // Low bits of a number shifted left.
  lemma {:induction false} LowBitsShifted(n: nat, d: nat, a: nat, t: nat)
    requires d < Pow2(a)
    ensures LowBits(n * Pow2(a) + d, t + a) == LowBits(n, t) * Pow2(a) + d
  {
    if a > 0 {
      LowBitsShifted(n, d / 2, a - 1, t);
      Double(n, d, Pow2(a - 1));
      Double(LowBits(n, t), d, Pow2(a - 1));
      var m := n * Pow2(a - 1) + d / 2;
      assert (2 * m + d % 2) / 2 == m;
    }
  }

  // A number below 2^k is its own k low bits.
  lemma {:induction false} LowBitsAll(n: nat, k: nat)
    requires n < Pow2(k)
    ensures LowBits(n, k) == n && ShiftRight(n, k) == 0
  {
    if k > 0 {
      LowBitsAll(n / 2, k - 1);
    }
  }

  //////////////////////////////////////////////////////////////////////////////
  // Setting one bit
  //////////////////////////////////////////////////////////////////////////////

  lemma {:induction false} OrBound(a: nat, b: nat, k: nat)
    requires a < Pow2(k) && b < Pow2(k)
    ensures Or(a, b) < Pow2(k)
  {
    if k > 0 {
      OrBound(a / 2, b / 2, k - 1);
    }
  }

  // Bit i of a number with bit j set.
  lemma {:induction false} SetBit(a: nat, j: nat, i: nat)
    ensures ShiftRight(Or(a, Pow2(j)), i) % 2 == if i == j then 1 else ShiftRight(a, i) % 2
  {
    hide Or;
    if j == 0 {
      OrStep(a / 2, a % 2, 0, 1);
      OrZero(a / 2);
    } else {
      OrStep(a / 2, a % 2, Pow2(j - 1), 0);
      if i > 0 {
        SetBit(a / 2, j - 1, i - 1);
        HalfOfBits(Or(a / 2, Pow2(j - 1)), a % 2);
      }
    }
  }

  lemma HalfOfBits(h: nat, x: nat)
    requires x < 2
    ensures (2 * h + x) / 2 == h && (2 * h + x) % 2 == x
  {
  }
}
