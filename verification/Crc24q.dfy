/**
 The CRC-24Q checksum of crc24q.c, proved against polynomial arithmetic over GF(2).
 A polynomial is the natural number whose bit k is the coefficient of x^k; the message
 polynomial of a byte string is the number it spells in base 256.
 */
module Crc24q {
  import opened Bitwise

  const CRCPOLY: nat := 0x1864CFB
  const WORD: nat := 0x1_0000_0000     // `unsigned` is 32 bits wide
  const X24: nat := 0x100_0000

  //////////////////////////////////////////////////////////////////////////////
  // Polynomials over GF(2)
  //////////////////////////////////////////////////////////////////////////////

  // The product of two polynomials.
  ghost function Mul(q: nat, p: nat): nat
  {
    if q == 0 then 0 else Xor(2 * Mul(q / 2, p), if q % 2 == 1 then p else 0)
  }

  ghost predicate IsMultiple(n: nat)
  {
    exists q: nat :: Mul(q, CRCPOLY) == n
  }

  // r(x) is the remainder of m(x) * x^24 modulo the generator.
  ghost predicate IsRemainder(m: nat, r: nat)
  {
    r < X24 && IsMultiple(Xor(m * X24, r))
  }

  // The message polynomial of a byte string.
  function Message(s: seq<byte>): nat
  {
    if s == [] then 0 else Message(s[..|s| - 1]) * 256 + s[|s| - 1]
  }

  // The strings an intact transmission can carry: data followed by its checksum.
  ghost predicate IsCodeword(s: seq<byte>)
  {
    IsMultiple(Message(s))
  }

  //////////////////////////////////////////////////////////////////////////////
  // The multiples of the generator form an ideal
  //////////////////////////////////////////////////////////////////////////////

  lemma MulStep(a: nat, x: nat, p: nat)
    requires x < 2
    ensures Mul(2 * a + x, p) == Xor(2 * Mul(a, p), if x == 1 then p else 0)
  {
    assert (2 * a + x) / 2 == a;
    XorZero(0);
  }

  lemma MulZero(p: nat)
    ensures Mul(0, p) == 0
  {
  }

  // Multiplication distributes over polynomial addition.
  lemma {:induction false} MulXor(a: nat, b: nat, p: nat)
    ensures Mul(Xor(a, b), p) == Xor(Mul(a, p), Mul(b, p))
    decreases a + b
  {
    hide Xor, Mul;
    if a == 0 && b == 0 {
      XorZero(0);
      MulZero(p);
    } else {
      MulXor(a / 2, b / 2, p);
      MulXorStep(a / 2, a % 2, b / 2, b % 2, p);
    }
  }

  lemma MulXorStep(a: nat, x: nat, b: nat, y: nat, p: nat)
    requires x < 2 && y < 2
    requires Mul(Xor(a, b), p) == Xor(Mul(a, p), Mul(b, p))
    ensures Mul(Xor(2 * a + x, 2 * b + y), p) == Xor(Mul(2 * a + x, p), Mul(2 * b + y, p))
  {
    var ma: nat, mb: nat, sum: nat := Mul(a, p), Mul(b, p), Xor(a, b);
    hide Xor, Mul;
    MulStep(a, x, p);
    MulStep(b, y, p);
    XorStep(a, x, b, y);
    MulStep(sum, BitXor(x, y), p);
    var px, py := if x == 1 then p else 0, if y == 1 then p else 0;
    XorRegroup(2 * ma, px, 2 * mb, py);
    XorStep(ma, 0, mb, 0);
    XorZero(p);
    XorZero(0);
    XorSelf(p);
  }

  lemma MultipleXor(a: nat, b: nat)
    requires IsMultiple(a) && IsMultiple(b)
    ensures IsMultiple(Xor(a, b))
  {
    var q: nat, r: nat :| Mul(q, CRCPOLY) == a && Mul(r, CRCPOLY) == b;
    MulXor(q, r, CRCPOLY);
  }

  lemma MultipleDouble(n: nat)
    requires IsMultiple(n)
    ensures IsMultiple(2 * n)
  {
    var q: nat :| Mul(q, CRCPOLY) == n;
    MulStep(q, 0, CRCPOLY);
    XorZero(2 * n);
  }

  // The generator has a nonzero constant term, so x can be divided out.
  lemma HalfQuotient(q: nat, n: nat)
    requires Mul(q, CRCPOLY) == 2 * n
    ensures Mul(q / 2, CRCPOLY) == n
  {
    hide Xor, Mul;
    var m: nat := Mul(q / 2, CRCPOLY);
    MulStep(q / 2, q % 2, CRCPOLY);
    XorStep(m, 0, CRCPOLY / 2, 1);
    XorZero(2 * m);
  }

  lemma MultipleHalve(n: nat)
    requires IsMultiple(2 * n)
    ensures IsMultiple(n)
  {
    hide Mul;
    var q: nat :| Mul(q, CRCPOLY) == 2 * n;
    HalfQuotient(q, n);
  }

  lemma {:induction false} MultipleShift(n: nat, k: nat)
    ensures IsMultiple(n) <==> IsMultiple(n * Pow2(k))
  {
    if k > 0 {
      MultipleShift(n, k - 1);
      var h := n * Pow2(k - 1);
      assert n * Pow2(k) == 2 * h;
      if IsMultiple(h) {
        MultipleDouble(h);
      }
      if IsMultiple(2 * h) {
        MultipleHalve(h);
      }
    }
  }

  // A nonzero multiple of the generator has degree at least 24.
  lemma {:induction false} MulDegree(q: nat)
    requires q > 0
    ensures Mul(q, CRCPOLY) >= X24
  {
    MulStep(q / 2, q % 2, CRCPOLY);
    if q / 2 == 0 {
      XorZero(CRCPOLY);
    } else {
      MulDegree(q / 2);
      XorHigh(2 * Mul(q / 2, CRCPOLY), if q % 2 == 1 then CRCPOLY else 0);
    }
  }

  lemma XorHigh(n: nat, p: nat)
    requires n >= 2 * X24 > p
    ensures Xor(n, p) >= 2 * X24
  {
    hide Xor;
    assert Pow2(25) == 2 * X24 by {
      Pow2Values();
    }
    var h, l := n / (2 * X24), n % (2 * X24);
    XorSplit(h, l, 0, p, 25);
    XorZero(h);
  }

  lemma SmallMultiple(n: nat)
    requires IsMultiple(n) && n < X24
    ensures n == 0
  {
    var q: nat :| Mul(q, CRCPOLY) == n;
    if q > 0 {
      MulDegree(q);
    }
  }

  lemma {:induction false} ZeroIsMultiple()
    ensures IsMultiple(0)
  {
    assert Mul(0, CRCPOLY) == 0;
  }

  // Division by the generator determines the remainder.
  lemma RemainderUnique(m: nat, r: nat, s: nat)
    requires IsRemainder(m, r) && IsRemainder(m, s)
    ensures r == s
  {
    hide Xor, IsMultiple;
    MultipleXor(Xor(m * X24, r), Xor(m * X24, s));
    XorRegroup(m * X24, r, m * X24, s);
    XorSelf(m * X24);
    XorZero(Xor(r, s));
    Pow2Values();
    XorSplit(0, r, 0, s, 24);
    SmallMultiple(Xor(r, s));
    XorCancel(r, s);
  }

  //////////////////////////////////////////////////////////////////////////////
  // The code table
  //////////////////////////////////////////////////////////////////////////////

  // Entry i is a multiple of the generator, of degree below 32, with top byte i.
  ghost predicate IsEntry(v: nat, i: nat)
  {
    IsMultiple(v) && v / X24 == i
  }

  ghost predicate IsTable(t: seq<nat>)
  {
    |t| == 256 && forall i :: 0 <= i < 256 ==> IsEntry(t[i], i)
  }

  // That property fixes every entry.
  lemma EntryUnique(v: nat, w: nat, i: nat)
    requires IsEntry(v, i) && IsEntry(w, i)
    ensures v == w
  {
    hide Xor, IsMultiple;
    MultipleXor(v, w);
    Pow2Values();
    XorSplit(i, v % X24, i, w % X24, 24);
    XorSelf(i);
    SmallMultiple(Xor(v, w));
    XorCancel(v, w);
  }

  lemma XorTopByte(a: nat, b: nat)
    ensures Xor(a, b) / X24 == Xor(a / X24, b / X24)
    ensures Xor(a, b) % X24 == Xor(a % X24, b % X24)
  {
    hide Xor;
    Pow2Values();
    XorSplit(a / X24, a % X24, b / X24, b % X24, 24);
  }

  // The doubling step: x times an entry, reduced so that bit 24 is clear again.
  lemma DoubledEntry(h: nat, i: nat)
    requires IsEntry(h, i)
    ensures IsEntry(if (2 * h / X24) % 2 == 1 then Xor(2 * h, CRCPOLY) else 2 * h, 2 * i)
  {
    hide Xor, IsMultiple;
    MultipleDouble(h);
    if (2 * h / X24) % 2 == 1 {
      assert 2 * h / X24 == 2 * i + 1;
      GeneratorIsMultiple();
      MultipleXor(2 * h, CRCPOLY);
      XorTopByte(2 * h, CRCPOLY);
      XorStep(i, 1, 0, 1);
      XorZero(i);
    }
  }

  lemma GeneratorIsMultiple()
    ensures IsMultiple(CRCPOLY)
  {
    MulStep(0, 1, CRCPOLY);
    XorZero(CRCPOLY);
    assert Mul(1, CRCPOLY) == CRCPOLY;
  }

  lemma SummedEntry(v: nat, j: nat, h: nat, k: nat)
    requires IsEntry(v, j) && IsEntry(h, Pow2(k)) && j < Pow2(k)
    ensures IsEntry(Xor(v, h), Pow2(k) + j)
  {
    hide Xor, IsMultiple;
    MultipleXor(v, h);
    XorTopByte(v, h);
    XorSplit(0, j, 1, 0, k);
    XorZero(1);
    XorZero(j);
  }

  lemma FirstEntries()
    ensures IsEntry(0, 0) && IsEntry(CRCPOLY, 1) && Pow2(0) == 1 && Pow2(1) == 2
  {
    hide Xor, IsMultiple;
    ZeroIsMultiple();
    GeneratorIsMultiple();
    Pow2Values();
  }

  // The entry for the next power of two, in 32-bit arithmetic.
  lemma NextPower(h: nat, k: nat)
    requires 1 <= k <= 7 && IsEntry(h, Pow2(k - 1))
    ensures var d := h * 2 % WORD; IsEntry(if (d / X24) % 2 == 1 then Xor(d, CRCPOLY) else d, Pow2(k))
  {
    hide Xor, IsMultiple;
    Pow2Monotone(k, 7);
    Pow2Values();
    DoubledEntry(h, Pow2(k - 1));
  }

  // The inner loop: the words from i to 2*i.
  method FillUpper(table: array<nat>, h: nat, i: nat, ghost k: nat)
    requires i == Pow2(k) && 2 * i <= table.Length && IsEntry(h, i)
    requires forall m :: 0 <= m < i ==> IsEntry(table[m], m)
    modifies table
    ensures forall m :: 0 <= m < 2 * i ==> IsEntry(table[m], m)
  {
    hide Xor, IsEntry, Pow2;
    var j := 0;
    while j < i
      invariant 0 <= j <= i
      invariant forall m :: 0 <= m < i + j ==> IsEntry(table[m], m)
    {
      SummedEntry(table[j], j, h, k);
      table[i + j] := Xor(table[j], h);
      j := j + 1;
    }
  }

  // Fills the table by doubling (the generator loop in the source).
  method InitTable(table: array<nat>)
    requires table.Length == 256
    modifies table
    ensures IsTable(table[..])
  {
    FirstEntries();
    hide Xor, IsMultiple, IsEntry;
    table[0] := 0;
    table[1] := CRCPOLY;
    var h: nat := CRCPOLY;
    var i := 2;
    ghost var k: nat := 1;
    while i < 256
      invariant 1 <= k <= 8 && i == Pow2(k)
      invariant IsEntry(h, Pow2(k - 1))
      invariant forall m :: 0 <= m < i && m < 256 ==> IsEntry(table[m], m)
      decreases 256 - i
    {
      Pow2Values();
      Pow2Monotone(8, k);
      NextPower(h, k);
      h := h * 2 % WORD;
      if (h / X24) % 2 == 1 {
        h := Xor(h, CRCPOLY);
      }
      FillUpper(table, h, i, k);
      i := i * 2;
      k := k + 1;
    }
  }

  //////////////////////////////////////////////////////////////////////////////
  // The hash loop
  //////////////////////////////////////////////////////////////////////////////

  // One pass of the loop body is one byte of long division, and it leaves that byte
  // in the top byte of the 32-bit register.
  lemma HashStep(t: seq<nat>, m: nat, crc: nat, d: byte)
    requires IsTable(t)
    requires crc < WORD && IsRemainder(m, crc % X24)
    ensures Xor(d, crc / 0x1_0000 % 256) < 256
    ensures var next := Xor(crc * 256 % WORD, t[Xor(d, crc / 0x1_0000 % 256)]);
            next < WORD && next / X24 == d && IsRemainder(m * 256 + d, next % X24)
  {
    hide Xor, IsMultiple;
    var c := crc % X24;
    var top := c / 0x1_0000;
    RegisterShift(crc);
    Pow2Values();
    XorSplit(0, d, 0, top, 8);
    XorZero(0);
    var idx: nat := Xor(d, top);
    var e := t[idx];
    assert IsEntry(e, idx);
    var next: nat := Xor(c * 256, e);
    XorTopByte(c * 256, e);
    XorComm(d, top);
    XorCancel(top, d);
    assert next / X24 == d;
    ShiftedDividend(m, c);
    MultipleXor(Xor(m * WORD, c * 256), e);
    XorAssoc(m * WORD, c * 256, e);
    NextDividend(m, d, next);
  }

  // Shifting the 32-bit register left by a byte drops its old top byte.
  lemma RegisterShift(crc: nat)
    requires crc < WORD
    ensures crc / 0x1_0000 % 256 == crc % X24 / 0x1_0000
    ensures crc * 256 % WORD == crc % X24 * 256
    ensures crc % X24 * 256 / X24 == crc % X24 / 0x1_0000
  {
    RegisterByte(crc);
    RegisterRest(crc);
    RegisterTop(crc % X24);
  }

  lemma RegisterByte(crc: nat)
    ensures crc / 0x1_0000 % 256 == crc % X24 / 0x1_0000
  {
  }

  lemma RegisterRest(crc: nat)
    ensures crc * 256 % WORD == crc % X24 * 256
  {
  }

  lemma RegisterTop(c: nat)
    ensures c * 256 / X24 == c / 0x1_0000
  {
  }

  lemma ShiftedDividend(m: nat, c: nat)
    requires IsMultiple(Xor(m * X24, c))
    ensures IsMultiple(Xor(m * WORD, c * 256))
  {
    hide Xor, IsMultiple;
    Pow2Values();
    XorSplit(m * X24, 0, c, 0, 8);
    XorZero(0);
    MultipleShift(Xor(m * X24, c), 8);
  }

  // m*x^32 + next and (m*x^8 + d)*x^24 + (next mod x^24) are the same polynomial.
  lemma NextDividend(m: nat, d: byte, next: nat)
    requires next / X24 == d
    ensures Xor(m * WORD, next) == Xor((m * 256 + d) * X24, next % X24)
  {
    hide Xor;
    Pow2Values();
    XorSplit(m, 0, 0, next, 32);
    XorZero(m);
    XorZero(next);
    XorDisjoint(m * 256 + d, next % X24);
    assert (m * 256 + d) * X24 == m * WORD + d * X24;
  }

  // The checksum of the first len bytes of a buffer.
  method Hash(t: seq<nat>, data: array<byte>, len: nat) returns (crc: nat)
    requires IsTable(t) && len <= data.Length
    ensures crc < X24 && IsRemainder(Message(data[..len]), crc)
  {
    hide Xor, IsMultiple;
    crc := 0;
    ZeroIsMultiple();
    XorZero(0);
    for i := 0 to len
      invariant crc < WORD && IsRemainder(Message(data[..i]), crc % X24)
      invariant i > 0 ==> crc / X24 == data[i - 1]
    {
      HashStep(t, Message(data[..i]), crc, data[i]);
      assert data[..i + 1][..i] == data[..i];
      crc := Xor(crc * 256 % WORD, t[Xor(data[i], crc / 0x1_0000 % 256)]);
    }
    crc := crc % X24;
  }

  lemma MessageAppend(s: seq<byte>, d: byte)
    ensures Message(s + [d]) == Message(s) * 256 + d
  {
    assert (s + [d])[..|s|] == s;
  }

  lemma Trailer(s: seq<byte>, a: byte, b: byte, c: byte)
    ensures Message(s + [a, b, c]) == Message(s) * X24 + (a * 0x1_0000 + b * 256 + c)
  {
    hide Message;
    assert s + [a, b, c] == s + [a] + [b] + [c];
    MessageAppend(s, a);
    MessageAppend(s + [a], b);
    MessageAppend(s + [a] + [b], c);
  }

  // A trailer makes a codeword exactly when it is the remainder.
  lemma TrailerIsRemainder(s: seq<byte>, a: byte, b: byte, c: byte)
    ensures IsCodeword(s + [a, b, c]) <==> IsRemainder(Message(s), a * 0x1_0000 + b * 256 + c)
  {
    hide Xor, IsMultiple, Message;
    var r: nat := a * 0x1_0000 + b * 256 + c;
    var m: nat := Message(s);
    Trailer(s, a, b, c);
    XorDisjoint(m, r);
  }

  // Adding a polynomial of degree below 24 fills the zeros that x^24 shifted in.
  lemma XorDisjoint(m: nat, r: nat)
    requires r < X24
    ensures Xor(m * X24, r) == m * X24 + r
  {
    hide Xor;
    Pow2Values();
    XorSplit(m, 0, 0, r, 24);
    XorZero(m);
    XorZero(r);
  }

  // Writes the three checksum bytes behind the message; nothing else changes.
  method Sign(t: seq<nat>, data: array<byte>, len: nat)
    requires IsTable(t) && len + 3 <= data.Length
    modifies data
    ensures IsCodeword(data[..len + 3])
    ensures forall i :: 0 <= i < data.Length && !(len <= i < len + 3) ==> data[i] == old(data[i])
  {
    hide Xor, IsMultiple, Message;
    var crc := Hash(t, data, len);
    ghost var s := data[..len];
    data[len] := crc / 0x1_0000 % 256;
    data[len + 1] := crc / 256 % 256;
    data[len + 2] := crc % 256;
    TrailerIsRemainder(s, data[len], data[len + 1], data[len + 2]);
    assert data[..len + 3] == s + [data[len], data[len + 1], data[len + 2]];
  }

  // Accepts exactly the codewords.
  method Check(t: seq<nat>, data: array<byte>, len: nat) returns (ok: bool)
    requires IsTable(t) && 3 <= len <= data.Length
    ensures ok <==> IsCodeword(data[..len])
  {
    hide *;
    var crc := Hash(t, data, len - 3);
    var hi: byte, mid: byte, lo: byte := crc / 0x1_0000 % 256, crc / 256 % 256, crc % 256;
    ok := data[len - 3] == hi && data[len - 2] == mid && data[len - 1] == lo;
    ThreeBytes(crc, data[len - 3], data[len - 2], data[len - 1]);
    TrailerMatches(data[..len - 3], data[len - 3], data[len - 2], data[len - 1], crc);
    assert data[..len] == data[..len - 3] + [data[len - 3], data[len - 2], data[len - 1]];
  }

  lemma ThreeBytes(r: nat, a: byte, b: byte, c: byte)
    requires r < X24
    ensures a == r / 0x1_0000 % 256 && b == r / 256 % 256 && c == r % 256 <==> r == a * 0x1_0000 + b * 256 + c
  {
  }

  lemma TrailerMatches(s: seq<byte>, a: byte, b: byte, c: byte, r: nat)
    requires IsRemainder(Message(s), r)
    ensures IsCodeword(s + [a, b, c]) <==> r == a * 0x1_0000 + b * 256 + c
  {
    hide Message, Xor, IsMultiple;
    TrailerIsRemainder(s, a, b, c);
    var n: nat := a * 0x1_0000 + b * 256 + c;
    if IsRemainder(Message(s), n) {
      RemainderUnique(Message(s), n, r);
    }
  }

  // The codewords are the strings whose own hash is zero.
  lemma CodewordHash(s: seq<byte>, r: nat)
    requires IsRemainder(Message(s), r)
    ensures r == 0 <==> IsCodeword(s)
  {
    hide Xor, IsMultiple, Message;
    var m := Message(s);
    Pow2Values();
    MultipleShift(m, 24);
    XorZero(m * X24);
    if IsCodeword(s) {
      RemainderUnique(m, 0, r);
    }
  }

  //////////////////////////////////////////////////////////////////////////////
  // Error detection
  //////////////////////////////////////////////////////////////////////////////

  // The coefficient of x^k.
  ghost function Coefficient(n: nat, k: nat): (c: nat)
    ensures c < 2
  {
    ShiftRight(n, k) % 2
  }

  // Bit k of a string, counted from its last bit.
  ghost function BitAt(s: seq<byte>, k: nat): nat
    requires k < 8 * |s|
  {
    Coefficient(s[|s| - 1 - k / 8], k % 8)
  }

  // The number of one bits.
  ghost function Weight(n: nat): nat
  {
    if n == 0 then 0 else Weight(n / 2) + n % 2
  }

  // The number of bit positions in which two strings differ.
  ghost function Distance(s: seq<byte>, t: seq<byte>): nat
    requires |s| == |t|
  {
    if s == [] then 0 else Distance(s[..|s| - 1], t[..|t| - 1]) + Weight(Xor(s[|s| - 1], t[|t| - 1]))
  }

  lemma {:induction false} CoefficientXor(a: nat, b: nat, k: nat)
    ensures Coefficient(Xor(a, b), k) == BitXor(Coefficient(a, k), Coefficient(b, k))
  {
    if k > 0 {
      CoefficientXor(a / 2, b / 2, k - 1);
    }
  }

  lemma CoefficientStep(m: nat, x: nat, k: nat)
    requires x < 2
    ensures Coefficient(2 * m + x, k) == if k == 0 then x else Coefficient(m, k - 1)
  {
    assert (2 * m + x) / 2 == m;
  }

  lemma {:induction false} CoefficientSplit(a: nat, b: nat, w: nat, k: nat)
    requires b < Pow2(w)
    ensures Coefficient(a * Pow2(w) + b, k) == if k < w then Coefficient(b, k) else Coefficient(a, k - w)
  {
    hide Coefficient;
    if w > 0 {
      Double(a, b, Pow2(w - 1));
      CoefficientStep(a * Pow2(w - 1) + b / 2, b % 2, k);
      CoefficientStep(b / 2, b % 2, k);
      if k > 0 {
        CoefficientSplit(a, b / 2, w - 1, k - 1);
      }
    }
  }

  lemma {:induction false} CoefficientZero(k: nat)
    ensures Coefficient(0, k) == 0
  {
    if k > 0 {
      CoefficientZero(k - 1);
    }
  }

  lemma BitsOfLast(init: seq<byte>, last: byte, k: nat)
    requires k < 8 * |init| + 8
    ensures BitAt(init + [last], k) == if k < 8 then Coefficient(last, k) else BitAt(init, k - 8)
  {
    hide Coefficient;
    if k >= 8 {
      assert (k - 8) / 8 == k / 8 - 1 && (k - 8) % 8 == k % 8;
    }
  }

  // The coefficients of the message polynomial are the bits of the string.
  lemma {:induction false} MessageBits(s: seq<byte>, k: nat)
    ensures Coefficient(Message(s), k) == if k < 8 * |s| then BitAt(s, k) else 0
  {
    hide Coefficient, BitAt;
    if s == [] {
      CoefficientZero(k);
    } else {
      Pow2Values();
      var init, last := s[..|s| - 1], s[|s| - 1];
      assert s == init + [last];
      CoefficientSplit(Message(init), last, 8, k);
      if k >= 8 {
        MessageBits(init, k - 8);
      }
      if k < 8 * |s| {
        BitsOfLast(init, last, k);
      }
    }
  }

  lemma {:induction false} MessageInjective(s: seq<byte>, t: seq<byte>)
    requires |s| == |t| && Message(s) == Message(t)
    ensures s == t
  {
    if s != [] {
      MessageInjective(s[..|s| - 1], t[..|t| - 1]);
      assert s == s[..|s| - 1] + [s[|s| - 1]] && t == t[..|t| - 1] + [t[|t| - 1]];
    }
  }

  lemma {:induction false} NoCoefficients(e: nat)
    requires forall k: nat :: Coefficient(e, k) == 0
    ensures e == 0
  {
    if e > 0 {
      assert Coefficient(e, 0) == 0;
      forall k: nat ensures Coefficient(e / 2, k) == 0 {
        assert Coefficient(e, k + 1) == 0;
      }
      NoCoefficients(e / 2);
    }
  }

  lemma {:induction false} LowCoefficients(e: nat, w: nat)
    requires forall k: nat :: k >= w ==> Coefficient(e, k) == 0
    ensures e < Pow2(w)
  {
    if w == 0 {
      NoCoefficients(e);
    } else {
      forall k: nat | k >= w - 1 ensures Coefficient(e / 2, k) == 0 {
        assert Coefficient(e, k + 1) == 0;
      }
      LowCoefficients(e / 2, w - 1);
    }
  }

  // A polynomial whose coefficients lie in a window is a shifted short polynomial.
  lemma {:induction false} Window(e: nat, lo: nat, w: nat) returns (b: nat)
    requires forall k: nat :: Coefficient(e, k) == 1 ==> lo <= k < lo + w
    ensures b < Pow2(w) && e == b * Pow2(lo)
  {
    if lo == 0 {
      LowCoefficients(e, w);
      b := e;
    } else {
      assert Coefficient(e, 0) == 0;
      forall k: nat | Coefficient(e / 2, k) == 1 ensures lo - 1 <= k < lo - 1 + w {
        assert Coefficient(e, k + 1) == 1;
      }
      b := Window(e / 2, lo - 1, w);
      Double(b, 0, Pow2(lo - 1));
    }
  }

  // A burst confined to 24 consecutive bit positions, at any place in a message of any
  // length, never turns one codeword into another.
  lemma BurstDetected(s: seq<byte>, t: seq<byte>, lo: nat)
    requires |s| == |t| && s != t
    requires forall k: nat :: k < 8 * |s| && BitAt(s, k) != BitAt(t, k) ==> lo <= k < lo + 24
    requires IsCodeword(s)
    ensures !IsCodeword(t)
  {
    hide Xor, IsMultiple, Coefficient, BitAt, Message;
    if IsCodeword(t) {
      var e: nat := Xor(Message(s), Message(t));
      MultipleXor(Message(s), Message(t));
      forall k: nat | Coefficient(e, k) == 1 ensures lo <= k < lo + 24 {
        CoefficientXor(Message(s), Message(t), k);
        MessageBits(s, k);
        MessageBits(t, k);
      }
      var b := Window(e, lo, 24);
      MultipleShift(b, lo);
      Pow2Values();
      SmallMultiple(b);
      XorCancel(Message(s), Message(t));
      MessageInjective(s, t);
    }
  }

  lemma {:induction false} WeightXor(a: nat, b: nat)
    ensures Weight(Xor(a, b)) % 2 == (Weight(a) + Weight(b)) % 2
    decreases a + b
  {
    WeightBits(0, 0, 0, 0);
    XorZero(0);
    hide Weight, Xor;
    if a != 0 || b != 0 {
      WeightXor(a / 2, b / 2);
      WeightXorStep(a / 2, a % 2, b / 2, b % 2);
    }
  }

  lemma WeightStep(a: nat, x: nat)
    requires x < 2
    ensures Weight(2 * a + x) == Weight(a) + x
  {
    assert (2 * a + x) / 2 == a;
  }

  lemma WeightXorStep(a: nat, x: nat, b: nat, y: nat)
    requires x < 2 && y < 2
    requires Weight(Xor(a, b)) % 2 == (Weight(a) + Weight(b)) % 2
    ensures Weight(Xor(2 * a + x, 2 * b + y)) % 2 == (Weight(2 * a + x) + Weight(2 * b + y)) % 2
  {
    var sum: nat := Xor(a, b);
    hide Xor, Weight;
    XorStep(a, x, b, y);
    WeightStep(a, x);
    WeightStep(b, y);
    WeightStep(sum, BitXor(x, y));
  }

  lemma {:induction false} WeightSplit(a: nat, b: nat, w: nat)
    requires b < Pow2(w)
    ensures Weight(a * Pow2(w) + b) == Weight(a) + Weight(b)
  {
    WeightZero();
    hide Weight;
    if w > 0 {
      WeightSplit(a, b / 2, w - 1);
      WeightDoubled(a, b, Pow2(w - 1));
    }
  }

  lemma WeightDoubled(a: nat, b: nat, p: nat)
    requires Weight(a * p + b / 2) == Weight(a) + Weight(b / 2)
    ensures Weight(a * (2 * p) + b) == Weight(a) + Weight(b)
  {
    hide Weight;
    Double(a, b, p);
    WeightStep(a * p + b / 2, b % 2);
    WeightStep(b / 2, b % 2);
  }

  lemma WeightZero()
    ensures Weight(0) == 0
  {
  }

  lemma WeightBits(p: nat, q: nat, r: nat, s: nat)
    requires p < 2 && q < 2 && r < 2 && s < 2
    ensures Weight(8 * p + 4 * q + 2 * r + s) == p + q + r + s
  {
    WeightZero();
    hide Weight;
    WeightStep(0, p);
    WeightStep(p, q);
    WeightStep(2 * p + q, r);
    WeightStep(4 * p + 2 * q + r, s);
  }

  // The weight of a number extended by one hexadecimal digit.
  lemma WeightDigit(n: nat, p: nat, q: nat, r: nat, s: nat)
    requires p < 2 && q < 2 && r < 2 && s < 2
    ensures Weight(n * 16 + (8 * p + 4 * q + 2 * r + s)) == Weight(n) + p + q + r + s
  {
    Pow2Values();
    WeightSplit(n, 8 * p + 4 * q + 2 * r + s, 4);
    WeightBits(p, q, r, s);
  }

  lemma GeneratorWeight()
    ensures Weight(CRCPOLY) == 14
  {
    hide Weight;
    WeightBits(0, 0, 0, 1);
    WeightDigit(0x1, 1, 0, 0, 0);
    WeightDigit(0x18, 0, 1, 1, 0);
    WeightDigit(0x186, 0, 1, 0, 0);
    WeightDigit(0x1864, 1, 1, 0, 0);
    WeightDigit(0x1864C, 1, 1, 1, 1);
    WeightDigit(0x1864CF, 1, 0, 1, 1);
  }

  // The generator has an even number of terms, so every multiple of it has too.
  lemma {:induction false} MulWeight(q: nat)
    ensures Weight(Mul(q, CRCPOLY)) % 2 == 0
  {
    hide Weight, Xor;
    if q == 0 {
      WeightBits(0, 0, 0, 0);
    } else {
      var m: nat := Mul(q / 2, CRCPOLY);
      MulWeight(q / 2);
      WeightStep(m, 0);
      WeightXor(2 * m, if q % 2 == 1 then CRCPOLY else 0);
      GeneratorWeight();
      WeightBits(0, 0, 0, 0);
    }
  }

  lemma WeightBytes(a: nat, c: byte, b: nat, d: byte)
    ensures Weight(Xor(a * 256 + c, b * 256 + d)) == Weight(Xor(a, b)) + Weight(Xor(c, d))
  {
    var h: nat, l: nat := Xor(a, b), Xor(c, d);
    hide Xor, Weight;
    Pow2Values();
    XorSplit(a, c, b, d, 8);
    WeightSplit(h, l, 8);
  }

  lemma {:induction false} MessageDistance(s: seq<byte>, t: seq<byte>)
    requires |s| == |t|
    ensures Weight(Xor(Message(s), Message(t))) == Distance(s, t)
  {
    if s == [] {
      XorZero(0);
    } else {
      hide Xor, Weight;
      var a, b := Message(s[..|s| - 1]), Message(t[..|t| - 1]);
      MessageDistance(s[..|s| - 1], t[..|t| - 1]);
      WeightBytes(a, s[|s| - 1], b, t[|t| - 1]);
    }
  }

  // No odd number of bit errors turns one codeword into another.
  lemma OddErrorsDetected(s: seq<byte>, t: seq<byte>)
    requires |s| == |t| && Distance(s, t) % 2 == 1
    requires IsCodeword(s)
    ensures !IsCodeword(t)
  {
    if IsCodeword(t) {
      MultipleXor(Message(s), Message(t));
      MessageDistance(s, t);
      var q: nat :| Mul(q, CRCPOLY) == Xor(Message(s), Message(t));
      MulWeight(q);
    }
  }
}
