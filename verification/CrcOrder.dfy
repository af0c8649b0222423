/**
 Double-bit errors under the checksum of crc24q.c.  Two bits at distance d cancel exactly
 if x^d leaves the remainder 1, and the least such d is 2^23 - 1.
 */
module CrcOrder {
  import opened Bitwise
  import opened Crc24q
  import opened CrcTable
  import opened Words

  const ORDER: nat := 0x7F_FFFF      // 47 * 178481

  //////////////////////////////////////////////////////////////////////////////
  // Squares of polynomials
  //////////////////////////////////////////////////////////////////////////////

  // The square of a polynomial: its coefficients spread out.
  ghost function Sq(n: nat): nat
  {
    if n == 0 then 0 else 4 * Sq(n / 2) + n % 2
  }

  lemma SqStep(a: nat, x: nat)
    requires x < 2
    ensures Sq(2 * a + x) == 4 * Sq(a) + x
  {
    assert (2 * a + x) / 2 == a;
  }

  lemma {:induction false} SqXor(a: nat, b: nat)
    ensures Sq(Xor(a, b)) == Xor(Sq(a), Sq(b))
    decreases a + b
  {
    if a == 0 && b == 0 {
      XorZero(0);
    } else {
      SqXor(a / 2, b / 2);
      SqXorStep(a / 2, a % 2, b / 2, b % 2);
    }
  }

  lemma SqXorStep(a: nat, x: nat, b: nat, y: nat)
    requires x < 2 && y < 2 && Sq(Xor(a, b)) == Xor(Sq(a), Sq(b))
    ensures Sq(Xor(2 * a + x, 2 * b + y)) == Xor(Sq(2 * a + x), Sq(2 * b + y))
  {
    hide Sq, Xor;
    XorStep(a, x, b, y);
    SqStep(Xor(a, b), BitXor(x, y));
    SqStep(a, x);
    SqStep(b, y);
    XorStep(2 * Sq(a), x, 2 * Sq(b), y);
    XorStep(Sq(a), 0, Sq(b), 0);
    FourFold(Sq(a), x);
    FourFold(Sq(b), y);
  }

  lemma FourFold(n: nat, x: nat)
    ensures 2 * (2 * n) + x == 4 * n + x
  {
  }

  lemma NextPowers(n: nat)
    ensures Pow2(n + 1) == 2 * Pow2(n) && Pow2(2 * (n + 1)) == 4 * Pow2(2 * n)
  {
    assert Pow2(2 * n + 2) == 2 * Pow2(2 * n + 1);
  }

  lemma SqOne()
    ensures Sq(Pow2(0)) == Pow2(2 * 0)
  {
  }

  lemma {:induction false} SqPow2(n: nat)
    ensures Sq(Pow2(n)) == Pow2(2 * n)
  {
    hide *;
    if n == 0 {
      SqOne();
    } else {
      SqPow2(n - 1);
      SqStep(Pow2(n - 1), 0);
      NextPowers(n - 1);
    }
  }

  //////////////////////////////////////////////////////////////////////////////
  // Multiples that can be evaluated
  //////////////////////////////////////////////////////////////////////////////

  // The product of a hexadecimal digit and the generator.
  function Part(x: bv64): bv64
  {
    (if x & 1 == 1 then 0x1864CFB else 0) ^ (if x & 2 == 2 then 0x30C99F6 else 0)
    ^ (if x & 4 == 4 then 0x61933EC else 0) ^ (if x & 8 == 8 then 0xC3267D8 else 0)
  }

  ghost predicate IsProduct(x: bv64)
  {
    IsMultiple(Value(x))
  }

  lemma SumOfProducts(a: bv64, b: bv64)
    requires IsProduct(a) && IsProduct(b)
    ensures IsProduct(Add(a, b))
  {
    hide IsMultiple, Value, Xor;
    ValueAdd(a, b);
    MultipleXor(Value(a), Value(b));
  }

  lemma DoubleProduct(a: bv64)
    requires IsProduct(a) && a & 0x8000000000000000 == 0
    ensures IsProduct(a << 1)
  {
    hide IsMultiple, Value;
    ValueDouble(a);
    MultipleDouble(Value(a));
  }

  lemma Products()
    ensures IsProduct(0) && IsProduct(0x1864CFB) && IsProduct(0x30C99F6) && IsProduct(0x61933EC)
    ensures IsProduct(0xC3267D8)
  {
    hide IsProduct;
    FirstProducts();
    DoubleProduct(0x1864CFB);
    DoubleProduct(0x30C99F6);
    DoubleProduct(0x61933EC);
  }

  lemma FirstProducts()
    ensures IsProduct(0) && IsProduct(0x1864CFB)
  {
    hide IsMultiple, Value;
    ZeroIsMultiple();
    GeneratorIsMultiple();
    FirstWord();
    ValueZero();
  }

  lemma PartIsProduct(x: bv64)
    ensures IsProduct(Part(x)) && Part(x) & 0xFFFFFFFFF0000000 == 0
  {
    Products();
    hide IsProduct;
    var a: bv64 := if x & 1 == 1 then 0x1864CFB else 0;
    var b: bv64 := if x & 2 == 2 then 0x30C99F6 else 0;
    var c: bv64 := if x & 4 == 4 then 0x61933EC else 0;
    var d: bv64 := if x & 8 == 8 then 0xC3267D8 else 0;
    SumOfProducts(a, b);
    SumOfProducts(a ^ b, c);
    SumOfProducts((a ^ b) ^ c, d);
  }

  function Twice(x: bv64): bv64
  {
    x << 1
  }

  predicate HasRoom(x: bv64)
  {
    x & 0x8000000000000000 == 0
  }

  lemma FourTimes(a: bv64)
    requires a & 0xF000000000000000 == 0
    ensures Twice(Twice(Twice(Twice(a)))) == a << 4
    ensures HasRoom(a) && HasRoom(Twice(a)) && HasRoom(Twice(Twice(a))) && HasRoom(Twice(Twice(Twice(a))))
  {
  }

  lemma TwiceProduct(a: bv64)
    requires IsProduct(a) && HasRoom(a)
    ensures IsProduct(Twice(a))
  {
    hide IsProduct;
    DoubleProduct(a);
  }

  lemma DigitProduct(a: bv64)
    requires IsProduct(a) && a & 0xF000000000000000 == 0
    ensures IsProduct(a << 4)
  {
    hide IsProduct, Twice, HasRoom;
    FourTimes(a);
    TwiceProduct(a);
    TwiceProduct(Twice(a));
    TwiceProduct(Twice(Twice(a)));
    TwiceProduct(Twice(Twice(Twice(a))));
  }

  // One more digit of a factor.
  function Shifted(a: bv64, x: bv64): bv64
  {
    (a << 4) ^ Part(x)
  }

  lemma ShiftedProduct(a: bv64, x: bv64)
    requires IsProduct(a) && a & 0xF000000000000000 == 0
    ensures IsProduct(Shifted(a, x))
  {
    hide IsProduct, Part;
    DigitProduct(a);
    PartIsProduct(x);
    SumOfProducts(a << 4, Part(x));
  }

  // The bits of m are zero, and m leaves room for a digit.
  lemma ShiftedBound(a: bv64, x: bv64, m: bv64)
    requires a & m == 0 && (m << 4) & 0xFFFFFFF == 0
    ensures Shifted(a, x) & (m << 4) == 0
  {
    hide IsProduct;
    PartIsProduct(x);
    hide Part;
    BoundStep(a, Part(x), m);
  }

  lemma BoundStep(a: bv64, p: bv64, m: bv64)
    requires a & m == 0 && (m << 4) & 0xFFFFFFF == 0 && p & 0xFFFFFFFFF0000000 == 0
    ensures ((a << 4) ^ p) & (m << 4) == 0
  {
  }

  // The product of a word below 2^28 and the generator, digit by digit.
  function Product(q: bv64): bv64
  {
    var a := Shifted(0, q >> 24);
    var b := Shifted(a, q >> 20);
    var c := Shifted(b, q >> 16);
    var d := Shifted(c, q >> 12);
    var e := Shifted(d, q >> 8);
    var f := Shifted(e, q >> 4);
    Shifted(f, q)
  }

  lemma ProductIsProduct(q: bv64)
    ensures IsProduct(Product(q))
  {
    hide IsProduct, Shifted, Part;
    Products();
    var a := Shifted(0, q >> 24);
    var b := Shifted(a, q >> 20);
    var c := Shifted(b, q >> 16);
    var d := Shifted(c, q >> 12);
    var e := Shifted(d, q >> 8);
    var f := Shifted(e, q >> 4);
    DigitStep(0, q >> 24, 0xFFFFFFFFFF000000);
    DigitStep(a, q >> 20, 0xFFFFFFFFF0000000);
    DigitStep(b, q >> 16, 0xFFFFFFFF00000000);
    DigitStep(c, q >> 12, 0xFFFFFFF000000000);
    DigitStep(d, q >> 8, 0xFFFFFF0000000000);
    DigitStep(e, q >> 4, 0xFFFFF00000000000);
    DigitStep(f, q, 0xFFFF000000000000);
  }

  lemma DigitStep(a: bv64, x: bv64, m: bv64)
    requires IsProduct(a) && a & m == 0 && (m << 4) & 0xFFFFFFF == 0 && m & 0xF000000000000000 == 0xF000000000000000
    ensures IsProduct(Shifted(a, x)) && Shifted(a, x) & (m << 4) == 0
  {
    hide IsProduct, Shifted;
    TopClear(a, m);
    ShiftedProduct(a, x);
    ShiftedBound(a, x, m);
  }

  lemma TopClear(a: bv64, m: bv64)
    requires a & m == 0 && m & 0xF000000000000000 == 0xF000000000000000
    ensures a & 0xF000000000000000 == 0
  {
  }

  //////////////////////////////////////////////////////////////////////////////
  // Powers of x
  //////////////////////////////////////////////////////////////////////////////

  // The square of a hexadecimal digit, and of six.
  function SqDigit(x: bv64): bv64
  {
    (x & 1) ^ ((x & 2) << 1) ^ ((x & 4) << 2) ^ ((x & 8) << 3)
  }

  function Appended(a: bv64, x: bv64): bv64
  {
    (a << 8) ^ SqDigit(x)
  }

  function SqWord(x: bv64): bv64
  {
    var a := Appended(0, x >> 20);
    var b := Appended(a, x >> 16);
    var c := Appended(b, x >> 12);
    var d := Appended(c, x >> 8);
    var e := Appended(d, x >> 4);
    Appended(e, x)
  }

  lemma SqBits(n: nat, p: nat, q: nat, r: nat, s: nat)
    requires p < 2 && q < 2 && r < 2 && s < 2
    ensures Sq(16 * n + (8 * p + 4 * q + 2 * r + s)) == 256 * Sq(n) + (64 * p + 16 * q + 4 * r + s)
  {
    hide Sq;
    SqStep(n, p);
    SqStep(2 * n + p, q);
    SqStep(4 * n + 2 * p + q, r);
    SqStep(8 * n + 4 * p + 2 * q + r, s);
  }

  lemma DigitOf(x: bv64, p: nat, q: nat, r: nat, s: nat)
    requires p == (if x & 8 == 8 then 1 else 0) && q == (if x & 4 == 4 then 1 else 0)
    requires r == (if x & 2 == 2 then 1 else 0) && s == LowBit(x)
    ensures Digit(x) == 8 * p + 4 * q + 2 * r + s
  {
  }

  // The two digits of the square of a digit.
  lemma SquareDigits(a: bv64, x: bv64, p: nat, q: nat, r: nat, s: nat)
    requires p == (if x & 8 == 8 then 1 else 0) && q == (if x & 4 == 4 then 1 else 0)
    requires r == (if x & 2 == 2 then 1 else 0) && s == LowBit(x) && a & 0xFF00000000000000 == 0
    ensures Digit(Appended(a, x)) == 4 * r + s && Digit(Rest(Appended(a, x))) == 4 * p + q
    ensures Rest(Rest(Appended(a, x))) == a
  {
    var y := Appended(a, x);
    assert y & 8 == 0 && y & 4 == (x & 2) << 1 && y & 2 == 0 && y & 1 == x & 1;
    var z := y >> 4;
    assert z & 8 == 0 && z & 4 == (x & 8) >> 1 && z & 2 == 0 && z & 1 == (x & 4) >> 2;
  }

  // One more digit of a number, and two more of its square.
  lemma AppendedValue(a: bv64, x: bv64)
    requires Sq(Value(Rest(x))) == Value(a) && a & 0xFF00000000000000 == 0
    ensures Sq(Value(x)) == Value(Appended(a, x))
  {
    var p, q := if x & 8 == 8 then 1 else 0, if x & 4 == 4 then 1 else 0;
    var r, s: nat := if x & 2 == 2 then 1 else 0, LowBit(x);
    DigitOf(x, p, q, r, s);
    SquareDigits(a, x, p, q, r, s);
    hide Sq, Value, Rest, Digit, Appended, LowBit;
    ValueDigit(x);
    SqBits(Value(Rest(x)), p, q, r, s);
    var y := Appended(a, x);
    ValueDigit(y);
    ValueDigit(Rest(y));
  }

  lemma SqValue(x: bv64)
    requires x >> 24 == 0
    ensures Sq(Value(x)) == Value(SqWord(x))
  {
    hide Sq, Value, Rest, Appended;
    Shifts(x);
    ValueZero();
    SqZero();
    var a := Appended(0, x >> 20);
    var b := Appended(a, x >> 16);
    var c := Appended(b, x >> 12);
    var d := Appended(c, x >> 8);
    var e := Appended(d, x >> 4);
    AppendedBounds(x, a, b, c, d, e);
    AppendedValue(0, x >> 20);
    AppendedValue(a, x >> 16);
    AppendedValue(b, x >> 12);
    AppendedValue(c, x >> 8);
    AppendedValue(d, x >> 4);
    AppendedValue(e, x);
  }

  lemma AppendedBounds(x: bv64, a: bv64, b: bv64, c: bv64, d: bv64, e: bv64)
    requires a == Appended(0, x >> 20) && b == Appended(a, x >> 16) && c == Appended(b, x >> 12)
    requires d == Appended(c, x >> 8) && e == Appended(d, x >> 4)
    ensures a & 0xFF00000000000000 == 0 && b & 0xFF00000000000000 == 0 && c & 0xFF00000000000000 == 0
    ensures d & 0xFF00000000000000 == 0 && e & 0xFF00000000000000 == 0
  {
    assert a & 0xFFFFFFFFFFFFFF00 == 0;
    assert b & 0xFFFFFFFFFFFF0000 == 0;
    assert c & 0xFFFFFFFFFF000000 == 0;
    assert d & 0xFFFFFFFF00000000 == 0;
  }

  lemma SqZero()
    ensures Sq(0) == 0
  {
  }

  // r is the remainder of x^n.
  ghost predicate Power(n: nat, r: bv64)
  {
    IsMultiple(Xor(Pow2(n), Value(r)))
  }

  // The square of a multiple is one.
  lemma {:induction false} MulSq(q: nat)
    ensures IsMultiple(Sq(Mul(q, CRCPOLY)))
  {
    hide IsMultiple, Sq, Xor, Mul;
    if q == 0 {
      MulZero(CRCPOLY);
      SqZero();
      ZeroIsMultiple();
    } else {
      var m: nat := Mul(q / 2, CRCPOLY);
      MulSq(q / 2);
      MulStep(q / 2, q % 2, CRCPOLY);
      SqXor(2 * m, if q % 2 == 1 then CRCPOLY else 0);
      SqStep(m, 0);
      MultipleDouble(Sq(m));
      MultipleDouble(2 * Sq(m));
      SqZero();
      ZeroIsMultiple();
      GeneratorSquare();
      MultipleXor(4 * Sq(m), if q % 2 == 1 then Sq(CRCPOLY) else 0);
    }
  }

  lemma GeneratorSquare()
    ensures IsMultiple(Sq(CRCPOLY))
  {
    hide IsMultiple, Sq, Value, SqWord, Appended, Product;
    FirstWord();
    GeneratorDigits();
    SqValue(0x1864CF);
    AppendedValue(SqWord(0x1864CF), POLY);
    ProductIsProduct(POLY);
  }

  lemma GeneratorDigits()
    ensures Rest(POLY) == 0x1864CF && SqWord(0x1864CF) & 0xFF00000000000000 == 0
    ensures Appended(SqWord(0x1864CF), POLY) == Product(POLY)
  {
  }

  lemma MultipleSq(n: nat)
    requires IsMultiple(n)
    ensures IsMultiple(Sq(n))
  {
    var q: nat :| Mul(q, CRCPOLY) == n;
    hide IsMultiple;
    MulSq(q);
  }

  // The square of r, below 2^24, is the product of q and the generator, and t.
  predicate IsSquare(r: bv64, q: bv64, t: bv64)
  {
    r >> 24 == 0 && SqWord(r) == Add(Product(q), t)
  }

  lemma SquareValue(r: bv64, q: bv64, t: bv64)
    requires IsSquare(r, q, t)
    ensures Sq(Value(r)) == Xor(Value(Product(q)), Value(t))
  {
    hide Sq, Value, Xor, SqWord, Product, Add;
    SqValue(r);
    ValueAdd(Product(q), t);
  }

  // From x^n to x^2n.
  lemma Squared(n: nat, r: bv64, q: bv64, t: bv64)
    requires Power(n, r) && IsSquare(r, q, t)
    ensures Power(2 * n, t)
  {
    hide IsMultiple, IsProduct, Sq, Value, Xor, Pow2, IsSquare, Product;
    SquareValue(r, q, t);
    ProductIsProduct(q);
    ProductMultiple(Product(q));
    var v: nat, p: nat, u: nat := Value(r), Value(Product(q)), Value(t);
    SquaredValue(n, v, p, u);
  }

  lemma ProductMultiple(x: bv64)
    ensures IsProduct(x) <==> IsMultiple(Value(x))
  {
  }

  lemma SquaredValue(n: nat, v: nat, p: nat, u: nat)
    requires IsMultiple(Xor(Pow2(n), v)) && Sq(v) == Xor(p, u) && IsMultiple(p)
    ensures IsMultiple(Xor(Pow2(2 * n), u))
  {
    hide IsMultiple, Sq, Xor, Pow2;
    var w: nat := Pow2(2 * n);
    MultipleSq(Xor(Pow2(n), v));
    SqXor(Pow2(n), v);
    SqPow2(n);
    MultipleXor(Xor(w, Xor(p, u)), p);
    XorComm(p, u);
    XorAssoc(w, u, p);
    XorAssoc(Xor(w, u), p, p);
    XorSelf(p);
    XorZero(Xor(w, u));
  }

  // From x^n to x^(n+1).
  lemma TimesX(n: nat, r: bv64, t: bv64)
    requires Power(n, r) && HasRoom(r) && (t == r << 1 || t == (r << 1) ^ POLY)
    ensures Power(n + 1, t)
  {
    hide IsMultiple, Value, Xor;
    var v: nat := Value(r);
    assert Pow2(n + 1) == 2 * Pow2(n);
    hide Pow2;
    MultipleDouble(Xor(Pow2(n), v));
    XorStep(Pow2(n), 0, v, 0);
    ValueDouble(r);
    ValueAdd(r << 1, POLY);
    FirstWord();
    GeneratorIsMultiple();
    MultipleXor(Xor(2 * Pow2(n), 2 * v), CRCPOLY);
    XorAssoc(2 * Pow2(n), 2 * v, CRCPOLY);
  }

  lemma Monomial(n: nat, r: bv64)
    requires Hex(r) == Pow2(n)
    ensures Power(n, r)
  {
    hide IsMultiple, Value, Xor, Hex, Pow2;
    ValueHex(r);
    XorSelf(Pow2(n));
    ZeroIsMultiple();
  }

  lemma Power47()
    ensures Power(47, 0x1B04A9)
  {
    hide Power;
    Pow2Values();
    Monomial(5, 0x20);
    Squared(5, 0x20, 0x0, 0x400);
    TimesX(10, 0x400, 0x800);
    Squared(11, 0x800, 0x0, 0x400000);
    TimesX(22, 0x400000, 0x800000);
    Squared(23, 0x800000, 0x7E117F, 0xCEA429);
    TimesX(46, 0xCEA429, 0x1B04A9);
  }

  lemma Power86()
    ensures Power(86, 0x3F5F83)
  {
    hide Power;
    Pow2Values();
    Monomial(5, 0x20);
    Squared(5, 0x20, 0x0, 0x400);
    Squared(10, 0x400, 0x0, 0x100000);
    TimesX(20, 0x100000, 0x200000);
    Squared(21, 0x200000, 0x7E117, 0x86F251);
    TimesX(42, 0x86F251, 0x8BA859);
    Squared(43, 0x8BA859, 0x7E690E, 0x3F5F83);
  }

  lemma Power1394()
    ensures Power(1394, 0x2107D8)
  {
    hide Power;
    Power86();
    TimesX(86, 0x3F5F83, 0x7EBF06);
    Squared(87, 0x7EBF06, 0x19FB01, 0xE109EF);
    Squared(174, 0xE109EF, 0x6675CF, 0xFE912C);
    Squared(348, 0xFE912C, 0x67EA79, 0xE84F63);
    TimesX(696, 0xE84F63, 0x56D23D);
    Squared(697, 0x56D23D, 0x1E641F, 0x2107D8);
  }

  lemma Power22310()
    ensures Power(22310, 0x7A2F34)
  {
    hide Power;
    Power1394();
    Squared(1394, 0x2107D8, 0x7E0EF, 0xF52C59);
    Squared(2788, 0xF52C59, 0x679209, 0x8EFC62);
    TimesX(5576, 0x8EFC62, 0x9BB43F);
    Squared(5577, 0x9BB43F, 0x7F914A, 0x6A0EBB);
    TimesX(11154, 0x6A0EBB, 0xD41D76);
    Squared(11155, 0xD41D76, 0x6072E0, 0x7A2F34);
  }

  lemma Power178481()
    ensures Power(178481, 0x475A89)
  {
    hide Power;
    Power22310();
    Squared(22310, 0x7A2F34, 0x19E4FA, 0xF24AE);
    Squared(44620, 0xF24AE, 0x678B, 0xC9CA01);
    Squared(89240, 0xC9CA01, 0x61EAA8, 0xE08B39);
    TimesX(178480, 0xE08B39, 0x475A89);
  }

  lemma Power1024()
    ensures Power(1024, 0xDEF23C)
  {
    hide Power;
    Pow2Values();
    Monomial(16, 0x10000);
    Squared(16, 0x10000, 0x1F8, 0x668F48);
    Squared(32, 0x668F48, 0x187D53, 0x36EB3D);
    Squared(64, 0x36EB3D, 0x60151, 0x6243DA);
    Squared(128, 0x6243DA, 0x1862B6, 0xCB800E);
    Squared(256, 0xCB800E, 0x61ED56, 0x7DB43E);
    Squared(512, 0x7DB43E, 0x19FD18, 0xDEF23C);
  }

  lemma Power65536()
    ensures Power(65536, 0xDBEA27)
  {
    hide Power;
    Power1024();
    Squared(1024, 0xDEF23C, 0x600B76, 0x3D145A);
    Squared(2048, 0x3D145A, 0x6793E, 0xC5BF56);
    Squared(4096, 0xC5BF56, 0x618B24, 0x11E898);
    Squared(8192, 0x11E898, 0x1F9DB, 0xEACC65);
    Squared(16384, 0xEACC65, 0x660DA6, 0x893EB);
    Squared(32768, 0x893EB, 0x7E6E, 0xDBEA27);
  }

  lemma Power4194304()
    ensures Power(4194304, 0x85C31E)
  {
    hide Power;
    Power65536();
    Squared(65536, 0xDBEA27, 0x60150B, 0xEC11C0);
    Squared(131072, 0xEC11C0, 0x6615A3, 0x6EC0ED);
    Squared(262144, 0x6EC0ED, 0x18035D, 0xE7B0EE);
    Squared(524288, 0xE7B0EE, 0x666DD2, 0xDE2E52);
    Squared(1048576, 0xDE2E52, 0x600B16, 0x37A1AE);
    Squared(2097152, 0x37A1AE, 0x600B6, 0x85C31E);
  }

  lemma Power8388608()
    ensures Power(8388608, 0x2)
  {
    hide Power;
    Power4194304();
    Squared(4194304, 0x85C31E, 0x7E0F62, 0x2);
  }

  //////////////////////////////////////////////////////////////////////////////
  // The order of x
  //////////////////////////////////////////////////////////////////////////////

  // x^d leaves the remainder 1.
  ghost predicate Unity(d: nat)
  {
    IsMultiple(Xor(Pow2(d), 1))
  }

  lemma UnityZero()
    ensures Unity(0)
  {
    hide IsMultiple;
    XorSelf(1);
    ZeroIsMultiple();
  }

  // x^(a+b) - 1 = (x^a - 1) x^b + (x^b - 1).
  lemma UnityAdd(a: nat, b: nat)
    requires Unity(a)
    ensures Unity(a + b) <==> Unity(b)
  {
    hide IsMultiple, Xor, Pow2;
    var u: nat, v: nat, w: nat := Pow2(a), Pow2(b), Pow2(a + b);
    Pow2Add(a, b);
    var shifted: nat := Xor(u, 1) * v;
    MultipleShift(Xor(u, 1), b);
    ShiftedSum(u, b);
    assert shifted == Xor(w, v);
    XorAssoc(w, v, Xor(v, 1));
    XorCancel(v, 1);
    assert Xor(shifted, Xor(v, 1)) == Xor(w, 1);
    XorCancel(shifted, Xor(v, 1));
    if Unity(b) {
      MultipleXor(shifted, Xor(v, 1));
    }
    if Unity(a + b) {
      MultipleXor(shifted, Xor(w, 1));
    }
  }

  lemma ShiftedSum(u: nat, k: nat)
    ensures Xor(u, 1) * Pow2(k) == Xor(u * Pow2(k), Pow2(k))
  {
    var p := Pow2(k);
    hide Xor, Pow2;
    XorSplit(u, 0, 1, 0, k);
    XorZero(0);
  }

  lemma {:induction false} UnityMod(e: nat, d: nat)
    requires e > 0 && Unity(e)
    ensures Unity(d) <==> Unity(d % e)
    decreases d
  {
    hide Unity;
    if d >= e {
      UnityMod(e, d - e);
      UnityAdd(e, d - e);
      ModStep(d, e);
    } else {
      ModSmall(d, e);
    }
  }

  lemma ModStep(d: nat, e: nat)
    requires 0 < e <= d
    ensures (d - e) % e == d % e
  {
    var q, r := (d - e) / e, (d - e) % e;
    assert d - e == q * e + r;
    assert d == (q + 1) * e + r;
    Remainder(d, e, q + 1, r);
  }

  lemma Remainder(d: nat, e: nat, q: nat, r: nat)
    requires e > 0 && d == q * e + r && r < e
    ensures d % e == r
  {
    var k := d / e;
    assert (k - q) * e == r - d % e;
    if k > q {
      Exceeds(k - q, e);
    } else if k < q {
      Exceeds(q - k, e);
    }
  }

  lemma Exceeds(k: nat, e: nat)
    requires k > 0
    ensures k * e >= e
  {
  }

  lemma ModSmall(d: nat, e: nat)
    requires d < e
    ensures d % e == d
  {
  }

  // The least exponent of all with that remainder.
  lemma {:induction false} Least(n: nat) returns (e: nat)
    requires n > 0 && Unity(n)
    ensures 0 < e <= n && Unity(e) && forall k :: 0 < k < e ==> !Unity(k)
  {
    hide Unity;
    if k: nat :| 0 < k < n && Unity(k) {
      e := Least(k);
    } else {
      e := n;
    }
  }

  lemma Divides(e: nat, d: nat)
    requires e > 0 && Unity(e) && forall k :: 0 < k < e ==> !Unity(k)
    ensures Unity(d) <==> d % e == 0
  {
    hide Unity;
    UnityMod(e, d);
    UnityZero();
  }

  lemma UnityOrder()
    ensures Unity(ORDER)
  {
    hide IsMultiple, Xor, Pow2, Value;
    Power8388608();
    ValueHex(2);
    HexTwo();
    NextPower(ORDER);
    XorStep(Pow2(ORDER), 0, 1, 0);
    MultipleHalve(Xor(Pow2(ORDER), 1));
  }

  lemma HexTwo()
    ensures Hex(2) == 2
  {
  }

  lemma NextPower(n: nat)
    ensures Pow2(n + 1) == 2 * Pow2(n)
  {
  }

  // A remainder other than 1.
  lemma NoUnity(n: nat, r: bv64)
    requires Power(n, r) && Hex(r) != 1 && Hex(r) < X24
    ensures !Unity(n)
  {
    hide IsMultiple, Xor, Pow2, Value, Hex;
    ValueHex(r);
    if Unity(n) {
      var w: nat, v: nat := Pow2(n), Value(r);
      MultipleXor(Xor(w, v), Xor(w, 1));
      XorRegroup(w, v, w, 1);
      XorSelf(w);
      XorZero(Xor(v, 1));
      SmallXor(v);
      SmallMultiple(Xor(v, 1));
      XorCancel(v, 1);
    }
  }

  lemma SmallXor(v: nat)
    requires v < X24
    ensures Xor(v, 1) < X24
  {
    hide Xor;
    Pow2Values();
    XorSplit(0, v, 0, 1, 24);
  }

  lemma NoSmallOrder()
    ensures !Unity(1) && !Unity(47) && !Unity(178481)
  {
    hide Power, Unity;
    Pow2Values();
    Monomial(1, 2);
    Power47();
    Power178481();
    NoUnity(1, 2);
    NoUnity(47, 0x1B04A9);
    NoUnity(178481, 0x475A89);
  }

  //////////////////////////////////////////////////////////////////////////////
  // The divisors of 47 * 178481
  //////////////////////////////////////////////////////////////////////////////

  lemma NoFactor1(d: nat)
    requires 2 <= d < 120
    ensures 178481 % d != 0
  {
  }

  lemma NoFactor2(d: nat)
    requires 120 <= d < 230
    ensures 178481 % d != 0
  {
  }

  lemma NoFactor3(d: nat)
    requires 230 <= d < 330
    ensures 178481 % d != 0
  {
  }

  lemma NoFactor4(d: nat)
    requires 330 <= d < 423
    ensures 178481 % d != 0
  {
  }

  // A divisor leaves no remainder.
  lemma Divided(a: nat, b: nat, n: nat)
    requires a > 0 && a * b == n
    ensures n % a == 0
  {
    Remainder(n, a, b, 0);
  }

  lemma PrimeProduct(a: nat, b: nat)
    requires a * b == 178481
    ensures a == 1 || b == 1
  {
    if a <= b {
      NoFactor(a, b);
    } else {
      NoFactor(b, a);
    }
  }

  lemma NoFactor(a: nat, b: nat)
    requires a * b == 178481 && a <= b
    ensures a == 1
  {
    if a >= 423 {
      Larger(423, a, 423, b);
    }
    if a > 1 {
      Divided(a, b, 178481);
      if a < 120 {
        NoFactor1(a);
      } else if a < 230 {
        NoFactor2(a);
      } else if a < 330 {
        NoFactor3(a);
      } else {
        NoFactor4(a);
      }
    }
  }

  lemma Larger(a: nat, b: nat, c: nat, d: nat)
    requires a <= b && c <= d
    ensures a * c <= b * d
  {
  }

  // 47 divides a product only if it divides a factor.
  lemma {:induction false} Euclid(r: nat, s: nat, k: nat)
    requires 0 < r < 47 && r * s == 47 * k
    ensures s % 47 == 0
    decreases r
  {
    if r == 1 {
      Divided(47, k, s);
    } else {
      var q, t := 47 / r, 47 % r;
      SmallPrime(r);
      assert t * s == 47 * s - q * (r * s) by {
        assert 47 == q * r + t;
        assert (q * r + t) * s == q * (r * s) + t * s;
      }
      assert q * (r * s) == 47 * (q * k);
      assert t * s == 47 * (s - q * k);
      NotNegative(t * s, s - q * k);
      Euclid(t, s, s - q * k);
    }
  }

  lemma SmallPrime(r: nat)
    requires 1 < r < 47
    ensures 47 % r != 0
  {
  }

  lemma NotNegative(n: nat, k: int)
    requires n == 47 * k
    ensures k >= 0
  {
  }

  lemma Divisors(e: nat, m: nat)
    requires e * m == ORDER
    ensures e == 1 || e == 47 || e == 178481 || e == ORDER
  {
    var r := e % 47;
    if r != 0 {
      var q := e / 47;
      assert r * m == 47 * (178481 - q * m) by {
        assert e == 47 * q + r;
        assert (47 * q + r) * m == 47 * (q * m) + r * m;
      }
      NotNegative(r * m, 178481 - q * m);
      Euclid(r, m, 178481 - q * m);
      var n := m / 47;
      assert e * (47 * n) == 47 * (e * n);
      PrimeProduct(e, n);
    } else {
      var f := e / 47;
      assert (47 * f) * m == 47 * (f * m);
      PrimeProduct(f, m);
    }
  }

  // The remainder of x^d is 1 exactly for the multiples of 2^23 - 1.
  lemma OrderOfX(d: nat)
    ensures Unity(d) <==> d % ORDER == 0
  {
    hide Unity;
    UnityOrder();
    var e := Least(ORDER);
    Divides(e, ORDER);
    Divides(e, d);
    var m := ORDER / e;
    assert e * m == ORDER;
    Divisors(e, m);
    NoSmallOrder();
  }

  //////////////////////////////////////////////////////////////////////////////
  // Double-bit errors
  //////////////////////////////////////////////////////////////////////////////

  lemma {:induction false} PowerCoefficient(n: nat, k: nat)
    ensures Coefficient(Pow2(n), k) == if k == n then 1 else 0
  {
    if n == 0 {
      if k > 0 {
        CoefficientZero(k - 1);
        CoefficientStep(0, 1, k);
      }
    } else {
      CoefficientStep(Pow2(n - 1), 0, k);
      if k > 0 {
        PowerCoefficient(n - 1, k - 1);
      }
    }
  }

  // A polynomial with two terms.
  lemma TwoTerms(e: nat, lo: nat, hi: nat)
    requires lo < hi && forall k: nat :: Coefficient(e, k) == if k == lo || k == hi then 1 else 0
    ensures e == Xor(Pow2(lo), Pow2(hi))
  {
    hide Coefficient, Xor, Pow2;
    var f: nat := Xor(Pow2(lo), Pow2(hi));
    var g: nat := Xor(e, f);
    forall k: nat ensures Coefficient(g, k) == 0 {
      CoefficientXor(e, f, k);
      CoefficientXor(Pow2(lo), Pow2(hi), k);
      PowerCoefficient(lo, k);
      PowerCoefficient(hi, k);
    }
    NoCoefficients(g);
    XorCancel(e, f);
  }

  // x^lo + x^hi = x^lo (1 + x^(hi-lo)).
  lemma TwoTermMultiple(lo: nat, hi: nat)
    requires lo < hi
    ensures IsMultiple(Xor(Pow2(lo), Pow2(hi))) <==> Unity(hi - lo)
  {
    hide *;
    var u: nat, v: nat, w: nat := Pow2(hi - lo), Pow2(lo), Pow2(hi);
    Pow2Add(hi - lo, lo);
    ShiftedSum(u, lo);
    XorComm(w, v);
    MultipleShift(Xor(u, 1), lo);
    UnityIs(hi - lo);
  }

  lemma UnityIs(d: nat)
    ensures Unity(d) <==> IsMultiple(Xor(Pow2(d), 1))
  {
  }

  // Two strings of which one is a codeword and that differ in exactly two bits: the other
  // one is a codeword too if and only if the bits are a multiple of 2^23 - 1 apart.  Strings
  // of less than a megabyte have no such bits.
  lemma DoubleErrors(s: seq<byte>, t: seq<byte>, lo: nat, hi: nat)
    requires |s| == |t| && lo < hi < 8 * |s| && IsCodeword(s)
    requires forall k: nat :: k < 8 * |s| ==> (BitAt(s, k) != BitAt(t, k) <==> k == lo || k == hi)
    ensures IsCodeword(t) <==> (hi - lo) % ORDER == 0
    ensures 8 * |s| <= ORDER ==> !IsCodeword(t)
  {
    hide Xor, IsMultiple, Coefficient, BitAt, Message, Unity, Pow2;
    var a: nat, b: nat := Message(s), Message(t);
    var e: nat := Xor(a, b);
    forall k: nat ensures Coefficient(e, k) == if k == lo || k == hi then 1 else 0 {
      CoefficientXor(a, b, k);
      MessageBits(s, k);
      MessageBits(t, k);
    }
    TwoTerms(e, lo, hi);
    TwoTermMultiple(lo, hi);
    OrderOfX(hi - lo);
    XorCancel(a, b);
    if IsCodeword(t) {
      MultipleXor(a, b);
    }
    if IsMultiple(e) {
      MultipleXor(a, e);
    }
  }

  // n bytes of zero, and the same with the first and the last bit set.
  function Zeros(n: nat): (s: seq<byte>)
    ensures |s| == n
  {
    seq(n, i => 0)
  }

  function EndsSet(n: nat): (s: seq<byte>)
    ensures |s| == n
  {
    seq(n, i => if i == 0 then 128 else if i == n - 1 then 1 else 0)
  }

  lemma {:induction false} ZerosMessage(n: nat)
    ensures Message(Zeros(n)) == 0
  {
    if n > 0 {
      assert Zeros(n)[..n - 1] == Zeros(n - 1);
      ZerosMessage(n - 1);
    }
  }

  lemma BitsOfEnds(n: nat, k: nat)
    requires n >= 2 && k < 8 * n
    ensures BitAt(Zeros(n), k) == 0
    ensures BitAt(EndsSet(n), k) == if k == 0 || k == 8 * n - 1 then 1 else 0
  {
    hide Coefficient;
    Pow2Values();
    CoefficientZero(k % 8);
    PowerCoefficient(7, k % 8);
    PowerCoefficient(0, k % 8);
  }

  // Strings of 2^20 bytes are long enough: both of these are codewords.
  lemma MissedPair()
    ensures var s, t := Zeros(0x10_0000), EndsSet(0x10_0000);
      && IsCodeword(s) && IsCodeword(t)
      && forall k: nat :: k < 8 * |s| ==> (BitAt(s, k) != BitAt(t, k) <==> k == 0 || k == ORDER)
  {
    hide BitAt, Message, IsMultiple, Zeros, EndsSet;
    var n := 0x10_0000;
    forall k: nat | k < 8 * n ensures BitAt(Zeros(n), k) != BitAt(EndsSet(n), k) <==> k == 0 || k == ORDER {
      BitsOfEnds(n, k);
    }
    ZerosMessage(n);
    ZeroIsMultiple();
    DoubleErrors(Zeros(n), EndsSet(n), 0, ORDER);
  }
}
