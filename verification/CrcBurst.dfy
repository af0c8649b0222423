/**
 Bursts of errors longer than 24 bits under the checksum of crc24q.c: which ones go
 unnoticed, and how many they are.
 */
module CrcBurst {
  import opened Bitwise
  import opened Crc24q

  // A burst that spans b bits: its first and its last bit are errors, what is between them
  // may be.
  predicate IsPattern(e: nat, b: nat)
  {
    b >= 1 && Pow2(b - 1) <= e < Pow2(b) && e % 2 == 1
  }

  // The two strings differ in such a burst, whose last bit is bit lo.
  ghost predicate Burst(s: seq<byte>, t: seq<byte>, lo: nat, b: nat)
  {
    && |s| == |t| && b >= 1 && lo + b <= 8 * |s|
    && BitAt(s, lo) != BitAt(t, lo) && BitAt(s, lo + b - 1) != BitAt(t, lo + b - 1)
    && forall k: nat :: k < 8 * |s| && BitAt(s, k) != BitAt(t, k) ==> lo <= k < lo + b
  }

  ghost predicate HasPattern(s: seq<byte>, t: seq<byte>, lo: nat, p: nat)
  {
    Xor(Message(s), Message(t)) == p * Pow2(lo)
  }

  //////////////////////////////////////////////////////////////////////////////
  // Bursts in strings and their patterns
  //////////////////////////////////////////////////////////////////////////////

  lemma ShiftedCoefficient(p: nat, lo: nat, k: nat)
    ensures Coefficient(p * Pow2(lo), k) == if k < lo then 0 else Coefficient(p, k - lo)
  {
    hide Coefficient, Pow2;
    CoefficientSplit(p, 0, lo, k);
    CoefficientZero(k);
  }

  lemma LowestCoefficient(p: nat)
    ensures Coefficient(p, 0) == p % 2
  {
  }

  lemma HighCoefficient(p: nat, k: nat)
    requires p < Pow2(k)
    ensures Coefficient(p, k) == 0
  {
    hide Coefficient, Pow2;
    CoefficientSplit(0, p, k, k);
    CoefficientZero(0);
  }

  lemma {:induction false} TopCoefficient(p: nat, k: nat)
    requires Pow2(k) <= p < Pow2(k + 1)
    ensures Coefficient(p, k) == 1
  {
    hide Coefficient;
    if k == 0 {
      LowestCoefficient(p);
    } else {
      TopCoefficient(p / 2, k - 1);
      CoefficientStep(p / 2, p % 2, k);
    }
  }

  lemma DifferenceAt(s: seq<byte>, t: seq<byte>, k: nat)
    requires |s| == |t|
    ensures Coefficient(Xor(Message(s), Message(t)), k) == 1 <==> k < 8 * |s| && BitAt(s, k) != BitAt(t, k)
  {
    hide Coefficient, BitAt, Message, Xor;
    CoefficientXor(Message(s), Message(t), k);
    MessageBits(s, k);
    MessageBits(t, k);
  }

  // Every burst is a pattern moved to its place,
  lemma PatternOf(s: seq<byte>, t: seq<byte>, lo: nat, b: nat) returns (p: nat)
    requires Burst(s, t, lo, b)
    ensures IsPattern(p, b) && HasPattern(s, t, lo, p)
  {
    hide Coefficient, BitAt, Message, Xor, Pow2;
    var e: nat := Xor(Message(s), Message(t));
    forall k: nat | Coefficient(e, k) == 1 ensures lo <= k < lo + b {
      DifferenceAt(s, t, k);
    }
    p := Window(e, lo, b);
    DifferenceAt(s, t, lo);
    DifferenceAt(s, t, lo + b - 1);
    ShiftedCoefficient(p, lo, lo);
    ShiftedCoefficient(p, lo, lo + b - 1);
    LowestCoefficient(p);
    if p < Pow2(b - 1) {
      HighCoefficient(p, b - 1);
    }
  }

  lemma {:induction false} MessageBound(s: seq<byte>)
    ensures Message(s) < Pow2(8 * |s|)
  {
    if s != [] {
      MessageBound(s[..|s| - 1]);
      Pow2Add(8 * |s| - 8, 8);
      Pow2Values();
    }
  }

  // Every number that is not too large is the message polynomial of a string.
  lemma {:induction false} Spell(n: nat, m: nat) returns (t: seq<byte>)
    requires m < Pow2(8 * n)
    ensures |t| == n && Message(t) == m
  {
    if n == 0 {
      t := [];
    } else {
      Pow2Add(8 * n - 8, 8);
      Pow2Values();
      t := Spell(n - 1, m / 256);
      t := t + [m % 256];
      assert t[..n - 1] + [t[n - 1]] == t;
    }
  }

  lemma PatternBound(p: nat, lo: nat, b: nat, n: nat)
    requires IsPattern(p, b) && lo + b <= n
    ensures p * Pow2(lo) < Pow2(n)
  {
    Pow2Add(b, lo);
    Pow2Monotone(b + lo, n);
    Scaled(p, Pow2(b), Pow2(lo));
  }

  lemma Scaled(p: nat, q: nat, r: nat)
    requires p < q && r > 0
    ensures p * r < q * r
  {
  }

  // and every pattern at every place is a burst, in one string only.
  lemma PatternAt(s: seq<byte>, lo: nat, b: nat, p: nat) returns (t: seq<byte>)
    requires IsPattern(p, b) && lo + b <= 8 * |s|
    ensures Burst(s, t, lo, b) && HasPattern(s, t, lo, p)
    ensures forall u: seq<byte> :: |u| == |s| && HasPattern(s, u, lo, p) ==> u == t
  {
    hide Coefficient, BitAt, Message, Xor, Pow2;
    var m: nat, e: nat := Message(s), p * Pow2(lo);
    MessageBound(s);
    PatternBound(p, lo, b, 8 * |s|);
    XorSplit(0, m, 0, e, 8 * |s|);
    t := Spell(|s|, Xor(m, e));
    XorCancel(m, e);
    forall k: nat ensures Coefficient(e, k) == if k < lo then 0 else Coefficient(p, k - lo) {
      ShiftedCoefficient(p, lo, k);
    }
    BurstAt(s, t, lo, b, p);
    forall u: seq<byte> | |u| == |s| && HasPattern(s, u, lo, p) ensures u == t {
      XorCancel(m, Message(u));
      MessageInjective(u, t);
    }
  }

  lemma BurstAt(s: seq<byte>, t: seq<byte>, lo: nat, b: nat, p: nat)
    requires IsPattern(p, b) && lo + b <= 8 * |s| && |s| == |t| && HasPattern(s, t, lo, p)
    ensures Burst(s, t, lo, b)
  {
    var e: nat := Xor(Message(s), Message(t));
    hide Coefficient, BitAt, Message, Xor, Pow2;
    ShiftedCoefficient(p, lo, lo);
    ShiftedCoefficient(p, lo, lo + b - 1);
    LowestCoefficient(p);
    TopCoefficient(p, b - 1);
    DifferenceAt(s, t, lo);
    DifferenceAt(s, t, lo + b - 1);
    forall k: nat | k < 8 * |s| && BitAt(s, k) != BitAt(t, k) ensures lo <= k < lo + b {
      DifferenceAt(s, t, k);
      ShiftedCoefficient(p, lo, k);
      if k >= lo + b {
        Pow2Monotone(b, k - lo);
        HighCoefficient(p, k - lo);
      }
    }
  }

  //////////////////////////////////////////////////////////////////////////////
  // Multiples of the generator by their degree
  //////////////////////////////////////////////////////////////////////////////

  lemma KeepsTop(n: nat, p: nat, k: nat)
    requires Pow2(k) <= n < 2 * Pow2(k) && p < Pow2(k)
    ensures Pow2(k) <= Xor(n, p) < 2 * Pow2(k)
  {
    hide Xor, Pow2;
    XorSplit(1, n - Pow2(k), 0, p, k);
    XorZero(1);
  }

  // A quotient of degree d makes a multiple of degree d + 24.
  lemma {:induction false} MulRange(q: nat, d: nat)
    requires Pow2(d) <= q < Pow2(d + 1)
    ensures Pow2(d + 24) <= Mul(q, CRCPOLY) < Pow2(d + 25)
  {
    hide Mul, Xor;
    Pow2Values();
    if d == 0 {
      MulOne();
    } else {
      MulRange(q / 2, d - 1);
      assert Pow2(d + 24) == 2 * Pow2(d + 23) && Pow2(d + 25) == 2 * Pow2(d + 24);
      hide Pow2;
      MulRangeStep(q / 2, q % 2, d + 24);
    }
  }

  lemma MulOne()
    ensures Mul(1, CRCPOLY) == CRCPOLY
  {
    hide Mul, Xor;
    MulStep(0, 1, CRCPOLY);
    MulZero(CRCPOLY);
    XorZero(CRCPOLY);
  }

  lemma MulRangeStep(q: nat, x: nat, k: nat)
    requires x < 2 && k >= 25 && Pow2(k) <= 2 * Mul(q, CRCPOLY) < 2 * Pow2(k)
    ensures Pow2(k) <= Mul(2 * q + x, CRCPOLY) < 2 * Pow2(k)
  {
    Pow2Values();
    hide Mul, Xor, Pow2;
    MulStep(q, x, CRCPOLY);
    Pow2Monotone(25, k);
    KeepsTop(2 * Mul(q, CRCPOLY), if x == 1 then CRCPOLY else 0, k);
  }

  lemma MulParity(q: nat)
    ensures Mul(q, CRCPOLY) % 2 == q % 2
  {
    hide Mul;
    MulParityStep(q / 2, q % 2);
    assert 2 * (q / 2) + q % 2 == q;
  }

  lemma MulParityStep(a: nat, x: nat)
    requires x < 2
    ensures Mul(2 * a + x, CRCPOLY) % 2 == x
  {
    hide Mul, Xor;
    MulStep(a, x, CRCPOLY);
    var m: nat := Mul(a, CRCPOLY);
    OddSum(m, 0xC3267D);
    XorZero(2 * m);
  }

  lemma OddSum(m: nat, n: nat)
    ensures Xor(2 * m, 2 * n + 1) % 2 == 1
  {
    hide Xor;
    XorStep(m, 0, n, 1);
  }

  lemma MulInjective(q: nat, r: nat)
    requires Mul(q, CRCPOLY) == Mul(r, CRCPOLY)
    ensures q == r
  {
    hide Xor, Mul;
    MulXor(q, r, CRCPOLY);
    XorSelf(Mul(q, CRCPOLY));
    if Xor(q, r) > 0 {
      MulDegree(Xor(q, r));
    }
    XorCancel(q, r);
  }

  lemma {:induction false} Degree(q: nat) returns (d: nat)
    requires q > 0
    ensures Pow2(d) <= q < Pow2(d + 1)
  {
    if q == 1 {
      d := 0;
      Pow2Values();
    } else {
      d := Degree(q / 2);
      d := d + 1;
    }
  }

  lemma OneDegree(e: nat, c: nat, d: nat)
    requires Pow2(c) <= e < Pow2(c + 1) && Pow2(d) <= e < Pow2(d + 1)
    ensures c == d
  {
    hide Pow2;
    Pow2Monotone(c + 1, d);
    Pow2Monotone(d + 1, c);
  }

  // The patterns that are multiples of the generator are those with a quotient that is a
  // pattern 24 bits shorter.
  lemma PatternMultiple(q: nat, b: nat)
    requires b >= 1
    ensures IsPattern(Mul(q, CRCPOLY), b) <==> b >= 25 && IsPattern(q, b - 24)
  {
    hide Mul, Pow2;
    MulParity(q);
    if q == 0 {
      MulZero(CRCPOLY);
    } else {
      var d := Degree(q);
      MulRange(q, d);
      if IsPattern(Mul(q, CRCPOLY), b) {
        OneDegree(Mul(q, CRCPOLY), b - 1, d + 24);
      }
      if b >= 25 && IsPattern(q, b - 24) {
        OneDegree(q, b - 25, d);
      }
    }
  }

  //////////////////////////////////////////////////////////////////////////////
  // How many there are
  //////////////////////////////////////////////////////////////////////////////

  ghost function Below(n: nat): (r: set<nat>)
    ensures (forall m: nat :: m in r <==> m < n) && |r| == n
  {
    if n == 0 then {}
    else
      var r := Below(n - 1);
      assert n - 1 !in r;
      r + {n - 1}
  }

  // The patterns of b bits, and those of them that the checksum misses.
  ghost function Patterns(b: nat): set<nat>
  {
    set e | e in Below(Pow2(b)) && IsPattern(e, b)
  }

  ghost function Missed(b: nat): set<nat>
  {
    set e | e in Patterns(b) && IsMultiple(e)
  }

  lemma InPatterns(e: nat, b: nat)
    ensures e in Patterns(b) <==> IsPattern(e, b)
  {
  }

  // Sets between which a function is one to one.
  lemma {:induction false} SameSize(xs: set<nat>, ys: set<nat>, f: nat -> nat)
    requires forall x :: x in xs ==> f(x) in ys
    requires forall y :: y in ys ==> exists x :: x in xs && f(x) == y
    requires forall x, z :: x in xs && z in xs && f(x) == f(z) ==> x == z
    ensures |xs| == |ys|
  {
    if xs == {} {
      assert ys == {};
    } else {
      var x :| x in xs;
      var zs := ys - {f(x)};
      forall y | y in zs ensures exists z :: z in xs - {x} && f(z) == y {
        var z :| z in xs && f(z) == y;
        assert z in xs - {x};
      }
      SameSize(xs - {x}, zs, f);
    }
  }

  // The odd numbers from 2*h to 4*h.
  ghost predicate IsOdd(e: nat, h: nat)
  {
    2 * h <= e < 4 * h && e % 2 == 1
  }

  lemma OddPattern(b: nat, h: nat, e: nat)
    requires b >= 2 && h == Pow2(b - 2)
    ensures IsPattern(e, b) <==> IsOdd(e, h)
  {
    assert Pow2(b) == 2 * Pow2(b - 1) && Pow2(b - 1) == 2 * Pow2(b - 2);
  }

  // As many of them as numbers below h.
  lemma OddCount(odd: set<nat>, h: nat)
    requires forall e: nat :: e in odd <==> IsOdd(e, h)
    ensures |odd| == h
  {
    hide IsOdd, Below;
    var f: nat -> nat := m => 2 * h + 2 * m + 1;
    forall m | m in Below(h) ensures f(m) in odd {
      NthOdd(h, m);
    }
    forall e | e in odd ensures exists m :: m in Below(h) && f(m) == e {
      var m := OddIndex(h, e);
      assert m in Below(h) && f(m) == e;
    }
    SameSize(Below(h), odd, f);
  }

  lemma NthOdd(h: nat, m: nat)
    requires m < h
    ensures IsOdd(2 * h + 2 * m + 1, h)
  {
  }

  lemma OddIndex(h: nat, e: nat) returns (m: nat)
    requires IsOdd(e, h)
    ensures m < h && 2 * h + 2 * m + 1 == e
  {
    m := (e - 2 * h) / 2;
  }

  lemma FirstPattern()
    ensures Patterns(1) == {1}
  {
    Pow2Values();
    hide Pow2;
  }

  lemma PatternCount(b: nat)
    requires b >= 1
    ensures |Patterns(b)| == if b == 1 then 1 else Pow2(b - 2)
  {
    hide Pow2, IsPattern, Patterns, IsOdd;
    if b == 1 {
      FirstPattern();
    } else {
      forall e: nat ensures e in Patterns(b) <==> IsOdd(e, Pow2(b - 2)) {
        InPatterns(e, b);
        OddPattern(b, Pow2(b - 2), e);
      }
      OddCount(Patterns(b), Pow2(b - 2));
    }
  }

  lemma MissedQuotients(b: nat)
    requires b >= 25
    ensures |Missed(b)| == |Patterns(b - 24)|
  {
    hide Mul, Pow2, IsPattern, Patterns;
    var f: nat -> nat := q => Mul(q, CRCPOLY);
    forall q | q in Patterns(b - 24) ensures f(q) in Missed(b) {
      PatternMultiple(q, b);
      InPatterns(q, b - 24);
      InPatterns(f(q), b);
    }
    forall e | e in Missed(b) ensures exists q :: q in Patterns(b - 24) && f(q) == e {
      var q: nat :| Mul(q, CRCPOLY) == e;
      PatternMultiple(q, b);
      InPatterns(q, b - 24);
      InPatterns(e, b);
      assert q in Patterns(b - 24) && f(q) == e;
    }
    forall q, r | q in Patterns(b - 24) && r in Patterns(b - 24) && f(q) == f(r) ensures q == r {
      MulInjective(q, r);
    }
    SameSize(Patterns(b - 24), Missed(b), f);
  }

  lemma Halved(b: nat)
    requires b > 25
    ensures Pow2(b - 26) * Pow2(23) <= Pow2(b - 2)
  {
    hide Pow2;
    Pow2Add(b - 26, 23);
    Pow2Monotone(b - 3, b - 2);
  }

  // Of the 2^(b-2) bursts that span b > 25 bits exactly 2^(b-26) are missed; of those of 25
  // bits one, and of shorter ones none.  That is at most one in 2^23.
  lemma MissedCount(b: nat)
    requires b >= 1
    ensures |Patterns(b)| == if b == 1 then 1 else Pow2(b - 2)
    ensures |Missed(b)| == if b < 25 then 0 else if b == 25 then 1 else Pow2(b - 26)
    ensures |Missed(b)| * Pow2(23) <= |Patterns(b)|
  {
    hide Mul, Pow2, IsPattern;
    PatternCount(b);
    if b < 25 {
      forall e | e in Patterns(b) && IsMultiple(e) ensures false {
        var q: nat :| Mul(q, CRCPOLY) == e;
        PatternMultiple(q, b);
      }
      assert Missed(b) == {};
    } else {
      PatternCount(b - 24);
      MissedQuotients(b);
      if b > 25 {
        Halved(b);
      }
    }
  }

  //////////////////////////////////////////////////////////////////////////////
  // Which bursts are missed
  //////////////////////////////////////////////////////////////////////////////

  // A codeword that suffers a burst is still one exactly if the pattern is a missed one.
  lemma BurstMissed(s: seq<byte>, t: seq<byte>, lo: nat, b: nat) returns (p: nat)
    requires Burst(s, t, lo, b) && IsCodeword(s)
    ensures p in Patterns(b) && HasPattern(s, t, lo, p)
    ensures IsCodeword(t) <==> p in Missed(b)
  {
    p := PatternOf(s, t, lo, b);
    InPatterns(p, b);
    hide Xor, IsMultiple, Message, Burst, Patterns, Pow2;
    var m: nat, n: nat := Message(s), Message(t);
    MultipleShift(p, lo);
    XorCancel(m, n);
    if IsCodeword(t) {
      MultipleXor(m, n);
    }
    if p in Missed(b) {
      MultipleXor(m, Xor(m, n));
    }
  }

  // A burst of 25 bits is missed exactly if it is the generator itself.
  lemma GeneratorBurst(s: seq<byte>, t: seq<byte>, lo: nat)
    requires Burst(s, t, lo, 25) && IsCodeword(s)
    ensures IsCodeword(t) <==> HasPattern(s, t, lo, CRCPOLY)
  {
    hide IsCodeword, Burst, Message, Xor;
    var p := BurstMissed(s, t, lo, 25);
    OnlyGenerator(p);
    hide Missed, Patterns;
    if HasPattern(s, t, lo, CRCPOLY) {
      assert p * Pow2(lo) == CRCPOLY * Pow2(lo);
      SameFactor(p, CRCPOLY, Pow2(lo));
    }
  }

  lemma SameFactor(p: nat, q: nat, r: nat)
    requires r > 0 && p * r == q * r
    ensures p == q
  {
  }

  lemma OnlyGenerator(p: nat)
    ensures p in Missed(25) <==> p == CRCPOLY
  {
    hide Mul, Pow2, Xor, Patterns;
    Pow2Values();
    MulOne();
    InPatterns(p, 25);
    PatternMultiple(1, 25);
    if p in Missed(25) {
      var q: nat :| Mul(q, CRCPOLY) == p;
      PatternMultiple(q, 25);
    }
  }
}
