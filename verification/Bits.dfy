/**
 Bit-field extraction from byte buffers (bits.c).  Bits are numbered from 0, the most
 significant bit of byte 0.
 */
module Bits {
  import opened Bitwise

  // Bit k of a buffer.
  function Bit(buf: seq<byte>, k: nat): (b: nat)
    requires k < 8 * |buf|
    ensures b < 2
  {
    ShiftRight(buf[k / 8], 7 - k % 8) % 2
  }

  // The big-endian value of bits [start, start + width).
  function Field(buf: seq<byte>, start: nat, width: nat): (v: nat)
    requires start + width <= 8 * |buf|
    ensures v < Pow2(width)
  {
    if width == 0 then 0 else 2 * Field(buf, start, width - 1) + Bit(buf, start + width - 1)
  }

  lemma FieldNext(buf: seq<byte>, start: nat, width: nat)
    requires start + width < 8 * |buf|
    ensures Field(buf, start, width + 1) == 2 * Field(buf, start, width) + Bit(buf, start + width)
  {
  }

  lemma DoubleSum(h: nat, p: nat, l: nat)
    ensures 2 * (h * p + l) == h * (2 * p) + 2 * l
  {
    assert h * (2 * p) == 2 * (h * p);
  }

  lemma FieldSplitStep(buf: seq<byte>, start: nat, a: nat, c: nat)
    requires start + a + c < 8 * |buf|
    requires Field(buf, start, a + c) == Field(buf, start, a) * Pow2(c) + Field(buf, start + a, c)
    ensures Field(buf, start, a + (c + 1)) == Field(buf, start, a) * Pow2(c + 1) + Field(buf, start + a, c + 1)
  {
    NextPow2(c);
    hide *;
    FieldNext(buf, start, a + c);
    FieldNext(buf, start + a, c);
    SplitSum(Field(buf, start, a), Pow2(c), Field(buf, start + a, c), Bit(buf, start + a + c));
    assert a + (c + 1) == a + c + 1;
  }

  lemma NextPow2(k: nat)
    ensures Pow2(k + 1) == 2 * Pow2(k)
  {
  }

  lemma SplitSum(h: nat, p: nat, l: nat, x: nat)
    ensures 2 * (h * p + l) + x == h * (2 * p) + (2 * l + x)
  {
    DoubleSum(h, p, l);
  }

  lemma NoField(buf: seq<byte>, start: nat, h: nat)
    requires start <= 8 * |buf|
    ensures h * Pow2(0) + Field(buf, start, 0) == h
  {
  }

  // A field is the concatenation of its parts.
  lemma {:induction false} FieldSplit(buf: seq<byte>, start: nat, a: nat, b: nat)
    requires start + a + b <= 8 * |buf|
    ensures Field(buf, start, a + b) == Field(buf, start, a) * Pow2(b) + Field(buf, start + a, b)
  {
    hide *;
    if b == 0 {
      var h: nat := Field(buf, start, a);
      NoField(buf, start + a, h);
    } else {
      FieldSplit(buf, start, a, b - 1);
      FieldSplitStep(buf, start, a, b - 1);
    }
  }

  // The bits of a buffer, in order.
  function Raw(buf: seq<byte>): (r: seq<bit>)
    ensures |r| == 8 * |buf|
  {
    seq(8 * |buf|, k requires 0 <= k < 8 * |buf| => Bit(buf, k))
  }

  // The number of which s is the binary notation.
  function Binary(s: seq<bit>): (v: nat)
    ensures v < Pow2(|s|)
  {
    if s == [] then 0 else 2 * Binary(s[..|s| - 1]) + s[|s| - 1]
  }

  // A field is the number its bits spell.
  lemma {:induction false} FieldBinary(buf: seq<byte>, start: nat, width: nat)
    requires start + width <= 8 * |buf|
    ensures Field(buf, start, width) == Binary(Raw(buf)[start..start + width])
  {
    hide Bit;
    if width > 0 {
      FieldBinary(buf, start, width - 1);
      var s := Raw(buf)[start..start + width];
      assert s[..width - 1] == Raw(buf)[start..start + width - 1];
    }
  }

  // The eight bits of a byte spell the byte.
  lemma FieldByte(buf: seq<byte>, i: nat)
    requires i < |buf|
    ensures Field(buf, 8 * i, 8) == buf[i]
  {
    Pow2Values();
    LowBitsAll(buf[i], 8);
    FieldInByte(buf, i, 8);
  }

  lemma {:induction false} FieldInByte(buf: seq<byte>, i: nat, k: nat)
    requires i < |buf| && k <= 8 && ShiftRight(buf[i], 8) == 0
    ensures Field(buf, 8 * i, k) == ShiftRight(buf[i], 8 - k)
  {
    if k > 0 {
      FieldInByte(buf, i, k - 1);
      ShiftOne(buf[i], 8 - k);
      assert (8 * i + k - 1) / 8 == i && (8 * i + k - 1) % 8 == k - 1;
    }
  }

  //////////////////////////////////////////////////////////////////////////////
  // ubits and sbits
  //////////////////////////////////////////////////////////////////////////////

  // The 64-bit accumulator loses what lies above bit 63: the field is intact as long as
  // it ends within 64 bits of the start of its first byte.
  function Extracted(buf: seq<byte>, start: nat, width: nat): (v: nat)
    requires start + width <= 8 * |buf| && width <= 63
    ensures v < Pow2(width)
  {
    if start % 8 + width <= 64 then Field(buf, start, width)
    else
      Pow2Monotone(start % 8 + width - 8, width);
      LowBits(Field(buf, start, width), start % 8 + width - 8)
  }

  // The two parts of a field, by shift and mask.
  lemma FieldParts(buf: seq<byte>, start: nat, a: nat, b: nat)
    requires start + a + b <= 8 * |buf|
    ensures ShiftRight(Field(buf, start, a + b), b) == Field(buf, start, a)
    ensures LowBits(Field(buf, start, a + b), b) == Field(buf, start + a, b)
  {
    FieldSplit(buf, start, a, b);
    ShiftJoin(Field(buf, start, a), Field(buf, start + a, b), b);
  }

  // A field s bits behind p, out of a 64-bit word that also holds the t bits behind it.
  lemma Masked(buf: seq<byte>, p: nat, s: nat, width: nat, t: nat)
    requires p + s + width + t <= 8 * |buf| && s < 8 && t < 8 && width <= 63
    ensures LowBits(ShiftRight(LowBits(Field(buf, p, s + width + t), 64), t), width)
         == if width <= 64 - t then Field(buf, p + s, width) else LowBits(Field(buf, p + s, width), 64 - t)
  {
    hide Field, ShiftRight, LowBits, Pow2;
    FieldParts(buf, p, s + width, t);
    FieldParts(buf, p, s, width);
    var whole: nat, kept: nat := Field(buf, p, s + width), 64 - t;
    LowBitsOfLow(Field(buf, p, s + width + t), kept, t);
    if width <= kept {
      LowBitsOfLow(whole, kept - width, width);
    } else {
      LowBitsOfLow(whole, width - kept, kept);
      LowBitsWithin(whole, kept, width);
    }
  }

  lemma LowBitsWithin(n: nat, k: nat, width: nat)
    requires k <= width
    ensures LowBits(LowBits(n, k), width) == LowBits(n, k)
  {
    Pow2Monotone(k, width);
    var m := LowBits(n, k);
    hide LowBits, Pow2;
    LowBitsAll(m, width);
  }

  // What the loop leaves behind, shifted and masked, is the extracted field.
  lemma ShiftAndMask(buf: seq<byte>, start: nat, width: nat, t: nat, n: nat)
    requires start + width <= 8 * |buf| && width <= 63
    requires t < 8 && start % 8 + width + t == 8 * n && start + width + t <= 8 * |buf|
    ensures LowBits(ShiftRight(LowBits(Field(buf, start - start % 8, 8 * n), 64), t), width) == Extracted(buf, start, width)
  {
    hide Field, ShiftRight, LowBits;
    var s := start % 8;
    Masked(buf, start - s, s, width, t);
    if s + width > 64 {
      assert 64 - t == s + width - 8;
    }
  }

  // Shifting a byte into a 64-bit word.
  lemma ShiftIn(v: nat, d: byte)
    ensures Or(LowBits(LowBits(v, 64) * 256, 64), d) == LowBits(v * 256 + d, 64)
  {
    ByteIsEight();
    hide *;
    LowBitsOfLow(v, 8, 56);
    ShiftZero(LowBits(v, 64));
    ShiftByte(v, d);
    OrDisjoint(LowBits(v, 56), d, 8);
  }

  lemma ByteIsEight()
    ensures Pow2(8) == 256
  {
    Pow2Values();
  }

  lemma ShiftZero(w: nat)
    ensures LowBits(w * 256, 64) == LowBits(w, 56) * 256
  {
    ByteIsEight();
    hide *;
    LowBitsShifted(w, 0, 8, 56);
  }

  lemma ShiftByte(v: nat, d: byte)
    ensures LowBits(v * 256 + d, 64) == LowBits(v, 56) * 256 + d
  {
    ByteIsEight();
    hide *;
    LowBitsShifted(v, d, 8, 56);
  }

  lemma FieldAppend(buf: seq<byte>, first: nat, n: nat)
    requires first + n < |buf|
    ensures Field(buf, 8 * first, 8 * (n + 1)) == Field(buf, 8 * first, 8 * n) * 256 + buf[first + n]
  {
    hide Field;
    assert Pow2(8) == 256 by {
      Pow2Values();
    }
    FieldByte(buf, first + n);
    FieldSplit(buf, 8 * first, 8 * n, 8);
  }

  // The accumulation loop over the bytes that the field touches.
  method Gather(buf: seq<byte>, first: nat, last: nat) returns (fld: nat)
    requires first <= last <= |buf|
    ensures fld == LowBits(Field(buf, 8 * first, 8 * (last - first)), 64)
  {
    hide Field, Or, LowBits, Pow2;
    EmptyField(buf, 8 * first);
    fld := 0;
    var i := first;
    while i < last
      invariant first <= i <= last && fld == LowBits(Field(buf, 8 * first, 8 * (i - first)), 64)
    {
      FieldAppend(buf, first, i - first);
      ShiftIn(Field(buf, 8 * first, 8 * (i - first)), buf[i]);
      fld := Or(LowBits(fld * 256, 64), buf[i]);
      i := i + 1;
    }
  }

  lemma EmptyField(buf: seq<byte>, start: nat)
    requires start <= 8 * |buf|
    ensures LowBits(Field(buf, start, 0), 64) == 0
  {
    LowBitsAll(0, 64);
  }

  // The bytes a field touches, and the bits left over in the last of them.
  lemma ByteSpan(start: nat, width: nat)
    ensures var t := if (start + width) % 8 == 0 then 0 else 8 - (start + width) % 8;
            start % 8 + width + t == 8 * ((start + width + 7) / 8 - start / 8)
  {
    var e := start + width;
    var q, r := e / 8, e % 8;
    assert (e + 7) / 8 == if r == 0 then q else q + 1;
  }

  lemma LoopResult(buf: seq<byte>, start: nat, width: nat, first: nat, last: nat, t: nat)
    requires start + width <= 8 * |buf| && width <= 63
    requires first == start / 8 && last == (start + width + 7) / 8
    requires t == if (start + width) % 8 == 0 then 0 else 8 - (start + width) % 8
    ensures first <= last <= |buf|
    ensures LowBits(ShiftRight(LowBits(Field(buf, 8 * first, 8 * (last - first)), 64), t), width) == Extracted(buf, start, width)
  {
    hide Field, ShiftRight, LowBits, Extracted;
    ByteSpan(start, width);
    ShiftAndMask(buf, start, width, t, last - first);
    assert 8 * first == start - start % 8;
  }

  // Extracts a field as an unsigned number.  Widths above 63 shift by the full word, which
  // C does not define.
  method Ubits(buf: seq<byte>, start: nat, width: nat) returns (fld: nat)
    requires start + width <= 8 * |buf| && width <= 63
    ensures fld == Extracted(buf, start, width)
  {
    hide *;
    var first, last, end := start / 8, (start + width + 7) / 8, (start + width) % 8;
    LoopResult(buf, start, width, first, last, if end == 0 then 0 else 8 - end);
    fld := Gather(buf, first, last);
    if end != 0 {
      fld := ShiftRight(fld, 8 - end);
    } else {
      ShiftByNone(fld);
    }
    fld := LowBits(fld, width);
  }

  // The two's-complement reading of a field.
  function Signed(v: nat, width: nat): int
    requires width >= 1
  {
    if v < Pow2(width - 1) then v else v - Pow2(width)
  }

  lemma {:induction false} TopBit(n: nat, k: nat)
    requires n < Pow2(k + 1)
    ensures ShiftRight(n, k) == if n < Pow2(k) then 0 else 1
  {
    if k > 0 {
      TopBit(n / 2, k - 1);
    }
  }

  lemma SignExtend(fld: nat, width: nat, n: nat)
    requires 1 <= width < n && fld < Pow2(width)
    ensures Pow2(width) == 2 * Pow2(width - 1) < Pow2(n)
    ensures ShiftRight(fld, width - 1) % 2 == 1 <==> fld >= Pow2(width - 1)
    ensures fld >= Pow2(width - 1) ==> Or(fld, Pow2(n) - Pow2(width - 1)) == Pow2(n) + fld - Pow2(width)
  {
    TopBit(fld, width - 1);
    Pow2Monotone(width, n - 1);
    hide Or, ShiftRight;
    if fld >= Pow2(width - 1) {
      OrSign(fld - Pow2(width - 1), width - 1, n);
    }
  }

  // A 64-bit word as a signed integer, and the word with ones over the sign bit and above.
  function Int64(w: nat): int
  {
    if w < Pow2(63) then w else w - Pow2(64)
  }

  function Extended(fld: nat, width: nat): nat
    requires 1 <= width <= 63
  {
    Pow2Monotone(width - 1, 64);
    Or(fld, Pow2(64) - Pow2(width - 1))
  }

  lemma SignedResult(fld: nat, width: nat)
    requires 1 <= width <= 63 && fld < Pow2(width)
    ensures ShiftRight(fld, width - 1) % 2 == 1 ==> Int64(Extended(fld, width)) == Signed(fld, width)
    ensures ShiftRight(fld, width - 1) % 2 != 1 ==> Int64(fld) == Signed(fld, width)
  {
    hide Or, Pow2, ShiftRight, Int64;
    SignExtend(fld, width, 64);
    Pow2Monotone(width, 63);
    NextPow2(63);
    Int64Small(fld);
    Int64Large(Pow2(64) + fld - Pow2(width));
  }

  lemma Int64Small(w: nat)
    ensures w < Pow2(63) ==> Int64(w) == w
  {
    hide Pow2;
  }

  lemma Int64Large(w: int)
    ensures w >= Pow2(63) ==> Int64(w) == w - Pow2(64)
  {
    hide Pow2;
  }

  // Extracts a field as a signed number, by or-ing ones over the sign bit and above.
  method Sbits(buf: seq<byte>, start: nat, width: nat) returns (r: int)
    requires start + width <= 8 * |buf| && 1 <= width <= 63
    ensures r == Signed(Extracted(buf, start, width), width)
  {
    hide *;
    var fld: nat := Ubits(buf, start, width);
    ExtractedBound(buf, start, width);
    SignedResult(fld, width);
    if ShiftRight(fld, width - 1) % 2 == 1 {
      fld := Extended(fld, width);
    }
    r := Int64(fld);
  }

  lemma ExtractedBound(buf: seq<byte>, start: nat, width: nat)
    requires start + width <= 8 * |buf| && width <= 63
    ensures Extracted(buf, start, width) < Pow2(width)
  {
  }

  //////////////////////////////////////////////////////////////////////////////
  // Where extraction is exact
  //////////////////////////////////////////////////////////////////////////////

  lemma {:induction false} OnesField(buf: seq<byte>, start: nat, width: nat)
    requires start + width <= 8 * |buf| && forall i :: 0 <= i < |buf| ==> buf[i] == 255
    ensures Field(buf, start, width) == Pow2(width) - 1
  {
    if width > 0 {
      OnesField(buf, start, width - 1);
      OnesBit(7 - (start + width - 1) % 8);
    }
  }

  lemma OnesBit(j: nat)
    requires j < 8
    ensures ShiftRight(255, j) % 2 == 1
  {
    hide ShiftRight;
    OnesLeft(j);
    assert Pow2(8 - j) == 2 * Pow2(7 - j);
  }

  // Of eight ones, 8 - j are left after shifting j out.
  lemma {:induction false} OnesLeft(j: nat)
    requires j < 8
    ensures ShiftRight(255, j) == Pow2(8 - j) - 1
  {
    hide ShiftRight;
    Pow2Values();
    if j == 0 {
      ShiftByNone(255);
    } else {
      ShiftOne(255, j - 1);
      OnesLeft(j - 1);
      assert Pow2(9 - j) == 2 * Pow2(8 - j);
    }
  }

  // For every buffer, and only then: the field ends within 64 bits of the start of the
  // first byte it touches.
  lemma ExactWithin64(start: nat, width: nat)
    requires width <= 63
    ensures start % 8 + width <= 64 <==>
            forall buf: seq<byte> :: start + width <= 8 * |buf| ==> Extracted(buf, start, width) == Field(buf, start, width)
  {
    if start % 8 + width > 64 {
      var ones: seq<byte> := seq(start + width, i => 255);
      OnesField(ones, start, width);
      LosesOnes(width, start % 8 + width - 8);
      assert Extracted(ones, start, width) != Field(ones, start, width);
    }
  }

  lemma LosesOnes(width: nat, kept: nat)
    requires kept < width
    ensures LowBits(Pow2(width) - 1, kept) < Pow2(width) - 1
  {
    Pow2Monotone(kept, width - 1);
    assert Pow2(width) == 2 * Pow2(width - 1);
  }

  // Inside that bound, two adjacent extractions make one.
  lemma AdjacentFields(buf: seq<byte>, start: nat, a: nat, b: nat)
    requires start + a + b <= 8 * |buf| && a + b <= 63 && start % 8 + a + b <= 64
    ensures Extracted(buf, start, a + b) == Extracted(buf, start, a) * Pow2(b) + Extracted(buf, start + a, b)
  {
    hide *;
    assert (start + a) % 8 <= start % 8 + a;
    Exact(buf, start, a + b);
    Exact(buf, start, a);
    Exact(buf, start + a, b);
    FieldSplit(buf, start, a, b);
  }

  lemma Exact(buf: seq<byte>, start: nat, width: nat)
    requires start + width <= 8 * |buf| && width <= 63 && start % 8 + width <= 64
    ensures Extracted(buf, start, width) == Field(buf, start, width)
  {
  }

  // The signed reading is the only value of its range congruent to the field.
  lemma SignedUnique(v: nat, width: nat, r: int, q: int)
    requires width >= 1 && v < Pow2(width)
    requires -(Pow2(width - 1) as int) <= r < Pow2(width - 1) && r == v + q * Pow2(width)
    ensures r == Signed(v, width)
  {
    if q >= 1 {
      MulMonotone(1, q, Pow2(width));
    } else if q <= -2 {
      MulMonotone(q, -2, Pow2(width));
    }
    assert q == 0 || q == -1;
  }

  lemma MulMonotone(a: int, b: int, d: nat)
    requires a <= b
    ensures a * d <= b * d
  {
  }
}
