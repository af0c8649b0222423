/**
 Messages made of numeric fields, one after the other: an encoder, and what the bytes it
 makes read as.
 */
module Fields {
  import opened Bitwise
  import Bits

  //////////////////////////////////////////////////////////////////////////////
  // The encoder
  //////////////////////////////////////////////////////////////////////////////

  datatype Code = Code(value: nat, width: nat)

  function BitString(v: nat, width: nat): (r: seq<bit>)
    ensures |r| == width
  {
    if width == 0 then [] else BitString(v / 2, width - 1) + [v % 2]
  }

  function Encode(cs: seq<Code>): seq<bit>
  {
    if cs == [] then [] else BitString(cs[0].value, cs[0].width) + Encode(cs[1..])
  }

  // Eight bits from position i on, with zeros behind the end.
  function Eight(s: seq<bit>, i: nat): (r: seq<bit>)
    ensures |r| == 8
  {
    seq(8, j requires 0 <= j < 8 => if i + j < |s| then s[i + j] else 0)
  }

  function PackedByte(s: seq<bit>, i: nat): byte
  {
    Pow2Values();
    Bits.Binary(Eight(s, i))
  }

  function Pack(s: seq<bit>): (r: seq<byte>)
    ensures |r| == (|s| + 7) / 8
  {
    seq((|s| + 7) / 8, i requires 0 <= i => PackedByte(s, 8 * i))
  }

  //////////////////////////////////////////////////////////////////////////////
  // Reading back what was encoded
  //////////////////////////////////////////////////////////////////////////////

  ghost predicate BitsAt(buf: seq<byte>, at: nat, s: seq<bit>)
  {
    at + |s| <= 8 * |buf| && forall k :: at <= k < at + |s| ==> Bits.Bit(buf, k) == s[k - at]
  }

  // The fields from bit at on have the given widths and values.
  ghost predicate Spells(buf: seq<byte>, at: nat, cs: seq<Code>)
    decreases |cs|
  {
    cs == [] ||
    (at + cs[0].width <= 8 * |buf| && Bits.Field(buf, at, cs[0].width) == cs[0].value
     && Spells(buf, at + cs[0].width, cs[1..]))
  }

  function Width(cs: seq<Code>): nat
  {
    if cs == [] then 0 else cs[0].width + Width(cs[1..])
  }

  ghost predicate Fit(cs: seq<Code>)
  {
    forall i :: 0 <= i < |cs| ==> cs[i].value < Pow2(cs[i].width)
  }

  lemma {:induction false} BinaryBit(s: seq<bit>, j: nat)
    requires j < |s|
    ensures ShiftRight(Bits.Binary(s), |s| - 1 - j) % 2 == s[j]
  {
    if j < |s| - 1 {
      var t := s[..|s| - 1];
      BinaryBit(t, j);
      HalfOfBits(Bits.Binary(t), s[|s| - 1]);
    }
  }

  lemma PackedBit(s: seq<bit>, rest: seq<byte>, k: nat)
    requires k < |s|
    ensures k < 8 * |Pack(s) + rest| && Bits.Bit(Pack(s) + rest, k) == s[k]
  {
    var i := k / 8;
    assert i < |Pack(s)| && (Pack(s) + rest)[i] == PackedByte(s, 8 * i);
    BinaryBit(Eight(s, 8 * i), k % 8);
  }

  lemma PackedBits(s: seq<bit>, rest: seq<byte>)
    ensures BitsAt(Pack(s) + rest, 0, s)
  {
    hide Pack, Bits.Bit;
    forall k | 0 <= k < |s| ensures Bits.Bit(Pack(s) + rest, k) == s[k] {
      PackedBit(s, rest, k);
    }
  }

  lemma {:induction false} FieldOfBits(buf: seq<byte>, at: nat, v: nat, width: nat)
    requires v < Pow2(width) && BitsAt(buf, at, BitString(v, width))
    ensures at + width <= 8 * |buf| && Bits.Field(buf, at, width) == v
  {
    hide Bits.Bit;
    if width > 0 {
      var s := BitString(v / 2, width - 1);
      assert BitString(v, width)[..width - 1] == s;
      BitsAtPart(buf, at, s, [v % 2]);
      FieldOfBits(buf, at, v / 2, width - 1);
      assert BitString(v, width)[width - 1] == v % 2;
    }
  }

  lemma BitsAtPart(buf: seq<byte>, at: nat, s: seq<bit>, t: seq<bit>)
    requires BitsAt(buf, at, s + t)
    ensures BitsAt(buf, at, s) && BitsAt(buf, at + |s|, t)
  {
    hide Bits.Bit;
    forall k | at <= k < at + |s| ensures Bits.Bit(buf, k) == s[k - at] {
      assert (s + t)[k - at] == s[k - at];
    }
    forall k | at + |s| <= k < at + |s| + |t| ensures Bits.Bit(buf, k) == t[k - (at + |s|)] {
      assert (s + t)[k - at] == t[k - (at + |s|)];
    }
  }

  lemma {:induction false} EncodedSpells(buf: seq<byte>, at: nat, cs: seq<Code>)
    requires Fit(cs) && BitsAt(buf, at, Encode(cs))
    ensures Spells(buf, at, cs)
    decreases |cs|
  {
    hide BitsAt, Bits.Field;
    if cs != [] {
      BitsAtPart(buf, at, BitString(cs[0].value, cs[0].width), Encode(cs[1..]));
      FieldOfBits(buf, at, cs[0].value, cs[0].width);
      EncodedSpells(buf, at + cs[0].width, cs[1..]);
    }
  }

  lemma {:induction false} SpellsPart(buf: seq<byte>, at: nat, cs: seq<Code>, ds: seq<Code>)
    requires Spells(buf, at, cs + ds)
    ensures Spells(buf, at, cs) && Spells(buf, at + Width(cs), ds)
    decreases |cs|
  {
    hide Bits.Field;
    if cs == [] {
      assert cs + ds == ds;
    } else {
      assert (cs + ds)[0] == cs[0] && (cs + ds)[1..] == cs[1..] + ds;
      SpellsPart(buf, at + cs[0].width, cs[1..], ds);
    }
  }

  lemma SpelledOne(buf: seq<byte>, at: nat, c: Code, cs: seq<Code>)
    requires Spells(buf, at, [c] + cs)
    ensures at + c.width <= 8 * |buf| && Bits.Field(buf, at, c.width) == c.value
    ensures Spells(buf, at + c.width, cs)
  {
    hide Bits.Field;
    assert ([c] + cs)[1..] == cs;
  }
}
