/**
 Reassembly of AIS messages from AIVDM sentences (aivdm_decode in driver_aivdm.c): each
 radio channel has a context that collects the fragments of a message, and remembers the
 first half of a type 24 static data report until the second arrives (ITU-R M.1371,
 Annex 8).
 */
module Aivdm {
  import opened Bitwise
  import Bits

  const BUFFER_BYTES: nat := 2048
  const BUFFER_BITS: nat := 8 * BUFFER_BYTES
  const NAME_SIZE: nat := 21      // AIS_SHIPNAME_MAXLEN + 1

  // A sentence after its fields are split: the first character of the channel field, '\0'
  // when that is empty; the number of fragments and the number of this one; the armored
  // payload; and the padding digit.
  datatype Sentence = Sentence(channel: char, nfrags: int, ifrag: int, data: seq<byte>, pad: char)

  //////////////////////////////////////////////////////////////////////////////
  // Six-bit armor
  //////////////////////////////////////////////////////////////////////////////

  // The value a payload character stands for, in 8-bit arithmetic.
  function Unarmor(ch: byte): byte
  {
    var c := (ch + 208) % 256;
    if c >= 40 then c - 8 else c
  }

  // The bits of a payload, six for each character, most significant first.
  function SixBits(v: byte): (r: seq<bit>)
    ensures |r| == 6
  {
    seq(6, k requires 0 <= k < 6 => ShiftRight(v, 5 - k) % 2)
  }

  function Payload(data: seq<byte>): (r: seq<bit>)
    ensures |r| == 6 * |data|
  {
    if data == [] then [] else Payload(data[..|data| - 1]) + SixBits(Unarmor(data[|data| - 1]))
  }

  // The number of bits the padding digit takes off the end.
  function PadBits(pad: char): nat
  {
    if '0' <= pad <= '9' then pad as int - '0' as int else 0
  }

  lemma PadDigits(d: nat, c: char)
    ensures d < 10 ==> PadBits("0123456789"[d]) == d
    ensures c !in "0123456789" ==> PadBits(c) == 0
  {
    if '0' <= c <= '9' {
      assert "0123456789"[c as int - '0' as int] == c;
    }
  }

  //////////////////////////////////////////////////////////////////////////////
  // Six-bit text
  //////////////////////////////////////////////////////////////////////////////

  // The character a six-bit value stands for.
  function SixChar(v: nat): (c: char)
    requires v < 64
    ensures c != '\0' && (c == '@' <==> v == 0)
  {
    if v == 31 then '-' else if v < 32 then (64 + v) as char else v as char
  }

  function TrimRight(s: string): string
  {
    if s != "" && s[|s| - 1] == ' ' then TrimRight(s[..|s| - 1]) else s
  }

  // Text ends at the first '@'; only text that fills its field is trimmed.
  function Text(s: string): string
  {
    if '@' in s then UpToAt(s) else TrimRight(s)
  }

  function UpToAt(s: string): string
  {
    if s == "" || s[0] == '@' then "" else [s[0]] + UpToAt(s[1..])
  }

  // Trimming leaves the longest beginning that does not end in a space.
  lemma {:induction false} TrimLongest(s: string)
    ensures var n := |TrimRight(s)|;
      && n <= |s| && TrimRight(s) == s[..n]
      && (n > 0 ==> s[n - 1] != ' ') && forall k :: n <= k < |s| ==> s[k] == ' '
  {
    if s != "" && s[|s| - 1] == ' ' {
      TrimLongest(s[..|s| - 1]);
    }
  }

  // The content of a C string.
  function CString(s: string): string
  {
    if s == "" || s[0] == '\0' then "" else [s[0]] + CString(s[1..])
  }

  // The characters of a text field.
  function TextField(buf: seq<byte>, start: nat, n: nat): (s: string)
    requires start + 6 * n <= 8 * |buf|
    ensures |s| == n
  {
    seq(n, i requires 0 <= i < n => SixChar(SixBitsAt(buf, start, i, n)))
  }

  function SixBitsAt(buf: seq<byte>, start: nat, i: nat, n: nat): (v: nat)
    requires i < n && start + 6 * n <= 8 * |buf|
    ensures v < 64
  {
    Pow2Values();
    Bits.Field(buf, start + 6 * i, 6)
  }

  lemma {:induction false} CStringUpTo(s: string, n: nat)
    requires n < |s| && s[n] == '\0' && forall i :: 0 <= i < n ==> s[i] != '\0'
    ensures CString(s) == s[..n]
  {
    if n > 0 {
      CStringUpTo(s[1..], n - 1);
      assert s[..n] == [s[0]] + s[1..][..n - 1];
    }
  }

  lemma {:induction false} UpToFirstAt(s: string, n: nat)
    requires n < |s| && s[n] == '@' && forall i :: 0 <= i < n ==> s[i] != '@'
    ensures UpToAt(s) == s[..n]
  {
    if n > 0 {
      UpToFirstAt(s[1..], n - 1);
      assert s[..n] == [s[0]] + s[1..][..n - 1];
    }
  }

  // Text with an '@' is what stands before the first one, spaces included.
  lemma TextCut(s: string, n: nat)
    requires n < |s| && s[n] == '@' && '@' !in s[..n]
    ensures Text(s) == s[..n]
  {
    forall i | 0 <= i < n ensures s[i] != '@' {
      assert s[i] == s[..n][i];
    }
    UpToFirstAt(s, n);
  }

  // The buffer holds the first n characters of s, which end at an '@' or fill the buffer.
  ghost predicate Filled(t: seq<char>, s: string, n: nat)
  {
    && |t| == |s| + 1 && n <= |s|
    && t[..n] == s[..n] && '@' !in s[..n] && t[n] == '\0'
    && (n < |s| ==> s[n] == '@')
    && forall i :: 0 <= i < |s| ==> s[i] != '\0'
  }

  method FillText(buf: seq<byte>, start: nat, to: array<char>) returns (ghost n: nat)
    requires to.Length > 0 && start + 6 * (to.Length - 1) <= 8 * |buf|
    modifies to
    ensures Filled(to[..], TextField(buf, start, to.Length - 1), n)
  {
    var count := to.Length;
    ghost var s := TextField(buf, start, count - 1);
    var i := 0;
    while i < count - 1
      invariant 0 <= i <= count - 1 && to[..i] == s[..i] && '@' !in s[..i]
    {
      var v := Bits.Ubits(buf, start + 6 * i, 6);
      assert v == SixBitsAt(buf, start, i, count - 1);
      var newchar := SixChar(v);
      if newchar == '@' {
        break;
      }
      to[i] := newchar;
      assert s[..i + 1] == s[..i] + [newchar];
      i := i + 1;
    }
    n := i;
    to[i] := '\0';
    assert to[..n] == s[..n] && to[..][..n] == to[..n];
  }

  method TrimSpaces(to: array<char>, ghost s: string, ghost n: nat)
    requires Filled(to[..], s, n)
    modifies to
    ensures CString(to[..]) == Text(s)
  {
    var i := to.Length - 2;
    assert n == |s| ==> s[..i + 1] == s && to[..i + 1] == s;
    while i >= 0 && (to[i] == ' ' || to[i] == '@')
      invariant -1 <= i <= |s| - 1
      invariant n < |s| ==> i >= n && to[..n] == s[..n] && to[n] == '\0'
      invariant n == |s| ==> to[..i + 1] == s[..i + 1] && to[i + 1] == '\0' && TrimRight(s) == TrimRight(s[..i + 1])
      decreases i
    {
      assert s[..i + 1][..i] == s[..i];
      to[i] := '\0';
      i := i - 1;
    }
    if n < |s| {
      CStringUpTo(to[..], n);
      assert to[..][..n] == s[..n];
      UpToFirstAt(s, n);
    } else {
      CStringUpTo(to[..], i + 1);
      assert to[..][..i + 1] == s[..i + 1];
      assert s[..n] == s;
    }
  }

  // Unpacks a text field into `to`, whatever `to` held before.
  method FromSixbit(buf: seq<byte>, start: nat, to: array<char>)
    requires to.Length > 0 && start + 6 * (to.Length - 1) <= 8 * |buf|
    modifies to
    ensures CString(to[..]) == Text(TextField(buf, start, to.Length - 1))
  {
    ghost var n := FillText(buf, start, to);
    TrimSpaces(to, TextField(buf, start, to.Length - 1), n);
  }

  lemma SixCharTable(v: nat)
    requires v < 64
    ensures v < 32 ==> SixChar(v) == "@ABCDEFGHIJKLMNOPQRSTUVWXYZ[\\]^-"[v]
    ensures v >= 32 ==> SixChar(v) == " !\"#$%&'()*+,-./0123456789:;<=>?"[v - 32]
  {
  }

  //////////////////////////////////////////////////////////////////////////////
  // The bit buffer
  //////////////////////////////////////////////////////////////////////////////

  function MaxBit(x: bit, y: bit): bit
  {
    if x == 1 then 1 else y
  }

  // Bits or-ed into a buffer at some position.
  function OrInto(raw: seq<bit>, pos: nat, vs: seq<bit>): (r: seq<bit>)
    ensures |r| == |raw|
  {
    seq(|raw|, k requires 0 <= k < |raw| => if pos <= k < pos + |vs| then MaxBit(raw[k], vs[k - pos]) else raw[k])
  }

  // Sets bit pos of the buffer.
  method SetBufferBit(bits: array<byte>, pos: nat)
    requires pos < 8 * bits.Length
    modifies bits
    ensures Bits.Raw(bits[..]) == Bits.Raw(old(bits[..]))[pos := 1]
  {
    var i, j := pos / 8, 7 - pos % 8;
    ghost var was := bits[..];
    var b: nat := Or(bits[i], Pow2(j));
    assert b < 256 by {
      Pow2Values();
      Pow2Monotone(j, 7);
      OrBound(bits[i], Pow2(j), 8);
    }
    bits[i] := b;
    forall k | 0 <= k < 8 * |was| ensures Bits.Bit(bits[..], k) == if k == pos then 1 else Bits.Bit(was, k) {
      if k / 8 == i {
        SetBit(was[i], j, 7 - k % 8);
      }
    }
  }

  lemma PayloadLength(data: seq<byte>)
    ensures |Payload(data)| == 6 * |data|
  {
  }

  lemma NoPayload()
    ensures Payload([]) == []
  {
  }

  // Every bit that is one comes to lie in a buffer of `size` bytes.
  ghost predicate OnesInside(size: nat, pos: nat, vs: seq<bit>)
  {
    forall k :: 0 <= k < |vs| && vs[k] == 1 ==> (pos + k) / 8 < size
  }

  lemma FitsInside(size: nat, pos: nat, vs: seq<bit>)
    requires pos + |vs| <= 8 * size
    ensures OnesInside(size, pos, vs)
  {
  }

  lemma OnesInsideAt(size: nat, pos: nat, vs: seq<bit>, k: nat)
    requires OnesInside(size, pos, vs) && k < |vs| && vs[k] == 1
    ensures pos + k < 8 * size
  {
  }

  lemma OnesInsidePart(size: nat, pos: nat, us: seq<bit>, vs: seq<bit>)
    requires OnesInside(size, pos, us + vs)
    ensures OnesInside(size, pos, us) && OnesInside(size, pos + |us|, vs)
  {
    forall k | 0 <= k < |us| && us[k] == 1 ensures (pos + k) / 8 < size {
      assert (us + vs)[k] == 1;
    }
    forall k | 0 <= k < |vs| && vs[k] == 1 ensures (pos + |us| + k) / 8 < size {
      assert (us + vs)[|us| + k] == 1;
    }
  }

  lemma PayloadPart(data: seq<byte>, n: nat, size: nat, pos: nat)
    requires n < |data| && OnesInside(size, pos, Payload(data[..n + 1]))
    ensures Payload(data[..n + 1]) == Payload(data[..n]) + SixBits(Unarmor(data[n]))
    ensures OnesInside(size, pos, Payload(data[..n])) && OnesInside(size, pos + 6 * n, SixBits(Unarmor(data[n])))
  {
    hide OnesInside, SixBits, Unarmor;
    assert data[..n + 1][..n] == data[..n];
    OnesInsidePart(size, pos, Payload(data[..n]), SixBits(Unarmor(data[n])));
  }

  lemma {:induction false} PayloadParts(data: seq<byte>, n: nat, size: nat, pos: nat)
    requires n <= |data| && OnesInside(size, pos, Payload(data))
    ensures OnesInside(size, pos, Payload(data[..n]))
    decreases |data| - n
  {
    hide OnesInside, Payload;
    if n == |data| {
      assert data[..n] == data;
    } else {
      PayloadParts(data, n + 1, size, pos);
      PayloadPart(data, n, size, pos);
    }
  }

  // Unpacks the characters of a payload into the buffer, from bit `bitlen` on.  It writes
  // for the bits that are one only.
  method Unpack(bits: array<byte>, bitlen: nat, data: seq<byte>) returns (end: nat)
    requires OnesInside(bits.Length, bitlen, Payload(data))
    modifies bits
    ensures end == bitlen + 6 * |data|
    ensures Bits.Raw(bits[..]) == OrInto(Bits.Raw(old(bits[..])), bitlen, Payload(data))
  {
    hide OnesInside, OrInto, Payload, SixBits, Bits.Raw;
    end := bitlen;
    ghost var raw := Bits.Raw(bits[..]);
    OrNone(raw, bitlen);
    NoPayload();
    assert data[..0] == [];
    for n := 0 to |data|
      invariant end == bitlen + 6 * n
      invariant Bits.Raw(bits[..]) == OrInto(raw, bitlen, Payload(data[..n]))
    {
      PayloadParts(data, n + 1, bits.Length, bitlen);
      PayloadPart(data, n, bits.Length, bitlen);
      PayloadLength(data[..n]);
      end := UnpackChar(bits, end, data[n]);
      OrIntoAppend(raw, bitlen, Payload(data[..n]), SixBits(Unarmor(data[n])));
    }
    assert data[..|data|] == data;
  }

  method UnpackChar(bits: array<byte>, pos: nat, ch: byte) returns (end: nat)
    requires OnesInside(bits.Length, pos, SixBits(Unarmor(ch)))
    modifies bits
    ensures end == pos + 6
    ensures Bits.Raw(bits[..]) == OrInto(Bits.Raw(old(bits[..])), pos, SixBits(Unarmor(ch)))
  {
    hide OrInto, SixBits, Bits.Raw, OnesInside;
    var c := Unarmor(ch);
    end := pos;
    ghost var raw, vs := Bits.Raw(bits[..]), SixBits(c);
    OrNone(raw, pos);
    var i := 5;
    while i >= 0
      invariant -1 <= i <= 5 && end == pos + 5 - i
      invariant Bits.Raw(bits[..]) == OrInto(raw, pos, vs[..5 - i])
    {
      OrIntoAppend(raw, pos, vs[..5 - i], [vs[5 - i]]);
      assert vs[..5 - i] + [vs[5 - i]] == vs[..6 - i];
      SixBit(c, i);
      if vs[5 - i] == 1 {
        OnesInsideAt(bits.Length, pos, vs, 5 - i);
      }
      OrOne(Bits.Raw(bits[..]), end, vs[5 - i]);
      if ShiftRight(c, i) % 2 == 1 {
        SetBufferBit(bits, end);
      }
      end := end + 1;
      i := i - 1;
    }
    assert vs[..6] == vs;
  }

  lemma SixBit(c: byte, i: nat)
    requires i < 6
    ensures |SixBits(c)| == 6 && SixBits(c)[5 - i] == ShiftRight(c, i) % 2
  {
  }

  lemma OrNone(raw: seq<bit>, pos: nat)
    ensures OrInto(raw, pos, []) == raw
  {
  }

  lemma OrOne(raw: seq<bit>, pos: nat, b: bit)
    requires b == 1 ==> pos < |raw|
    ensures OrInto(raw, pos, [b]) == if b == 1 then raw[pos := 1] else raw
  {
  }

  lemma OrIntoAppend(raw: seq<bit>, pos: nat, us: seq<bit>, vs: seq<bit>)
    ensures OrInto(raw, pos, us + vs) == OrInto(OrInto(raw, pos, us), pos + |us|, vs)
  {
  }

  //////////////////////////////////////////////////////////////////////////////
  // What a sentence does to its channel's context
  //////////////////////////////////////////////////////////////////////////////

  datatype Ctx = Ctx(frags: int, raw: seq<bit>, bitlen: nat, mmsi24: nat, name24: string)

  // The result of a sentence.  Of a complete message the type 24 reports are decoded here;
  // another message is handed on with its type, its MMSI and its bits.
  datatype Outcome =
    | BadChannel
    | OutOfOrder
    | Waiting
    | Refused
    | StaticA(mmsi: nat, name: string)
    | StaticB(mmsi: nat, name: string)
    | Message(typ: nat, mmsi: nat, bits: seq<bit>)

  function EmptyBits(): (r: seq<bit>)
    ensures |r| == BUFFER_BITS
  {
    seq(BUFFER_BITS, _ => 0)
  }

  // The value of a bit field.
  function FieldOf(raw: seq<bit>, start: nat, width: nat): (v: nat)
    requires start + width <= |raw|
    ensures v < Pow2(width)
  {
    Bits.Binary(raw[start..start + width])
  }

  function TextOf(raw: seq<bit>, start: nat, n: nat): (s: string)
    requires start + 6 * n <= |raw|
  {
    Text(CharsOf(raw, start, n))
  }

  function CharsOf(raw: seq<bit>, start: nat, n: nat): (s: string)
    requires start + 6 * n <= |raw|
    ensures |s| == n && forall i :: 0 <= i < n ==> s[i] == SixCharAt(raw, start + 6 * i)
  {
    seq(n, i requires 0 <= i < n => SixCharAt(raw, start + 6 * i))
  }

  function SixCharAt(raw: seq<bit>, start: nat): char
    requires start + 6 <= |raw|
  {
    Pow2Values();
    SixChar(FieldOf(raw, start, 6))
  }

  predicate Accepted(frags: int, s: Sentence)
  {
    s.ifrag == frags + 1 || s.ifrag == 1
  }

  // The buffer and its length once the payload of an accepted sentence is in.
  function Gathered(c: Ctx, s: Sentence): (seq<bit>, int)
  {
    var raw := if s.ifrag == 1 then EmptyBits() else c.raw;
    var bitlen := if s.ifrag == 1 then 0 else c.bitlen;
    (OrInto(raw, bitlen, Payload(s.data)), bitlen + 6 * |s.data| - PadBits(s.pad))
  }

  // The payload fits the buffer, and the padding does not exceed what was collected.
  predicate Fits(c: Ctx, s: Sentence)
  {
    Accepted(c.frags, s) ==>
      (if s.ifrag == 1 then 0 else c.bitlen) + 6 * |s.data| <= BUFFER_BITS && Gathered(c, s).1 >= 0
  }

  function Step(c: Ctx, s: Sentence): (Ctx, Outcome)
    requires |c.raw| == BUFFER_BITS && Fits(c, s)
  {
    if !Accepted(c.frags, s) then (c, OutOfOrder)
    else
      var (raw, bitlen) := Gathered(c, s);
      var frags := if s.ifrag == s.nfrags then 0 else if s.ifrag == 1 then 1 else c.frags + 1;
      var d := Ctx(frags, raw, bitlen, c.mmsi24, c.name24);
      if s.ifrag == s.nfrags then Complete(d) else (d, Waiting)
  }

  // A complete message.
  function Complete(d: Ctx): (Ctx, Outcome)
    requires |d.raw| == BUFFER_BITS && d.bitlen <= BUFFER_BITS
  {
    var typ, mmsi := FieldOf(d.raw, 0, 6), FieldOf(d.raw, 8, 30);
    if typ != 24 then (d, Message(typ, mmsi, d.raw[..d.bitlen]))
    else
      var sub := FieldOf(d.raw, 38, 2);
      if sub == 0 then
        if d.bitlen != 160 then (d, Refused)
        else
          var name := TextOf(d.raw, 40, NAME_SIZE - 1);
          (d.(mmsi24 := mmsi, name24 := name), StaticA(mmsi, name))
      else if sub == 1 then
        if d.bitlen != 168 || d.mmsi24 != mmsi then (d, Refused)
        else (d.(mmsi24 := 0), StaticB(mmsi, d.name24))
      else (d, Refused)
  }

  //////////////////////////////////////////////////////////////////////////////
  // The context, updated in place
  //////////////////////////////////////////////////////////////////////////////

  lemma RawField(buf: seq<byte>, start: nat, width: nat)
    requires start + width <= 8 * |buf|
    ensures FieldOf(Bits.Raw(buf), start, width) == Bits.Field(buf, start, width)
  {
    hide Bits.Raw;
    Bits.FieldBinary(buf, start, width);
  }

  lemma Exactly(buf: seq<byte>)
    requires |buf| >= 5
    ensures Bits.Extracted(buf, 0, 6) == Bits.Field(buf, 0, 6) && Bits.Extracted(buf, 8, 30) == Bits.Field(buf, 8, 30)
    ensures Bits.Extracted(buf, 38, 2) == Bits.Field(buf, 38, 2)
  {
    hide Bits.Field;
  }

  lemma RawText(buf: seq<byte>, start: nat, n: nat)
    requires start + 6 * n <= 8 * |buf|
    ensures TextOf(Bits.Raw(buf), start, n) == Text(TextField(buf, start, n))
  {
    forall i | 0 <= i < n ensures SixCharAt(Bits.Raw(buf), start + 6 * i) == SixChar(SixBitsAt(buf, start, i, n)) {
      RawField(buf, start + 6 * i, 6);
    }
    assert CharsOf(Bits.Raw(buf), start, n) == TextField(buf, start, n);
  }

  class Context {
    var decodedFrags: int
    const bits: array<byte>
    var bitlen: nat
    var mmsi24: nat
    const shipname24: array<char>
    ghost const Repr: set<object>

    ghost predicate Valid()
      reads this
    {
      bits.Length == BUFFER_BYTES && shipname24.Length == NAME_SIZE && Repr == {this, bits, shipname24} && bitlen <= BUFFER_BITS
    }

    ghost function Value(): (c: Ctx)
      requires Valid()
      reads this, Repr
      ensures |c.raw| == BUFFER_BITS
    {
      Ctx(decodedFrags, Bits.Raw(bits[..]), bitlen, mmsi24, CString(shipname24[..]))
    }

    constructor ()
      ensures Valid() && fresh(Repr) && Value() == Ctx(0, EmptyBits(), 0, 0, "")
    {
      var b, n := new byte[BUFFER_BYTES](_ => 0), new char[NAME_SIZE](_ => '\0');
      decodedFrags, bitlen, mmsi24 := 0, 0, 0;
      bits, shipname24 := b, n;
      Repr := {this, b, n};
      new;
      ZeroBuffer(bits[..]);
    }

    // Accepts the fragment that is due, or a first fragment at any time, and puts its
    // payload into the buffer.
    method Collect(s: Sentence) returns (accepted: bool)
      requires Valid() && Fits(Value(), s)
      modifies Repr
      ensures Valid() && accepted == Accepted(old(decodedFrags), s)
      ensures !accepted ==> Value() == old(Value())
      ensures accepted ==> (Value().raw, bitlen) == Gathered(old(Value()), s)
      ensures accepted ==> decodedFrags == if s.ifrag == 1 then 0 else old(decodedFrags)
      ensures mmsi24 == old(mmsi24) && shipname24[..] == old(shipname24[..])
    {
      hide Payload, OrInto, EmptyBits, Bits.Raw, CString;
      if s.ifrag != decodedFrags + 1 {
        if s.ifrag != 1 {
          return false;
        }
        decodedFrags := 0;
      }
      if s.ifrag == 1 {
        forall i | 0 <= i < bits.Length { bits[i] := 0; }
        ZeroBuffer(bits[..]);
        bitlen := 0;
      }
      PayloadLength(s.data);
      FitsInside(bits.Length, bitlen, Payload(s.data));
      var end := Unpack(bits, bitlen, s.data);
      bitlen := end - PadBits(s.pad);
      accepted := true;
    }

    // The switch on the message type, for a complete message.
    method Finish() returns (o: Outcome)
      requires Valid()
      modifies Repr
      ensures Valid() && (Value(), o) == Complete(old(Value()))
    {
      hide FieldOf, TextOf, Bits.Raw, Bits.Field, CString, Text, TextField;
      RawField(bits[..], 0, 6);
      RawField(bits[..], 8, 30);
      RawField(bits[..], 38, 2);
      Exactly(bits[..]);
      var typ := Bits.Ubits(bits[..], 0, 6);
      var mmsi := Bits.Ubits(bits[..], 8, 30);
      if typ != 24 {
        return Message(typ, mmsi, ReadBits());
      }
      var sub := Bits.Ubits(bits[..], 38, 2);
      match sub
      case 0 =>
        if bitlen != 160 {
          return Refused;
        }
        mmsi24 := mmsi;
        RawText(bits[..], 40, NAME_SIZE - 1);
        FromSixbit(bits[..], 40, shipname24);
        return StaticA(mmsi, CString(shipname24[..]));
      case 1 =>
        if bitlen != 168 || mmsi24 != mmsi {
          return Refused;
        }
        o := StaticB(mmsi, CString(shipname24[..]));
        mmsi24 := 0;
      case _ => return Refused;
    }

    // The first bitlen bits, for the decoders of the other message types.
    function ReadBits(): (r: seq<bit>)
      requires Valid()
      reads this, Repr
    {
      Bits.Raw(bits[..])[..bitlen]
    }

    // aivdm_decode, on the context of the sentence's channel.
    method Decode(s: Sentence) returns (o: Outcome)
      requires Valid() && Fits(Value(), s)
      modifies Repr
      ensures Valid() && (Value(), o) == Step(old(Value()), s)
    {
      hide Gathered, Complete, Bits.Raw;
      var accepted := Collect(s);
      if !accepted {
        return OutOfOrder;
      }
      if s.ifrag == s.nfrags {
        decodedFrags := 0;
        o := Finish();
        return;
      }
      decodedFrags := decodedFrags + 1;
      return Waiting;
    }
  }

  lemma ZeroBuffer(buf: seq<byte>)
    requires |buf| == BUFFER_BYTES && forall i :: 0 <= i < |buf| ==> buf[i] == 0
    ensures Bits.Raw(buf) == EmptyBits()
  {
    forall k | 0 <= k < 8 * |buf| ensures Bits.Bit(buf, k) == 0 {
      LowBitsAll(0, 7 - k % 8);
    }
  }

  //////////////////////////////////////////////////////////////////////////////
  // Reassembly as lists of bits
  //////////////////////////////////////////////////////////////////////////////

  // The reference: the fragments of the message being collected, in order.
  function Pending(p: seq<Sentence>, s: Sentence): seq<Sentence>
  {
    if !Accepted(|p|, s) then p
    else if s.ifrag == s.nfrags then []
    else Joined(p, s)
  }

  // The fragments with an accepted one; fragment 1 always starts afresh.
  function Joined(p: seq<Sentence>, s: Sentence): seq<Sentence>
  {
    Before(p, s) + [s]
  }

  function Before(p: seq<Sentence>, s: Sentence): seq<Sentence>
  {
    if s.ifrag == 1 then [] else p
  }

  // The message they carry: payload after payload, each less its padding.
  function BitsOf(p: seq<Sentence>): seq<bit>
  {
    if p == [] then [] else Trimmed(BitsOf(p[..|p| - 1]) + Payload(p[|p| - 1].data), PadBits(p[|p| - 1].pad))
  }

  function Trimmed(vs: seq<bit>, pad: nat): seq<bit>
  {
    if pad <= |vs| then vs[..|vs| - pad] else []
  }

  // What they leave in the buffer: all payloads or-ed in, each where the kept bits of
  // those before it end.
  function BufferOf(p: seq<Sentence>): (r: seq<bit>)
    ensures |r| == BUFFER_BITS
  {
    if p == [] then EmptyBits()
    else OrInto(BufferOf(p[..|p| - 1]), |BitsOf(p[..|p| - 1])|, Payload(p[|p| - 1].data))
  }

  // A fragment with no more padding than payload, and room for it.
  predicate Proper(p: seq<Sentence>, s: Sentence)
  {
    PadBits(s.pad) <= 6 * |s.data| && |BitsOf(p)| + 6 * |s.data| <= BUFFER_BITS
  }

  predicate AllProper(q: seq<Sentence>)
  {
    forall j :: 0 <= j < |q| ==> Proper(q[..j], q[j])
  }

  // What a proper fragment keeps.
  function Kept(s: Sentence): seq<bit>
    requires PadBits(s.pad) <= 6 * |s.data|
  {
    Payload(s.data)[..6 * |s.data| - PadBits(s.pad)]
  }

  lemma BitsOfNext(p: seq<Sentence>, s: Sentence)
    requires PadBits(s.pad) <= 6 * |s.data|
    ensures BitsOf(p + [s]) == BitsOf(p) + Kept(s)
  {
    hide Payload;
    assert (p + [s])[..|p|] == p;
  }

  // The kept bits of every fragment stand behind those of the fragments before it.
  lemma {:induction false} BitsOfConcat(q: seq<Sentence>, j: nat)
    requires j < |q| && forall i :: 0 <= i < |q| ==> PadBits(q[i].pad) <= 6 * |q[i].data|
    ensures var at := |BitsOf(q[..j])|;
      at + |Kept(q[j])| <= |BitsOf(q)| && BitsOf(q)[at..at + |Kept(q[j])|] == Kept(q[j])
    ensures j == |q| - 1 ==> |BitsOf(q)| == |BitsOf(q[..j])| + |Kept(q[j])|
  {
    hide BitsOf, Kept;
    var n := |q| - 1;
    assert q == q[..n] + [q[n]];
    BitsOfNext(q[..n], q[n]);
    if j < n {
      BitsOfConcat(q[..n], j);
      assert q[..n][..j] == q[..j];
    }
  }

  // A trimmed bit of a fragment of p that is one, at a position of the buffer.
  ghost predicate Stray(p: seq<Sentence>, pos: nat)
  {
    exists j: nat :: j < |p| && StrayIn(|BitsOf(p[..j])|, p[j], pos)
  }

  ghost predicate StrayIn(at: nat, s: Sentence, pos: nat)
  {
    && at + 6 * |s.data| - PadBits(s.pad) <= pos < at + 6 * |s.data|
    && at <= pos && Payload(s.data)[pos - at] == 1
  }

  // No such bit lies over a zero that this fragment keeps.
  ghost predicate NoClash(p: seq<Sentence>, s: Sentence)
  {
    forall k: nat :: k < 6 * |s.data| - PadBits(s.pad) && Payload(s.data)[k] == 0 ==> !Stray(p, |BitsOf(p)| + k)
  }

  // All along a message.
  ghost predicate Clean(q: seq<Sentence>)
  {
    forall j :: 0 <= j < |q| ==> NoClash(q[..j], q[j])
  }

  // Beyond the kept bits the buffer holds the stray ones and nothing else.
  lemma {:induction false} BufferBeyond(p: seq<Sentence>, pos: nat)
    requires AllProper(p) && |BitsOf(p)| <= pos < BUFFER_BITS
    ensures BufferOf(p)[pos] == 1 <==> Stray(p, pos)
  {
    hide *;
    if p == [] {
      NoFragments();
      NoStray(pos);
      ClearBit(pos);
    } else {
      var n := |p| - 1;
      var init, s := p[..n], p[n];
      AllProperPrefix(p, n);
      assert p == init + [s];
      ProperAt(p, n);
      BitsOfNext(init, s);
      BufferNext(init, s);
      KeptLength(s);
      BufferBeyond(init, pos);
      StrayNext(init, s, pos);
      BeyondNext(BufferOf(init), |BitsOf(init)|, s, pos);
    }
  }

  lemma NoStray(pos: nat)
    ensures !Stray([], pos)
  {
  }

  lemma ClearBit(pos: nat)
    requires pos < BUFFER_BITS
    ensures EmptyBits()[pos] == 0
  {
  }

  lemma ProperAt(q: seq<Sentence>, j: nat)
    requires AllProper(q) && j < |q|
    ensures PadBits(q[j].pad) <= 6 * |q[j].data| && |BitsOf(q[..j])| + 6 * |q[j].data| <= BUFFER_BITS
    ensures Proper(q[..j], q[j])
  {
    hide BitsOf;
    assert Proper(q[..j], q[j]);
  }

  lemma KeptLength(s: Sentence)
    requires PadBits(s.pad) <= 6 * |s.data|
    ensures |Kept(s)| == 6 * |s.data| - PadBits(s.pad)
  {
  }

  lemma BeyondNext(raw: seq<bit>, at: nat, s: Sentence, pos: nat)
    requires PadBits(s.pad) <= 6 * |s.data| && at + 6 * |s.data| - PadBits(s.pad) <= pos < |raw|
    ensures OrInto(raw, at, Payload(s.data))[pos] == 1 <==> raw[pos] == 1 || StrayIn(at, s, pos)
  {
  }

  lemma AllProperPrefix(p: seq<Sentence>, n: nat)
    requires AllProper(p) && n <= |p|
    ensures AllProper(p[..n])
  {
    hide Proper;
    forall j | 0 <= j < n ensures Proper(p[..n][..j], p[..n][j]) {
      assert p[..n][..j] == p[..j];
      assert Proper(p[..j], p[j]);
    }
  }

  lemma StrayNext(p: seq<Sentence>, s: Sentence, pos: nat)
    ensures Stray(p + [s], pos) <==> Stray(p, pos) || StrayIn(|BitsOf(p)|, s, pos)
  {
    hide BitsOf, StrayIn;
    var q := p + [s];
    forall j: nat | j <= |p| ensures q[..j] == p[..j] {
    }
    if Stray(p, pos) {
      var j: nat :| j < |p| && StrayIn(|BitsOf(p[..j])|, p[j], pos);
      assert StrayIn(|BitsOf(q[..j])|, q[j], pos);
    }
    assert p[..|p|] == p && q[..|p|] == p && q[|p|] == s;
    if StrayIn(|BitsOf(p)|, s, pos) {
      assert StrayIn(|BitsOf(q[..|p|])|, q[|p|], pos);
    }
    if Stray(q, pos) {
      var j: nat :| j < |q| && StrayIn(|BitsOf(q[..j])|, q[j], pos);
      assert j < |p| ==> StrayIn(|BitsOf(p[..j])|, p[j], pos);
    }
  }

  lemma OrIntoPrefix(raw: seq<bit>, pos: nat, vs: seq<bit>, n: nat)
    requires pos + |vs| <= |raw| && n <= pos + |vs|
    ensures OrInto(raw, pos, vs)[..n] == (raw[..pos] + vs)[..n] <==>
            forall k :: 0 <= k < n - pos ==> raw[pos + k] == 1 ==> vs[k] == 1
  {
    var a, b := OrInto(raw, pos, vs), raw[..pos] + vs;
    if a[..n] == b[..n] {
      forall k | 0 <= k < n - pos ensures raw[pos + k] == 1 ==> vs[k] == 1 {
        assert a[..n][pos + k] == b[..n][pos + k];
      }
    }
    if forall k :: 0 <= k < n - pos ==> raw[pos + k] == 1 ==> vs[k] == 1 {
      forall i | 0 <= i < n ensures a[i] == b[i] {
        if i >= pos {
          assert raw[pos + (i - pos)] == 1 ==> vs[i - pos] == 1;
        }
      }
      assert a[..n] == b[..n];
    }
  }

  // The buffer holds the message if and only if nothing clashes on the way.
  lemma {:induction false} CollectedIff(q: seq<Sentence>)
    requires AllProper(q)
    ensures |BitsOf(q)| <= BUFFER_BITS
    ensures BufferOf(q)[..|BitsOf(q)|] == BitsOf(q) <==> Clean(q)
  {
    hide *;
    if q == [] {
      NoFragments();
      CleanNone();
    } else {
      var n := |q| - 1;
      AllProperPrefix(q, n);
      CollectedIff(q[..n]);
      assert q == q[..n] + [q[n]];
      ProperAt(q, n);
      CollectedNext(q[..n], q[n]);
      CleanNext(q[..n], q[n]);
    }
  }

  lemma CleanNone()
    ensures Clean([])
  {
  }

  lemma CleanNext(p: seq<Sentence>, s: Sentence)
    ensures Clean(p + [s]) <==> Clean(p) && NoClash(p, s)
  {
    hide NoClash;
    var q := p + [s];
    forall j | 0 <= j <= |p| ensures q[..j] == p[..j] {
    }
    assert q[..|p|] == p && q[|p|] == s;
    if Clean(q) {
      forall j | 0 <= j < |p| ensures NoClash(p[..j], p[j]) {
        assert NoClash(q[..j], q[j]);
      }
      assert NoClash(q[..|p|], q[|p|]);
    }
  }

  lemma CollectedNext(p: seq<Sentence>, s: Sentence)
    requires AllProper(p) && Proper(p, s)
    ensures |BitsOf(p + [s])| <= BUFFER_BITS
    ensures BufferOf(p + [s])[..|BitsOf(p + [s])|] == BitsOf(p + [s]) <==>
            BufferOf(p)[..|BitsOf(p)|] == BitsOf(p) && NoClash(p, s)
  {
    hide BitsOf, BufferOf, Payload, OrInto;
    BitsOfNext(p, s);
    BufferNext(p, s);
    var raw, at, vs := BufferOf(p), |BitsOf(p)|, Payload(s.data);
    var n := at + 6 * |s.data| - PadBits(s.pad);
    OrIntoPrefix(raw, at, vs, n);
    OrIntoKeeps(raw, at, vs);
    assert OrInto(raw, at, vs)[..n][..at] == OrInto(raw, at, vs)[..at];
    assert (raw[..at] + vs)[..n] == raw[..at] + Kept(s);
    assert (raw[..at] + Kept(s))[..at] == raw[..at];
    assert (BitsOf(p) + Kept(s))[..at] == BitsOf(p);
    ClashIff(p, s);
  }

  lemma BufferNext(p: seq<Sentence>, s: Sentence)
    ensures BufferOf(p + [s]) == OrInto(BufferOf(p), |BitsOf(p)|, Payload(s.data))
  {
    hide BitsOf, OrInto, Payload;
    assert (p + [s])[..|p|] == p;
  }

  lemma OrIntoKeeps(raw: seq<bit>, pos: nat, vs: seq<bit>)
    requires pos <= |raw|
    ensures OrInto(raw, pos, vs)[..pos] == raw[..pos]
  {
  }

  lemma ClashIff(p: seq<Sentence>, s: Sentence)
    requires AllProper(p) && Proper(p, s)
    ensures var at := |BitsOf(p)|;
      NoClash(p, s) <==>
      forall k :: 0 <= k < 6 * |s.data| - PadBits(s.pad) ==> BufferOf(p)[at + k] == 1 ==> Payload(s.data)[k] == 1
  {
    hide BitsOf, BufferOf, Payload, Stray;
    var at := |BitsOf(p)|;
    forall pos: nat | at <= pos < at + 6 * |s.data| - PadBits(s.pad)
      ensures BufferOf(p)[pos] == 1 <==> Stray(p, pos)
    {
      BufferBeyond(p, pos);
    }
    ClashPosition(p, s, BufferOf(p), Payload(s.data), at);
  }

  lemma ClashPosition(p: seq<Sentence>, s: Sentence, raw: seq<bit>, vs: seq<bit>, at: nat)
    requires vs == Payload(s.data) && at == |BitsOf(p)| && at + |vs| <= |raw| && |vs| == 6 * |s.data|
    requires PadBits(s.pad) <= |vs|
    requires forall pos: nat :: at <= pos < at + |vs| - PadBits(s.pad) ==> (raw[pos] == 1 <==> Stray(p, pos))
    ensures NoClash(p, s) <==> forall k :: 0 <= k < |vs| - PadBits(s.pad) ==> raw[at + k] == 1 ==> vs[k] == 1
  {
    hide BitsOf, Payload, Stray;
    var n := |vs| - PadBits(s.pad);
    if NoClash(p, s) {
      forall k | 0 <= k < n && raw[at + k] == 1 ensures vs[k] == 1 {
        var pos := at + k;
        assert Stray(p, pos);
      }
    } else {
      var k: nat :| k < n && Payload(s.data)[k] == 0 && Stray(p, at + k);
      assert raw[at + k] == 1 && vs[k] == 0;
    }
  }

  //////////////////////////////////////////////////////////////////////////////
  // Runs of one context
  //////////////////////////////////////////////////////////////////////////////

  // A run: the states, and what each sentence returned.
  ghost predicate IsRun(cs: seq<Ctx>, xs: seq<Sentence>, os: seq<Outcome>)
  {
    && |cs| == |xs| + 1 && |os| == |xs|
    && forall i :: 0 <= i < |xs| ==> IsStep(cs[i], xs[i], cs[i + 1], os[i])
  }

  ghost predicate IsStep(c: Ctx, s: Sentence, d: Ctx, o: Outcome)
  {
    |c.raw| == BUFFER_BITS && Fits(c, s) && (d, o) == Step(c, s)
  }

  const INITIAL := Ctx(0, EmptyBits(), 0, 0, "")

  // The fragments pending after a run.
  function PendingAfter(xs: seq<Sentence>): seq<Sentence>
  {
    if xs == [] then [] else Pending(PendingAfter(xs[..|xs| - 1]), xs[|xs| - 1])
  }

  // A context holds the fragments it has collected.
  ghost predicate Holds(c: Ctx, p: seq<Sentence>)
  {
    && |c.raw| == BUFFER_BITS && c.bitlen <= BUFFER_BITS && c.frags == |p|
    && (p != [] ==> c.raw == BufferOf(p) && c.bitlen == |BitsOf(p)|)
  }

  lemma GatheredIs(c: Ctx, p: seq<Sentence>, s: Sentence)
    requires Holds(c, p) && Accepted(c.frags, s) && Fits(c, s)
    ensures Gathered(c, s) == (BufferOf(Joined(p, s)), |BitsOf(Joined(p, s))|)
    ensures |BufferOf(Joined(p, s))| == BUFFER_BITS && |BitsOf(Joined(p, s))| <= BUFFER_BITS
    ensures |BitsOf(Before(p, s))| + 6 * |s.data| <= BUFFER_BITS
  {
    hide BitsOf, BufferOf, Payload, OrInto, EmptyBits;
    var b := Before(p, s);
    NoFragments();
    BufferNext(b, s);
    assert |BitsOf(b)| == if s.ifrag == 1 then 0 else c.bitlen;
    assert Gathered(c, s).1 == |BitsOf(b)| + 6 * |s.data| - PadBits(s.pad);
    BitsOfLength(b, s);
  }

  lemma NoFragments()
    ensures BitsOf([]) == [] && BufferOf([]) == EmptyBits()
  {
  }

  lemma BitsOfLength(p: seq<Sentence>, s: Sentence)
    requires PadBits(s.pad) <= |BitsOf(p)| + 6 * |s.data|
    ensures |BitsOf(p + [s])| == |BitsOf(p)| + 6 * |s.data| - PadBits(s.pad)
  {
    hide Payload;
    assert (p + [s])[..|p|] == p;
  }

  lemma StepHolds(c: Ctx, p: seq<Sentence>, s: Sentence)
    requires Holds(c, p) && Fits(c, s)
    ensures Holds(Step(c, s).0, Pending(p, s))
  {
    hide BitsOf, BufferOf, Gathered, Complete, EmptyBits;
    if Accepted(c.frags, s) {
      GatheredIs(c, p, s);
      var (raw, n) := Gathered(c, s);
      hide Fits;
      CompleteKeeps(Ctx(0, raw, n, c.mmsi24, c.name24));
    }
  }

  lemma CompleteKeeps(d: Ctx)
    requires |d.raw| == BUFFER_BITS && d.bitlen <= BUFFER_BITS
    ensures var e := Complete(d).0; e.frags == d.frags && e.raw == d.raw && e.bitlen == d.bitlen
  {
    hide FieldOf, TextOf;
  }

  // On every run, at every moment, the buffer and its length are those of the pending
  // fragments: out-of-order sentences change nothing, and fragment 1 starts afresh.
  lemma {:induction false} Buffer(cs: seq<Ctx>, xs: seq<Sentence>, os: seq<Outcome>, i: nat)
    requires IsRun(cs, xs, os) && cs[0] == INITIAL && i <= |xs|
    ensures Holds(cs[i], PendingAfter(xs[..i]))
  {
    if i > 0 {
      hide BitsOf, BufferOf;
      Buffer(cs, xs, os, i - 1);
      assert xs[..i][..i - 1] == xs[..i - 1];
      assert IsStep(cs[i - 1], xs[i - 1], cs[i], os[i - 1]);
      StepHolds(cs[i - 1], PendingAfter(xs[..i - 1]), xs[i - 1]);
    }
  }

  // Sentence i is accepted, and joins these fragments.
  ghost predicate Joins(xs: seq<Sentence>, i: nat)
    requires i < |xs|
  {
    Accepted(|PendingAfter(xs[..i])|, xs[i])
  }

  function FragmentsAt(xs: seq<Sentence>, i: nat): seq<Sentence>
    requires i < |xs|
  {
    Joined(PendingAfter(xs[..i]), xs[i])
  }

  // The fragments pending are numbers 1, 2, ... of a message, whatever has arrived.
  lemma {:induction false} FragmentNumbers(xs: seq<Sentence>)
    ensures forall j :: 0 <= j < |PendingAfter(xs)| ==> PendingAfter(xs)[j].ifrag == j + 1
  {
    if xs != [] {
      FragmentNumbers(xs[..|xs| - 1]);
    }
  }

  // And a message that is handed on consists of fragments 1 to nfrags, nfrags being what
  // its last one says.
  lemma CompleteNumbers(xs: seq<Sentence>, i: nat)
    requires i < |xs| && (xs[i].ifrag == 1 || xs[i].ifrag == |PendingAfter(xs[..i])| + 1)
    ensures var q := FragmentsAt(xs, i);
      && |q| == xs[i].ifrag && q[|q| - 1] == xs[i]
      && forall j :: 0 <= j < |q| ==> q[j].ifrag == j + 1
  {
    FragmentNumbers(xs[..i]);
  }

  // What becomes of a sentence, by its fragment numbers alone: it is out of order, and then
  // changes nothing, unless it is number 1 or the next; one that is not waited with ends a
  // message.
  lemma ByNumbers(cs: seq<Ctx>, xs: seq<Sentence>, os: seq<Outcome>, i: nat)
    requires IsRun(cs, xs, os) && cs[0] == INITIAL && i < |xs|
    ensures os[i] == OutOfOrder <==> xs[i].ifrag != 1 && xs[i].ifrag != |PendingAfter(xs[..i])| + 1
    ensures os[i] == OutOfOrder ==> cs[i + 1] == cs[i]
    ensures os[i] == Waiting <==> os[i] != OutOfOrder && xs[i].ifrag != xs[i].nfrags
    ensures |PendingAfter(xs[..i + 1])| ==
      if os[i] == OutOfOrder then |PendingAfter(xs[..i])| else if os[i] == Waiting then xs[i].ifrag else 0
  {
    hide BitsOf, BufferOf, Gathered, FieldOf, TextOf;
    assert IsStep(cs[i], xs[i], cs[i + 1], os[i]);
    Buffer(cs, xs, os, i);
    assert xs[..i + 1][..i] == xs[..i];
    assert PendingAfter(xs[..i + 1]) == Pending(PendingAfter(xs[..i]), xs[i]);
  }

  ghost predicate Padded(xs: seq<Sentence>)
  {
    forall i :: 0 <= i < |xs| ==> PadBits(xs[i].pad) <= 6 * |xs[i].data|
  }

  // What is in the buffer once sentence i is in is the message so far.
  ghost predicate Collected(cs: seq<Ctx>, xs: seq<Sentence>, i: nat)
    requires i < |xs| && |cs| == |xs| + 1 && |cs[i].raw| == BUFFER_BITS && Fits(cs[i], xs[i])
  {
    var (raw, n) := Gathered(cs[i], xs[i]);
    0 <= n <= |raw| && raw[..n] == BitsOf(FragmentsAt(xs, i))
  }

  // The fragments of a run are proper.
  lemma {:induction false} PendingProper(cs: seq<Ctx>, xs: seq<Sentence>, os: seq<Outcome>, i: nat)
    requires IsRun(cs, xs, os) && cs[0] == INITIAL && Padded(xs) && i <= |xs|
    ensures AllProper(PendingAfter(xs[..i]))
    ensures i < |xs| && Joins(xs, i) ==> AllProper(FragmentsAt(xs, i))
  {
    hide BitsOf, BufferOf, IsStep, Holds, Proper;
    if i > 0 {
      PendingProper(cs, xs, os, i - 1);
      assert xs[..i][..i - 1] == xs[..i - 1];
    }
    if i < |xs| && Joins(xs, i) {
      Buffer(cs, xs, os, i);
      ProperNext(cs[i], PendingAfter(xs[..i]), xs[i], cs[i + 1], os[i]);
    }
  }

  lemma ProperNext(c: Ctx, p: seq<Sentence>, s: Sentence, d: Ctx, o: Outcome)
    requires Holds(c, p) && IsStep(c, s, d, o) && Accepted(|p|, s) && PadBits(s.pad) <= 6 * |s.data| && AllProper(p)
    ensures AllProper(Joined(p, s))
  {
    hide BitsOf, BufferOf, Gathered;
    GatheredIs(c, p, s);
    var b := Before(p, s);
    var q := b + [s];
    hide Fits;
    assert Proper(b, s);
    hide Proper;
    forall j | 0 <= j < |q| ensures Proper(q[..j], q[j]) {
      if j < |b| {
        assert q[..j] == b[..j];
        assert Proper(b[..j], b[j]);
      } else {
        assert q[..j] == b;
      }
    }
  }

  // What is collected with sentence i is right if and only if nothing has clashed in its
  // message so far.
  lemma MessageExact(cs: seq<Ctx>, xs: seq<Sentence>, os: seq<Outcome>, i: nat)
    requires IsRun(cs, xs, os) && cs[0] == INITIAL && Padded(xs) && i < |xs| && Joins(xs, i)
    ensures |cs[i].raw| == BUFFER_BITS && Fits(cs[i], xs[i])
    ensures Collected(cs, xs, i) <==> Clean(FragmentsAt(xs, i))
  {
    hide BitsOf, BufferOf, Gathered, Clean;
    assert IsStep(cs[i], xs[i], cs[i + 1], os[i]);
    Buffer(cs, xs, os, i);
    PendingProper(cs, xs, os, i);
    GatheredIs(cs[i], PendingAfter(xs[..i]), xs[i]);
    CollectedIff(FragmentsAt(xs, i));
  }

  // No accepted sentence clashes with the fragments it joins.
  ghost predicate NoneClashes(xs: seq<Sentence>)
  {
    forall i {:trigger Joins(xs, i)} :: 0 <= i < |xs| && Joins(xs, i) ==>
      NoClash(Before(PendingAfter(xs[..i]), xs[i]), xs[i])
  }

  lemma {:induction false} PendingClean(xs: seq<Sentence>, i: nat)
    requires NoneClashes(xs) && i <= |xs|
    ensures Clean(PendingAfter(xs[..i]))
    ensures i < |xs| && Joins(xs, i) ==> Clean(FragmentsAt(xs, i))
  {
    hide NoClash;
    CleanNone();
    if i > 0 {
      PendingClean(xs, i - 1);
      assert xs[..i][..i - 1] == xs[..i - 1];
      hide Clean;
    }
    if i < |xs| && Joins(xs, i) {
      CleanNext(Before(PendingAfter(xs[..i]), xs[i]), xs[i]);
      hide Clean;
    }
  }

  // A run collects every message right if and only if no trimmed bit that is one ever lies
  // over a zero that a later fragment of its message keeps.
  lemma RunExact(cs: seq<Ctx>, xs: seq<Sentence>, os: seq<Outcome>)
    requires IsRun(cs, xs, os) && cs[0] == INITIAL && Padded(xs)
    ensures forall i :: 0 <= i < |xs| ==> |cs[i].raw| == BUFFER_BITS && Fits(cs[i], xs[i])
    ensures (forall i {:trigger Joins(xs, i)} :: 0 <= i < |xs| && Joins(xs, i) ==> Collected(cs, xs, i))
            <==> NoneClashes(xs)
  {
    forall i | 0 <= i < |xs| ensures |cs[i].raw| == BUFFER_BITS && Fits(cs[i], xs[i]) {
      assert IsStep(cs[i], xs[i], cs[i + 1], os[i]);
    }
    hide Clean, NoClash, Collected, IsRun, Fits;
    forall i {:trigger Joins(xs, i)} | 0 <= i < |xs| && Joins(xs, i)
      ensures Collected(cs, xs, i) <==> Clean(FragmentsAt(xs, i))
      ensures Clean(FragmentsAt(xs, i)) ==> NoClash(Before(PendingAfter(xs[..i]), xs[i]), xs[i])
      ensures NoneClashes(xs) ==> Clean(FragmentsAt(xs, i))
    {
      MessageExact(cs, xs, os, i);
      CleanNext(Before(PendingAfter(xs[..i]), xs[i]), xs[i]);
      if NoneClashes(xs) {
        PendingClean(xs, i);
      }
    }
  }

  //////////////////////////////////////////////////////////////////////////////
  // Room in the buffer
  //////////////////////////////////////////////////////////////////////////////

  // The payload of a fragment fits behind those before it, and its padding does not exceed
  // what is there then.
  predicate HasRoom(p: seq<Sentence>, s: Sentence)
  {
    |BitsOf(p)| + 6 * |s.data| <= BUFFER_BITS && PadBits(s.pad) <= |BitsOf(p)| + 6 * |s.data|
  }

  // Every sentence that is accepted has room.
  ghost predicate Roomy(xs: seq<Sentence>)
  {
    forall i {:trigger Joins(xs, i)} :: 0 <= i < |xs| && Joins(xs, i) ==>
      HasRoom(Before(PendingAfter(xs[..i]), xs[i]), xs[i])
  }

  // A context that holds the fragments p can take a sentence exactly if there is room.
  lemma FitsIff(c: Ctx, p: seq<Sentence>, s: Sentence)
    requires Holds(c, p)
    ensures Fits(c, s) <==> (Accepted(|p|, s) ==> HasRoom(Before(p, s), s))
  {
    hide BitsOf, BufferOf, Payload, OrInto, EmptyBits;
    NoFragments();
    var b := Before(p, s);
    if Accepted(|p|, s) {
      assert |BitsOf(b)| == if s.ifrag == 1 then 0 else c.bitlen;
      assert Gathered(c, s).1 == |BitsOf(b)| + 6 * |s.data| - PadBits(s.pad);
    }
  }

  lemma RoomyPrefix(xs: seq<Sentence>, n: nat)
    requires Roomy(xs) && n <= |xs|
    ensures Roomy(xs[..n])
  {
    hide HasRoom, PendingAfter;
    forall i {:trigger Joins(xs[..n], i)} | 0 <= i < n && Joins(xs[..n], i)
      ensures HasRoom(Before(PendingAfter(xs[..n][..i]), xs[..n][i]), xs[..n][i])
    {
      assert xs[..n][..i] == xs[..i];
      assert Joins(xs, i);
    }
  }

  // Roomy sentences have a run,
  lemma {:induction false} RoomyRuns(xs: seq<Sentence>) returns (cs: seq<Ctx>, os: seq<Outcome>)
    requires Roomy(xs)
    ensures IsRun(cs, xs, os) && cs[0] == INITIAL
  {
    if xs == [] {
      cs, os := [INITIAL], [];
    } else {
      var n := |xs| - 1;
      RoomyPrefix(xs, n);
      cs, os := RoomyRuns(xs[..n]);
      Buffer(cs, xs[..n], os, n);
      assert xs[..n][..n] == xs[..n];
      cs, os := NextStep(cs, xs, os);
    }
  }

  lemma NextStep(cs: seq<Ctx>, xs: seq<Sentence>, os: seq<Outcome>) returns (ds: seq<Ctx>, ps: seq<Outcome>)
    requires xs != [] && Roomy(xs) && IsRun(cs, xs[..|xs| - 1], os)
    requires Holds(cs[|xs| - 1], PendingAfter(xs[..|xs| - 1]))
    ensures IsRun(ds, xs, ps) && ds[0] == cs[0]
  {
    hide HasRoom, PendingAfter, BitsOf, BufferOf, Fits, Step;
    var n := |xs| - 1;
    var c, s := cs[n], xs[n];
    FitsIff(c, PendingAfter(xs[..n]), s);
    assert Accepted(|PendingAfter(xs[..n])|, s) ==> Joins(xs, n);
    var (d, o) := Step(c, s);
    ds, ps := cs + [d], os + [o];
    assert IsStep(c, s, d, o);
    hide IsStep;
    forall i | 0 <= i < |xs| ensures IsStep(ds[i], xs[i], ds[i + 1], ps[i]) {
      if i < n {
        assert xs[..n][i] == xs[i];
        assert IsStep(cs[i], xs[..n][i], cs[i + 1], os[i]);
      }
    }
  }

  // and no others do.
  lemma RunsRoomy(cs: seq<Ctx>, xs: seq<Sentence>, os: seq<Outcome>)
    requires IsRun(cs, xs, os) && cs[0] == INITIAL
    ensures Roomy(xs)
  {
    hide HasRoom, PendingAfter, Holds;
    forall i {:trigger Joins(xs, i)} | 0 <= i < |xs| && Joins(xs, i)
      ensures HasRoom(Before(PendingAfter(xs[..i]), xs[i]), xs[i])
    {
      Buffer(cs, xs, os, i);
      assert IsStep(cs[i], xs[i], cs[i + 1], os[i]);
      FitsIff(cs[i], PendingAfter(xs[..i]), xs[i]);
    }
  }

  // A context gets through a run of sentences, from the first to the last and whatever
  // their padding, if and only if every accepted fragment has room.
  lemma RunExists(xs: seq<Sentence>)
    ensures (exists cs, os :: IsRun(cs, xs, os) && cs[0] == INITIAL) <==> Roomy(xs)
  {
    hide Roomy, IsStep;
    if Roomy(xs) {
      var cs, os := RoomyRuns(xs);
      assert IsRun(cs, xs, os);
    }
    if cs: seq<Ctx>, os: seq<Outcome> :| IsRun(cs, xs, os) && cs[0] == INITIAL {
      RunsRoomy(cs, xs, os);
    }
  }

  // Two sentences suffice to go wrong: the fragments "w" and "0" of a message, the first
  // with one bit of padding, and that bit a one.  Every context that receives them, and
  // there is one, collects a one in place of the first bit of the second.
  lemma DirtyRun()
    ensures var s, t := Sentence('A', 3, 1, [119], '1'), Sentence('A', 3, 2, [48], '0');
      && Padded([s, t]) && Joins([s, t], 0) && Joins([s, t], 1) && !NoneClashes([s, t])
      && (exists cs, os :: IsRun(cs, [s, t], os) && cs[0] == INITIAL)
      && BitsOf([s, t]) == [1, 1, 1, 1, 1, 0, 0, 0, 0, 0, 0]
      && forall cs: seq<Ctx>, os: seq<Outcome> :: IsRun(cs, [s, t], os) && cs[0] == INITIAL ==>
           cs[2].bitlen == 11 && |cs[2].raw| >= 11 && cs[2].raw[..11] == [1, 1, 1, 1, 1, 1, 0, 0, 0, 0, 0]
  {
    var s, t := Sentence('A', 3, 1, [119], '1'), Sentence('A', 3, 2, [48], '0');
    hide *;
    forall cs: seq<Ctx>, os: seq<Outcome> | IsRun(cs, [s, t], os) ensures |cs| == 3 {
      RunLength(cs, [s, t], os);
    }
    DirtyFirst(s);
    DirtySecond(s, t);
    BothJoin(s, t);
    FirstClash([s, t]);
    RunExists([s, t]);
    forall cs: seq<Ctx>, os: seq<Outcome> | IsRun(cs, [s, t], os) && |cs| == 3 && cs[0] == INITIAL
      ensures cs[2].bitlen == 11 && |cs[2].raw| >= 11 && cs[2].raw[..11] == [1, 1, 1, 1, 1, 1, 0, 0, 0, 0, 0]
    {
      DirtyBuffer(cs, s, t, os);
    }
  }

  lemma RunLength(cs: seq<Ctx>, xs: seq<Sentence>, os: seq<Outcome>)
    requires IsRun(cs, xs, os)
    ensures |cs| == |xs| + 1
  {
  }

  lemma DirtyBuffer(cs: seq<Ctx>, s: Sentence, t: Sentence, os: seq<Outcome>)
    requires IsRun(cs, [s, t], os) && cs[0] == INITIAL && PendingAfter([s, t]) == [s, t]
    requires |BitsOf([s, t])| == 11 && BufferOf([s, t])[..11] == [1, 1, 1, 1, 1, 1, 0, 0, 0, 0, 0]
    ensures |cs| == 3 && cs[2].bitlen == 11 && |cs[2].raw| >= 11 && cs[2].raw[..11] == [1, 1, 1, 1, 1, 1, 0, 0, 0, 0, 0]
  {
    hide PendingAfter, BitsOf, BufferOf, IsStep;
    Buffer(cs, [s, t], os, 2);
    assert [s, t][..2] == [s, t];
  }

  lemma DirtyFirst(s: Sentence)
    requires s == Sentence('A', 3, 1, [119], '1')
    ensures PendingAfter([s]) == [s] && BitsOf([s]) == [1, 1, 1, 1, 1] && Stray([s], 5)
    ensures BufferOf([s]) == OrInto(EmptyBits(), 0, [1, 1, 1, 1, 1, 1])
  {
    OneCharacter();
    NoFragments();
    hide EmptyBits, OrInto;
    assert [s][..0] == [];
    assert PadBits('1') == 1;
    assert Payload(s.data) == [1, 1, 1, 1, 1, 1];
    hide Payload;
    assert StrayIn(|BitsOf([s][..0])|, [s][0], 5);
  }

  lemma DirtySecond(s: Sentence, t: Sentence)
    requires t == Sentence('A', 3, 2, [48], '0') && BitsOf([s]) == [1, 1, 1, 1, 1] && Stray([s], 5)
    requires BufferOf([s]) == OrInto(EmptyBits(), 0, [1, 1, 1, 1, 1, 1])
    ensures !NoClash([s], t) && BitsOf([s, t]) == [1, 1, 1, 1, 1, 0, 0, 0, 0, 0, 0]
    ensures BufferOf([s, t])[..11] == [1, 1, 1, 1, 1, 1, 0, 0, 0, 0, 0]
  {
    OneCharacter();
    assert PadBits('0') == 0 && [s] + [t] == [s, t];
    BitsOfNext([s], t);
    BufferNext([s], t);
    assert |EmptyBits()| >= 11;
    hide BitsOf, BufferOf, Stray, Payload, OrInto;
    var vs := Payload(t.data);
    assert |vs| == 6 && vs[0] == 0;
    assert Stray([s], |BitsOf([s])| + 0);
    assert !NoClash([s], t);
    assert Kept(t) == [0, 0, 0, 0, 0, 0];
    ElevenBits(EmptyBits());
  }

  lemma ElevenBits(raw: seq<bit>)
    requires |raw| >= 11 && forall k :: 0 <= k < |raw| ==> raw[k] == 0
    ensures OrInto(OrInto(raw, 0, [1, 1, 1, 1, 1, 1]), 5, [0, 0, 0, 0, 0, 0])[..11] == [1, 1, 1, 1, 1, 1, 0, 0, 0, 0, 0]
  {
  }

  lemma BothJoin(s: Sentence, t: Sentence)
    requires s == Sentence('A', 3, 1, [119], '1') && t == Sentence('A', 3, 2, [48], '0')
    requires PendingAfter([s]) == [s] && |BitsOf([s])| == 5
    ensures Padded([s, t]) && Joins([s, t], 0) && Joins([s, t], 1) && Roomy([s, t])
    ensures PendingAfter([s, t][..1]) == [s] && Before([s], t) == [s] && PendingAfter([s, t]) == [s, t]
  {
    NoFragments();
    assert [s, t][..0] == [] && [s, t][..1] == [s];
    hide BitsOf;
  }

  lemma FirstClash(xs: seq<Sentence>)
    requires |xs| == 2 && Joins(xs, 1) && !NoClash(Before(PendingAfter(xs[..1]), xs[1]), xs[1])
    ensures !NoneClashes(xs)
  {
    hide NoClash, PendingAfter, Joins;
  }

  lemma Shifts()
    ensures ShiftRight(63, 0) % 2 == 1 && ShiftRight(63, 1) % 2 == 1 && ShiftRight(63, 2) % 2 == 1
    ensures ShiftRight(63, 3) % 2 == 1 && ShiftRight(63, 4) % 2 == 1 && ShiftRight(63, 5) % 2 == 1
    ensures ShiftRight(0, 0) % 2 == 0 && ShiftRight(0, 1) % 2 == 0 && ShiftRight(0, 2) % 2 == 0
    ensures ShiftRight(0, 3) % 2 == 0 && ShiftRight(0, 4) % 2 == 0 && ShiftRight(0, 5) % 2 == 0
  {
  }

  lemma AllSix(v: byte, b: bit)
    requires ShiftRight(v, 0) % 2 == b && ShiftRight(v, 1) % 2 == b && ShiftRight(v, 2) % 2 == b
    requires ShiftRight(v, 3) % 2 == b && ShiftRight(v, 4) % 2 == b && ShiftRight(v, 5) % 2 == b
    ensures SixBits(v) == [b, b, b, b, b, b]
  {
    hide ShiftRight;
  }

  lemma OneCharacter()
    ensures Payload([119]) == [1, 1, 1, 1, 1, 1] && Payload([48]) == [0, 0, 0, 0, 0, 0]
  {
    Shifts();
    AllSix(63, 1);
    AllSix(0, 0);
    hide SixBits, ShiftRight;
    assert [119][..0] == [] && [48][..0] == [];
  }

  // Fragments 1..n of a message of 100, of 60 characters "w" each.
  function LongMessage(n: nat): seq<Sentence>
  {
    if n == 0 then [] else LongMessage(n - 1) + [Sentence('A', 100, n, LongPayload(), '0')]
  }

  function LongPayload(): (data: seq<byte>)
    ensures |data| == 60
  {
    seq(60, i => 119)
  }

  lemma {:induction false} LongPending(n: nat)
    requires n < 100
    ensures |LongMessage(n)| == n && PendingAfter(LongMessage(n)) == LongMessage(n)
    ensures |BitsOf(LongMessage(n))| == 360 * n
  {
    if n > 0 {
      var p, s := LongMessage(n - 1), Sentence('A', 100, n, LongPayload(), '0');
      assert LongMessage(n) == p + [s];
      hide LongMessage, PendingAfter, BitsOf;
      LongPending(n - 1);
      LongStep(p, s);
    }
  }

  lemma LongStep(p: seq<Sentence>, s: Sentence)
    requires PendingAfter(p) == p && |p| < 99 && |s.data| == 60
    requires s.nfrags == 100 && s.ifrag == |p| + 1 && s.pad == '0'
    ensures PendingAfter(p + [s]) == p + [s] && |BitsOf(p + [s])| == |BitsOf(p)| + 360
  {
    hide PendingAfter, BitsOf;
    BitsOfLength(p, s);
    PendingNext(p, s);
    assert |p| == 0 ==> p == [];
  }

  lemma PendingNext(xs: seq<Sentence>, s: Sentence)
    ensures PendingAfter(xs + [s]) == Pending(PendingAfter(xs), s)
  {
    assert (xs + [s])[..|xs|] == xs;
  }

  lemma LongNext(n: nat)
    ensures LongMessage(n + 1) == LongMessage(n) + [Sentence('A', 100, n + 1, LongPayload(), '0')]
  {
  }

  lemma {:induction false} LongPrefix(n: nat, i: nat)
    requires i <= n < 100
    ensures |LongMessage(n)| == n && LongMessage(n)[..i] == LongMessage(i)
    ensures i < n ==> LongMessage(n)[i] == Sentence('A', 100, i + 1, LongPayload(), '0')
  {
    hide *;
    LongPending(n);
    if i < n {
      LongPrefix(n - 1, i);
      LongNext(n - 1);
    } else {
      assert LongMessage(n)[..n] == LongMessage(n);
    }
  }

  lemma LongJoins(n: nat, i: nat)
    requires i < n < 100
    ensures |LongMessage(n)| == n && Joins(LongMessage(n), i)
    ensures HasRoom(Before(PendingAfter(LongMessage(n)[..i]), LongMessage(n)[i]), LongMessage(n)[i])
       <==> 360 * (i + 1) <= BUFFER_BITS
  {
    hide LongMessage, PendingAfter, BitsOf, LongPayload;
    LongPrefix(n, i);
    LongPending(i);
    assert |LongPayload()| == 60;
    LongFirst(i);
  }

  lemma LongFirst(i: nat)
    requires i < 100
    ensures Before(LongMessage(i), Sentence('A', 100, i + 1, LongPayload(), '0')) == LongMessage(i)
  {
  }

  // Nothing limits the number of fragments.  Of these messages the first 45 fragments have
  // room; fragment 46 is accepted all the same, and writes behind the buffer.
  lemma Overrun()
    ensures var p, s := LongMessage(45), Sentence('A', 100, 46, LongPayload(), '0');
      && PendingAfter(p) == p && Accepted(|p|, s) && Before(p, s) == p
      && !OnesInside(BUFFER_BYTES, |BitsOf(p)|, Payload(s.data))
    ensures Roomy(LongMessage(45)) && !Roomy(LongMessage(46))
  {
    var data := LongPayload();
    assert data[59] == 119;
    hide LongMessage, BitsOf, Payload, LongPayload, PendingAfter, HasRoom, Joins;
    LongPending(45);
    LongPrefix(46, 45);
    LongFirst(45);
    PayloadLength(data);
    LastOne(data, 59);
    assert Payload(data)[359] == 1 && (16200 + 359) / 8 >= BUFFER_BYTES;
    forall i | 0 <= i < 45 ensures HasRoom(Before(PendingAfter(LongMessage(45)[..i]), LongMessage(45)[i]), LongMessage(45)[i]) {
      LongJoins(45, i);
    }
    LongJoins(46, 45);
  }

  // A first fragment without payload but with padding: the length, an unsigned number,
  // would go below zero.
  lemma PaddingOnly()
    ensures !Roomy([Sentence('A', 2, 1, [], '5')])
  {
    var s := Sentence('A', 2, 1, [], '5');
    assert [s][..0] == [];
    assert Joins([s], 0) && PadBits('5') == 5;
  }

  // A "w" ends in a one.
  lemma {:induction false} LastOne(data: seq<byte>, i: nat)
    requires i < |data| && data[i] == 119
    ensures Payload(data)[6 * i + 5] == 1
  {
    if i < |data| - 1 {
      LastOne(data[..|data| - 1], i);
    } else {
      OneCharacter();
    }
  }

  //////////////////////////////////////////////////////////////////////////////
  // Zeros for padding
  //////////////////////////////////////////////////////////////////////////////

  ghost predicate ZeroTrim(s: Sentence)
  {
    forall k :: 0 <= k < 6 * |s.data| && k >= 6 * |s.data| - PadBits(s.pad) ==> Payload(s.data)[k] == 0
  }

  // A sentence leaves zeros in the padding that it does not end its message with.
  ghost predicate ZeroPadded(s: Sentence)
  {
    PadBits(s.pad) <= 6 * |s.data| && (s.ifrag != s.nfrags ==> ZeroTrim(s))
  }

  // Bits, and zeros to the end of the buffer.
  function ZeroFilled(vs: seq<bit>): (r: seq<bit>)
    ensures |r| == BUFFER_BITS
  {
    seq(BUFFER_BITS, k requires 0 <= k => if k < |vs| then vs[k] else 0)
  }

  lemma NeverStray(p: seq<Sentence>, pos: nat)
    requires forall f :: f in p ==> ZeroTrim(f)
    ensures !Stray(p, pos)
  {
    hide BitsOf, Payload;
    forall j: nat | j < |p| ensures !StrayIn(|BitsOf(p[..j])|, p[j], pos) {
      assert p[j] in p && ZeroTrim(p[j]);
    }
  }

  lemma {:induction false} CleanBuffer(p: seq<Sentence>)
    requires AllProper(p) && forall f :: f in p ==> ZeroTrim(f)
    ensures BufferOf(p) == ZeroFilled(BitsOf(p)) && |BitsOf(p)| <= BUFFER_BITS
  {
    hide BitsOf, BufferOf, Stray, ZeroTrim, AllProper, Payload;
    CollectedIff(p);
    forall j | 0 <= j < |p| ensures NoClash(p[..j], p[j]) {
      forall pos: nat ensures !Stray(p[..j], pos) {
        NeverStray(p[..j], pos);
      }
    }
    var raw: seq<bit>, m := BufferOf(p), BitsOf(p);
    BufferLength(p);
    forall pos: nat | pos < BUFFER_BITS ensures raw[pos] == ZeroFilled(m)[pos] {
      if pos < |m| {
        assert raw[..|m|][pos] == m[pos];
      } else {
        BufferBeyond(p, pos);
        NeverStray(p, pos);
        var b: bit := raw[pos];
      }
    }
  }

  lemma BufferLength(p: seq<Sentence>)
    ensures |BufferOf(p)| == BUFFER_BITS
  {
  }

  lemma ZeroFilledOr(m: seq<bit>, vs: seq<bit>)
    requires |m| + |vs| <= BUFFER_BITS
    ensures OrInto(ZeroFilled(m), |m|, vs) == ZeroFilled(m + vs)
  {
  }

  // The last fragment may pad with anything: the buffer then holds all of its payload.
  lemma LastBuffer(p: seq<Sentence>, s: Sentence)
    requires AllProper(p + [s]) && forall f :: f in p ==> ZeroTrim(f)
    ensures BufferOf(p + [s]) == ZeroFilled(BitsOf(p) + Payload(s.data))
  {
    hide BitsOf, BufferOf, Payload, ZeroTrim, OrInto, ZeroFilled;
    var q := p + [s];
    AllProperPrefix(q, |p|);
    assert q[..|p|] == p && q[|p|] == s;
    ProperAt(q, |p|);
    hide AllProper;
    CleanBuffer(p);
    BufferNext(p, s);
    ZeroFilledOr(BitsOf(p), Payload(s.data));
  }

  // Pending fragments are none that end a message.
  lemma {:induction false} PendingOpen(xs: seq<Sentence>)
    requires forall s :: s in xs ==> ZeroPadded(s)
    ensures forall f :: f in PendingAfter(xs) ==> ZeroTrim(f)
  {
    hide ZeroTrim;
    if xs != [] {
      var n := |xs| - 1;
      forall s | s in xs[..n] ensures ZeroPadded(s) {
        assert s in xs;
      }
      PendingOpen(xs[..n]);
      assert xs[n] in xs && ZeroPadded(xs[n]);
    }
  }

  //////////////////////////////////////////////////////////////////////////////
  // Pairing of type 24 reports
  //////////////////////////////////////////////////////////////////////////////

  ghost predicate IsStatic(o: Outcome)
  {
    o.StaticA? || o.StaticB?
  }

  // The memory of a context changes with type 24 reports only.
  lemma StepMemory(c: Ctx, s: Sentence, d: Ctx, o: Outcome)
    requires IsStep(c, s, d, o)
    ensures o.StaticA? ==> d.mmsi24 == o.mmsi && d.name24 == o.name
    ensures o.StaticB? ==> c.mmsi24 == o.mmsi && c.name24 == o.name && d.mmsi24 == 0
    ensures !IsStatic(o) ==> d.mmsi24 == c.mmsi24
    ensures !o.StaticA? ==> d.name24 == c.name24
  {
    hide Gathered, TextOf, FieldOf;
  }

  // Report i is a 24A, and no other report of either part came after it up to moment n.
  ghost predicate LatestA(os: seq<Outcome>, i: nat, n: nat, mmsi: nat, name: string)
  {
    i < n <= |os| && os[i] == StaticA(mmsi, name) && forall k :: i < k < n ==> !IsStatic(os[k])
  }

  lemma {:induction false} Memory(cs: seq<Ctx>, xs: seq<Sentence>, os: seq<Outcome>, n: nat)
    requires IsRun(cs, xs, os) && n <= |xs| && cs[0].mmsi24 == 0
    ensures cs[n].mmsi24 != 0 ==> exists i: nat :: LatestA(os, i, n, cs[n].mmsi24, cs[n].name24)
  {
    hide IsStep;
    if n > 0 {
      var m := n - 1;
      Memory(cs, xs, os, m);
      assert IsStep(cs[m], xs[m], cs[m + 1], os[m]);
      StepMemory(cs[m], xs[m], cs[m + 1], os[m]);
      if cs[n].mmsi24 != 0 {
        if os[m].StaticA? {
          assert LatestA(os, m, n, cs[n].mmsi24, cs[n].name24);
        } else {
          var i: nat :| LatestA(os, i, m, cs[m].mmsi24, cs[m].name24);
          assert LatestA(os, i, n, cs[n].mmsi24, cs[n].name24);
        }
      }
    }
  }

  // Every 24B report delivered for a ship with a nonzero MMSI carries the name from the
  // latest 24A on its channel, which was that ship's and has not been used before.
  lemma Pairing(cs: seq<Ctx>, xs: seq<Sentence>, os: seq<Outcome>, j: nat)
    requires IsRun(cs, xs, os) && j < |xs| && cs[0].mmsi24 == 0
    requires os[j].StaticB? && os[j].mmsi != 0
    ensures exists i: nat :: LatestA(os, i, j, os[j].mmsi, os[j].name)
  {
    assert IsStep(cs[j], xs[j], cs[j + 1], os[j]);
    StepMemory(cs[j], xs[j], cs[j + 1], os[j]);
    Memory(cs, xs, os, j);
  }

  //////////////////////////////////////////////////////////////////////////////
  // What every sentence returns
  //////////////////////////////////////////////////////////////////////////////

  // The MMSI of the latest type 24 report, if it is a 24A that no 24B has used.
  function Waiting24(os: seq<Outcome>): nat
  {
    if os == [] then 0
    else
      match os[|os| - 1]
      case StaticA(mmsi, _) => mmsi
      case StaticB(_, _) => 0
      case _ => Waiting24(os[..|os| - 1])
  }

  // The name in the latest 24A.
  function Name24(os: seq<Outcome>): string
  {
    if os == [] then ""
    else if os[|os| - 1].StaticA? then os[|os| - 1].name
    else Name24(os[..|os| - 1])
  }

  // The reference decoder: a message m, the same with the padding it was sent with, and
  // what the sentences before it returned.
  function Report(m: seq<bit>, sent: seq<bit>, os: seq<Outcome>): Outcome
  {
    var all := ZeroFilled(sent);
    var typ, mmsi := FieldOf(all, 0, 6), FieldOf(all, 8, 30);
    if typ != 24 then Message(typ, mmsi, m)
    else
      match FieldOf(all, 38, 2)
      case 0 => if |m| == 160 then StaticA(mmsi, TextOf(m, 40, 20)) else Refused
      case 1 => if |m| == 168 && Waiting24(os) == mmsi then StaticB(mmsi, Name24(os)) else Refused
      case _ => Refused
  }

  // The reference machine: what each sentence of a run returns, from the sentences alone.
  function Outcomes(xs: seq<Sentence>): (os: seq<Outcome>)
    ensures |os| == |xs|
  {
    if xs == [] then []
    else
      var n := |xs| - 1;
      var os, p, s := Outcomes(xs[..n]), PendingAfter(xs[..n]), xs[n];
      os + [if !Accepted(|p|, s) then OutOfOrder
            else if s.ifrag != s.nfrags then Waiting
            else Report(BitsOf(Joined(p, s)), BitsOf(Before(p, s)) + Payload(s.data), os)]
  }

  lemma {:induction false} Remembers(cs: seq<Ctx>, xs: seq<Sentence>, os: seq<Outcome>, i: nat)
    requires IsRun(cs, xs, os) && cs[0] == INITIAL && i <= |xs|
    ensures cs[i].mmsi24 == Waiting24(os[..i]) && cs[i].name24 == Name24(os[..i])
  {
    hide IsStep;
    if i > 0 {
      Remembers(cs, xs, os, i - 1);
      assert os[..i][..i - 1] == os[..i - 1] && os[..i][i - 1] == os[i - 1];
      assert IsStep(cs[i - 1], xs[i - 1], cs[i], os[i - 1]);
      StepMemory(cs[i - 1], xs[i - 1], cs[i], os[i - 1]);
    } else {
      assert os[..0] == [];
    }
  }

  lemma FieldPrefix(raw: seq<bit>, n: nat, start: nat, width: nat)
    requires start + width <= n <= |raw|
    ensures FieldOf(raw[..n], start, width) == FieldOf(raw, start, width)
  {
    assert raw[..n][start..start + width] == raw[start..start + width];
  }

  lemma TextPrefix(raw: seq<bit>, n: nat, start: nat, len: nat)
    requires start + 6 * len <= n <= |raw|
    ensures TextOf(raw[..n], start, len) == TextOf(raw, start, len)
  {
    forall i | 0 <= i < len ensures SixCharAt(raw[..n], start + 6 * i) == SixCharAt(raw, start + 6 * i) {
      FieldPrefix(raw, n, start + 6 * i, 6);
    }
    assert CharsOf(raw[..n], start, len) == CharsOf(raw, start, len);
  }

  // A complete message is reported as the reference says.
  lemma CompleteReports(d: Ctx, m: seq<bit>, sent: seq<bit>, os: seq<Outcome>)
    requires d.raw == ZeroFilled(sent) && |m| == d.bitlen <= BUFFER_BITS && d.raw[..d.bitlen] == m
    requires d.mmsi24 == Waiting24(os) && d.name24 == Name24(os)
    ensures Complete(d).1 == Report(m, sent, os)
  {
    if d.bitlen == 160 {
      TextPrefix(d.raw, 160, 40, 20);
    }
    hide FieldOf, TextOf, ZeroFilled, Waiting24, Name24;
  }

  lemma LastOutcome(c: Ctx, p: seq<Sentence>, s: Sentence, d: Ctx, o: Outcome, os: seq<Outcome>)
    requires Holds(c, p) && IsStep(c, s, d, o) && c.mmsi24 == Waiting24(os) && c.name24 == Name24(os)
    requires Accepted(|p|, s) ==> AllProper(Joined(p, s))
    requires forall f :: f in p ==> ZeroTrim(f)
    ensures o == if !Accepted(|p|, s) then OutOfOrder
                 else if s.ifrag != s.nfrags then Waiting
                 else Report(BitsOf(Joined(p, s)), BitsOf(Before(p, s)) + Payload(s.data), os)
  {
    hide BitsOf, BufferOf, Payload, ZeroTrim, AllProper, Complete, Gathered, Report, Waiting24, Name24;
    if Accepted(|p|, s) && s.ifrag == s.nfrags {
      GatheredIs(c, p, s);
      LastBuffer(Before(p, s), s);
      SentWhole(Before(p, s), s);
      var m, sent := BitsOf(Joined(p, s)), BitsOf(Before(p, s)) + Payload(s.data);
      CompleteReports(Ctx(0, BufferOf(Joined(p, s)), |m|, c.mmsi24, c.name24), m, sent, os);
    }
  }

  lemma SentWhole(p: seq<Sentence>, s: Sentence)
    requires AllProper(p + [s])
    ensures var m, sent := BitsOf(p + [s]), BitsOf(p) + Payload(s.data);
      |m| <= |sent| <= BUFFER_BITS && ZeroFilled(sent)[..|m|] == m
  {
    hide BitsOf, Payload;
    var q := p + [s];
    assert q[..|p|] == p && q[|p|] == s;
    ProperAt(q, |p|);
    hide AllProper;
    BitsOfNext(p, s);
    var sent := BitsOf(p) + Payload(s.data);
    assert sent[..|BitsOf(p)| + |Kept(s)|] == BitsOf(p) + Kept(s);
    assert |Payload(s.data)| == 6 * |s.data| by { PayloadLength(s.data); }
  }

  lemma OutcomeAt(cs: seq<Ctx>, xs: seq<Sentence>, os: seq<Outcome>, i: nat)
    requires IsRun(cs, xs, os) && cs[0] == INITIAL && i < |xs|
    requires forall s :: s in xs ==> ZeroPadded(s)
    ensures var p, s := PendingAfter(xs[..i]), xs[i];
      os[i] == if !Accepted(|p|, s) then OutOfOrder
               else if s.ifrag != s.nfrags then Waiting
               else Report(BitsOf(Joined(p, s)), BitsOf(Before(p, s)) + Payload(s.data), os[..i])
    ensures Joins(xs, i) ==> AllProper(FragmentsAt(xs, i))
  {
    hide BitsOf, BufferOf, Payload, ZeroTrim, Report, Waiting24, Name24;
    assert IsStep(cs[i], xs[i], cs[i + 1], os[i]);
    Remembers(cs, xs, os, i);
    Buffer(cs, xs, os, i);
    forall j | 0 <= j < |xs| ensures PadBits(xs[j].pad) <= 6 * |xs[j].data| {
      assert ZeroPadded(xs[j]);
    }
    PendingProper(cs, xs, os, i);
    forall s | s in xs[..i] ensures ZeroPadded(s) {
      assert s in xs;
    }
    PendingOpen(xs[..i]);
    hide IsStep, Holds, AllProper;
    LastOutcome(cs[i], PendingAfter(xs[..i]), xs[i], cs[i + 1], os[i], os[..i]);
  }

  // Over every run of sentences that pad with zeros, every sentence returns what the
  // reference machine says.
  lemma {:induction false} Reassembly(cs: seq<Ctx>, xs: seq<Sentence>, os: seq<Outcome>, n: nat)
    requires IsRun(cs, xs, os) && cs[0] == INITIAL && n <= |xs|
    requires forall s :: s in xs ==> ZeroPadded(s)
    ensures os[..n] == Outcomes(xs[..n])
  {
    hide BitsOf, BufferOf, Payload, ZeroPadded, Report, IsStep, PendingAfter, AllProper;
    if n > 0 {
      Reassembly(cs, xs, os, n - 1);
      OutcomeAt(cs, xs, os, n - 1);
      assert xs[..n][..n - 1] == xs[..n - 1];
      assert os[..n] == os[..n - 1] + [os[n - 1]];
    }
  }

  // No 24A is left that a 24B has not used.
  ghost predicate NothingWaits(os: seq<Outcome>, n: nat)
    requires n <= |os|
  {
    forall j {:trigger os[j]} :: 0 <= j < n && os[j].StaticA? ==> UsedBy(os, j, n)
  }

  ghost predicate UsedBy(os: seq<Outcome>, j: nat, n: nat)
    requires n <= |os|
  {
    exists k :: j < k < n && os[k].StaticB?
  }

  ghost predicate LatestIs(os: seq<Outcome>, n: nat, mmsi: nat)
  {
    exists j: nat, name :: LatestA(os, j, n, mmsi, name)
  }

  lemma {:induction false} WaitingIff(os: seq<Outcome>, n: nat, mmsi: nat)
    requires n <= |os|
    ensures Waiting24(os[..n]) == mmsi <==> LatestIs(os, n, mmsi) || (mmsi == 0 && NothingWaits(os, n))
  {
    if n > 0 {
      WaitingIff(os, n - 1, mmsi);
      assert os[..n][..n - 1] == os[..n - 1];
      WaitingStep(os, n, mmsi);
    }
  }

  lemma WaitingStep(os: seq<Outcome>, n: nat, mmsi: nat)
    requires 0 < n <= |os|
    ensures os[n - 1].StaticA? ==> (LatestIs(os, n, mmsi) <==> os[n - 1].mmsi == mmsi) && !NothingWaits(os, n)
    ensures os[n - 1].StaticB? ==> !LatestIs(os, n, mmsi) && NothingWaits(os, n)
    ensures !IsStatic(os[n - 1]) ==> (LatestIs(os, n, mmsi) <==> LatestIs(os, n - 1, mmsi))
    ensures !IsStatic(os[n - 1]) ==> (NothingWaits(os, n) <==> NothingWaits(os, n - 1))
  {
    var o := os[n - 1];
    if o.StaticA? {
      if o.mmsi == mmsi {
        assert LatestA(os, n - 1, n, mmsi, o.name);
      }
      assert !UsedBy(os, n - 1, n);
    } else if o.StaticB? {
      forall j | 0 <= j < n && os[j].StaticA? ensures UsedBy(os, j, n) {
        assert j < n - 1;
      }
    } else {
      if j: nat, name :| LatestA(os, j, n, mmsi, name) {
        assert LatestA(os, j, n - 1, mmsi, name);
      }
      var m := n - 1;
      if j: nat, name :| LatestA(os, j, m, mmsi, name) {
        assert LatestA(os, j, n, mmsi, name);
      }
      forall j: nat | j < n ensures UsedBy(os, j, n) <==> UsedBy(os, j, n - 1) {
        if UsedBy(os, j, n) {
          var k :| j < k < n && os[k].StaticB?;
          assert k < n - 1;
        }
      }
      if NothingWaits(os, n) {
        forall j | 0 <= j < n - 1 && os[j].StaticA? ensures UsedBy(os, j, n - 1) {
          assert UsedBy(os, j, n);
        }
      }
      if NothingWaits(os, n - 1) {
        forall j | 0 <= j < n && os[j].StaticA? ensures UsedBy(os, j, n) {
          assert UsedBy(os, j, n - 1);
        }
      }
    }
  }

  // A complete context that reads as a 24B of the right size.
  ghost predicate Is24B(raw: seq<bit>, n: nat)
  {
    n == 168 && |raw| >= 168 && FieldOf(raw, 0, 6) == 24 && FieldOf(raw, 38, 2) == 1
  }

  lemma Complete24B(d: Ctx)
    requires |d.raw| == BUFFER_BITS && Is24B(d.raw, d.bitlen)
    ensures Complete(d).1 == if d.mmsi24 == FieldOf(d.raw, 8, 30) then StaticB(d.mmsi24, d.name24) else Refused
  {
    hide FieldOf, TextOf;
  }

  // On every run, whatever the padding: what the buffer reads as a 24B of the right size is
  // delivered if and only if the latest type 24 report on the channel is a 24A of the same
  // ship, or no 24A waits and the MMSI is 0, which the context takes for "no 24A yet".
  lemma SecondHalf(cs: seq<Ctx>, xs: seq<Sentence>, os: seq<Outcome>, i: nat)
    requires IsRun(cs, xs, os) && cs[0] == INITIAL && i < |xs| && Joins(xs, i) && xs[i].ifrag == xs[i].nfrags
    requires Is24B(BufferOf(FragmentsAt(xs, i)), |BitsOf(FragmentsAt(xs, i))|)
    ensures var mmsi := FieldOf(BufferOf(FragmentsAt(xs, i)), 8, 30);
      && (os[i].StaticB? <==> LatestIs(os, i, mmsi) || (mmsi == 0 && NothingWaits(os, i)))
      && os[i] == if os[i].StaticB? then StaticB(mmsi, Name24(os[..i])) else Refused
  {
    hide BitsOf, BufferOf, Gathered, Complete, FieldOf, Is24B, PendingAfter;
    hide Waiting24, LatestIs, NothingWaits, Name24;
    assert IsStep(cs[i], xs[i], cs[i + 1], os[i]);
    Buffer(cs, xs, os, i);
    Remembers(cs, xs, os, i);
    GatheredIs(cs[i], PendingAfter(xs[..i]), xs[i]);
    var q := FragmentsAt(xs, i);
    Complete24B(Ctx(0, BufferOf(q), |BitsOf(q)|, cs[i].mmsi24, cs[i].name24));
    WaitingIff(os, i, FieldOf(BufferOf(q), 8, 30));
  }

  // A 24B of the right size is delivered if and only if the latest type 24 report on its
  // channel is a 24A of the same ship, or no 24A waits and the MMSI is 0.
  lemma Delivered(cs: seq<Ctx>, xs: seq<Sentence>, os: seq<Outcome>, i: nat)
    requires IsRun(cs, xs, os) && cs[0] == INITIAL && i < |xs| && Joins(xs, i) && xs[i].ifrag == xs[i].nfrags
    requires forall s :: s in xs ==> ZeroPadded(s)
    requires var m := BitsOf(FragmentsAt(xs, i));
      |m| == 168 && FieldOf(m, 0, 6) == 24 && FieldOf(m, 38, 2) == 1
    ensures var mmsi := FieldOf(BitsOf(FragmentsAt(xs, i)), 8, 30);
      && (os[i].StaticB? <==> LatestIs(os, i, mmsi) || (mmsi == 0 && NothingWaits(os, i)))
      && (os[i].StaticB? ==> os[i] == StaticB(mmsi, Name24(os[..i])))
  {
    OutcomeAt(cs, xs, os, i);
    hide BitsOf, Payload, ZeroPadded, IsStep, PendingAfter, AllProper, FieldOf, TextOf, ZeroFilled;
    hide Waiting24, LatestIs, NothingWaits, Name24;
    var p, s := PendingAfter(xs[..i]), xs[i];
    var m, sent := BitsOf(Joined(p, s)), BitsOf(Before(p, s)) + Payload(s.data);
    SentWhole(Before(p, s), s);
    ZeroFilledLength(sent);
    FieldPrefix(ZeroFilled(sent), 168, 0, 6);
    FieldPrefix(ZeroFilled(sent), 168, 8, 30);
    FieldPrefix(ZeroFilled(sent), 168, 38, 2);
    WaitingIff(os, i, FieldOf(m, 8, 30));
  }

  lemma ZeroFilledLength(vs: seq<bit>)
    ensures |ZeroFilled(vs)| == BUFFER_BITS
  {
  }

  //////////////////////////////////////////////////////////////////////////////
  // The two channels
  //////////////////////////////////////////////////////////////////////////////

  // The context a channel field selects: an empty field or '1' counts as A, '2' as B.
  function ChannelOf(c: char): int
  {
    if c == '\0' || c == '1' || c == 'A' then 0
    else if c == '2' || c == 'B' then 1
    else -1
  }

  class Receiver {
    const a: Context
    const b: Context

    ghost predicate Valid()
      reads this, a, b
    {
      a.Valid() && b.Valid() && a.Repr !! b.Repr && this !in a.Repr + b.Repr
    }

    constructor ()
      ensures Valid() && fresh(a.Repr) && fresh(b.Repr)
      ensures a.Value() == INITIAL && b.Value() == INITIAL
    {
      a := new Context();
      b := new Context();
    }

    method Decode(s: Sentence) returns (o: Outcome)
      requires Valid()
      requires ChannelOf(s.channel) == 0 ==> Fits(a.Value(), s)
      requires ChannelOf(s.channel) == 1 ==> Fits(b.Value(), s)
      modifies a.Repr, b.Repr
      ensures Valid()
      ensures IsDualStep((old(a.Value()), old(b.Value())), s, (a.Value(), b.Value()), o)
    {
      match ChannelOf(s.channel)
      case 0 => o := a.Decode(s);
      case 1 => o := b.Decode(s);
      case _ => o := BadChannel;
    }
  }

  ghost predicate IsDualStep(c: (Ctx, Ctx), s: Sentence, d: (Ctx, Ctx), o: Outcome)
  {
    match ChannelOf(s.channel)
    case 0 => IsStep(c.0, s, d.0, o) && d.1 == c.1
    case 1 => IsStep(c.1, s, d.1, o) && d.0 == c.0
    case _ => d == c && o == BadChannel
  }

  // Which letters go to which context.
  lemma ByLetter(c: (Ctx, Ctx), s: Sentence, d: (Ctx, Ctx), o: Outcome)
    requires IsDualStep(c, s, d, o)
    ensures s.channel in ['A', '1', '\0'] ==> IsStep(c.0, s, d.0, o) && d.1 == c.1
    ensures s.channel in ['B', '2'] ==> IsStep(c.1, s, d.1, o) && d.0 == c.0
    ensures s.channel !in ['A', '1', '\0', 'B', '2'] ==> o == BadChannel && d == c
  {
    hide IsStep;
  }

  // A run of the receiver on sentences of both channels.
  ghost predicate IsDualRun(cs: seq<(Ctx, Ctx)>, xs: seq<Sentence>, os: seq<Outcome>)
  {
    && |cs| == |xs| + 1 && |os| == |xs|
    && forall i :: 0 <= i < |xs| ==> IsDualStep(cs[i], xs[i], cs[i + 1], os[i])
  }

  function Side(c: (Ctx, Ctx), ch: int): Ctx
  {
    if ch == 0 then c.0 else c.1
  }

  // The sentences of one channel, and their outcomes.
  function OnChannel(xs: seq<Sentence>, ch: int): seq<Sentence>
  {
    if xs == [] then []
    else OnChannel(xs[..|xs| - 1], ch) + (if ChannelOf(xs[|xs| - 1].channel) == ch then [xs[|xs| - 1]] else [])
  }

  function OutcomesOn(xs: seq<Sentence>, os: seq<Outcome>, ch: int): seq<Outcome>
    requires |xs| == |os|
  {
    if xs == [] then []
    else OutcomesOn(xs[..|xs| - 1], os[..|xs| - 1], ch) + (if ChannelOf(xs[|xs| - 1].channel) == ch then [os[|xs| - 1]] else [])
  }

  // One channel's share of a run is a run of that channel alone.
  lemma {:induction false} Projection(cs: seq<(Ctx, Ctx)>, xs: seq<Sentence>, os: seq<Outcome>, ch: int) returns (ds: seq<Ctx>)
    requires IsDualRun(cs, xs, os) && (ch == 0 || ch == 1)
    ensures IsRun(ds, OnChannel(xs, ch), OutcomesOn(xs, os, ch))
    ensures ds[0] == Side(cs[0], ch) && ds[|ds| - 1] == Side(cs[|cs| - 1], ch)
  {
    hide IsStep;
    if xs == [] {
      ds := [Side(cs[0], ch)];
    } else {
      var n := |xs| - 1;
      ds := Projection(cs[..n + 1], xs[..n], os[..n], ch);
      assert IsDualStep(cs[n], xs[n], cs[n + 1], os[n]);
      if ChannelOf(xs[n].channel) == ch {
        ds := ds + [Side(cs[n + 1], ch)];
      }
    }
  }

  lemma {:induction false} RunDeterministic(cs: seq<Ctx>, ds: seq<Ctx>, xs: seq<Sentence>,
                                            os: seq<Outcome>, ps: seq<Outcome>, n: nat)
    requires IsRun(cs, xs, os) && IsRun(ds, xs, ps) && cs[0] == ds[0] && n <= |xs|
    ensures cs[n] == ds[n] && os[..n] == ps[..n]
  {
    if n > 0 {
      RunDeterministic(cs, ds, xs, os, ps, n - 1);
      assert IsStep(cs[n - 1], xs[n - 1], cs[n], os[n - 1]) && IsStep(ds[n - 1], xs[n - 1], ds[n], ps[n - 1]);
      assert os[..n] == os[..n - 1] + [os[n - 1]] && ps[..n] == ps[..n - 1] + [ps[n - 1]];
    }
  }

  // What is decoded on one channel does not depend on the other channel's sentences: two
  // runs with the same sentences on a channel return the same on it.
  lemma ChannelIndependence(cs: seq<(Ctx, Ctx)>, xs: seq<Sentence>, os: seq<Outcome>,
                            ds: seq<(Ctx, Ctx)>, ys: seq<Sentence>, ps: seq<Outcome>, ch: int)
    requires IsDualRun(cs, xs, os) && IsDualRun(ds, ys, ps) && (ch == 0 || ch == 1)
    requires Side(cs[0], ch) == Side(ds[0], ch) && OnChannel(xs, ch) == OnChannel(ys, ch)
    ensures OutcomesOn(xs, os, ch) == OutcomesOn(ys, ps, ch)
    ensures Side(cs[|xs|], ch) == Side(ds[|ys|], ch)
  {
    var es := Projection(cs, xs, os, ch);
    var fs := Projection(ds, ys, ps, ch);
    var n := |OnChannel(xs, ch)|;
    RunDeterministic(es, fs, OnChannel(xs, ch), OutcomesOn(xs, os, ch), OutcomesOn(ys, ps, ch), n);
    assert OutcomesOn(xs, os, ch)[..n] == OutcomesOn(xs, os, ch);
    assert OutcomesOn(ys, ps, ch)[..n] == OutcomesOn(ys, ps, ch);
  }

  // The next sentence of a channel fits the context that has taken those before it.
  lemma NextFits(c: Ctx, ys: seq<Sentence>)
    requires ys != [] && Roomy(ys) && Holds(c, PendingAfter(ys[..|ys| - 1]))
    ensures |c.raw| == BUFFER_BITS && Fits(c, ys[|ys| - 1])
  {
    hide HasRoom, PendingAfter, BitsOf, BufferOf, Fits;
    var n := |ys| - 1;
    FitsIff(c, PendingAfter(ys[..n]), ys[n]);
    assert Accepted(|PendingAfter(ys[..n])|, ys[n]) ==> Joins(ys, n);
  }

  lemma SideHolds(cs: seq<(Ctx, Ctx)>, xs: seq<Sentence>, os: seq<Outcome>, ch: int)
    requires IsDualRun(cs, xs, os) && cs[0] == (INITIAL, INITIAL) && (ch == 0 || ch == 1)
    ensures Holds(Side(cs[|xs|], ch), PendingAfter(OnChannel(xs, ch)))
  {
    hide Holds, IsDualStep, IsStep, PendingAfter;
    var ds := Projection(cs, xs, os, ch);
    var ys := OnChannel(xs, ch);
    Buffer(ds, ys, OutcomesOn(xs, os, ch), |ys|);
    assert ys[..|ys|] == ys;
  }

  lemma OnChannelLast(xs: seq<Sentence>, ch: int)
    requires xs != []
    ensures var n, ys := |xs| - 1, OnChannel(xs, ch);
      if ChannelOf(xs[n].channel) == ch
      then ys != [] && ys[|ys| - 1] == xs[n] && ys[..|ys| - 1] == OnChannel(xs[..n], ch)
      else ys == OnChannel(xs[..n], ch)
  {
  }

  lemma EarlierRoomy(xs: seq<Sentence>, ch: int)
    requires xs != [] && Roomy(OnChannel(xs, ch))
    ensures Roomy(OnChannel(xs[..|xs| - 1], ch))
  {
    hide Roomy;
    OnChannelLast(xs, ch);
    var ys := OnChannel(xs, ch);
    if ChannelOf(xs[|xs| - 1].channel) == ch {
      RoomyPrefix(ys, |ys| - 1);
    }
  }

  lemma NextDual(c: (Ctx, Ctx), xs: seq<Sentence>) returns (d: (Ctx, Ctx), o: Outcome)
    requires xs != [] && Roomy(OnChannel(xs, 0)) && Roomy(OnChannel(xs, 1))
    requires Holds(c.0, PendingAfter(OnChannel(xs[..|xs| - 1], 0)))
    requires Holds(c.1, PendingAfter(OnChannel(xs[..|xs| - 1], 1)))
    ensures IsDualStep(c, xs[|xs| - 1], d, o)
  {
    hide Roomy, Holds, OnChannel, PendingAfter, Fits, Step;
    var s := xs[|xs| - 1];
    OnChannelLast(xs, 0);
    OnChannelLast(xs, 1);
    if ChannelOf(s.channel) == 0 {
      NextFits(c.0, OnChannel(xs, 0));
      var (e, p) := Step(c.0, s);
      d, o := (e, c.1), p;
    } else if ChannelOf(s.channel) == 1 {
      NextFits(c.1, OnChannel(xs, 1));
      var (e, p) := Step(c.1, s);
      d, o := (c.0, e), p;
    } else {
      d, o := c, BadChannel;
    }
  }

  lemma {:induction false} DualRuns(xs: seq<Sentence>) returns (cs: seq<(Ctx, Ctx)>, os: seq<Outcome>)
    requires Roomy(OnChannel(xs, 0)) && Roomy(OnChannel(xs, 1))
    ensures IsDualRun(cs, xs, os) && cs[0] == (INITIAL, INITIAL)
  {
    hide Roomy, Holds, OnChannel, PendingAfter, IsDualStep;
    if xs == [] {
      cs, os := [(INITIAL, INITIAL)], [];
    } else {
      var n := |xs| - 1;
      EarlierRoomy(xs, 0);
      EarlierRoomy(xs, 1);
      cs, os := DualRuns(xs[..n]);
      SideHolds(cs, xs[..n], os, 0);
      SideHolds(cs, xs[..n], os, 1);
      var d, o := NextDual(cs[n], xs);
      cs, os := Extended(cs, xs, os, d, o);
    }
  }

  lemma Extended(cs: seq<(Ctx, Ctx)>, xs: seq<Sentence>, os: seq<Outcome>, d: (Ctx, Ctx), o: Outcome)
    returns (ds: seq<(Ctx, Ctx)>, ps: seq<Outcome>)
    requires xs != [] && IsDualRun(cs, xs[..|xs| - 1], os) && IsDualStep(cs[|xs| - 1], xs[|xs| - 1], d, o)
    ensures IsDualRun(ds, xs, ps) && ds[0] == cs[0]
  {
    hide IsDualStep;
    var n := |xs| - 1;
    ds, ps := cs + [d], os + [o];
    forall i | 0 <= i < |xs| ensures IsDualStep(ds[i], xs[i], ds[i + 1], ps[i]) {
      if i < n {
        assert xs[..n][i] == xs[i];
        assert IsDualStep(cs[i], xs[..n][i], cs[i + 1], os[i]);
      }
    }
  }

  // The receiver gets through a run of sentences, on both channels, if and only if every
  // fragment that is accepted on either has room.
  lemma DualRunExists(xs: seq<Sentence>)
    ensures (exists cs, os :: IsDualRun(cs, xs, os) && cs[0] == (INITIAL, INITIAL))
       <==> Roomy(OnChannel(xs, 0)) && Roomy(OnChannel(xs, 1))
  {
    hide Roomy, IsDualStep, IsStep, OnChannel;
    if Roomy(OnChannel(xs, 0)) && Roomy(OnChannel(xs, 1)) {
      var cs, os := DualRuns(xs);
      assert IsDualRun(cs, xs, os);
    }
    if cs: seq<(Ctx, Ctx)>, os: seq<Outcome> :| IsDualRun(cs, xs, os) && cs[0] == (INITIAL, INITIAL) {
      var ds := Projection(cs, xs, os, 0);
      RunsRoomy(ds, OnChannel(xs, 0), OutcomesOn(xs, os, 0));
      var es := Projection(cs, xs, os, 1);
      RunsRoomy(es, OnChannel(xs, 1), OutcomesOn(xs, os, 1));
    }
  }
}
