/**
 The sending side of RTCM-104 2.x: records written field by field into the data bits of
 30-bit words.  What rtcm2_unpack makes of the words is what was written.
 */
module Rtcm2Sender {
  import opened Bitwise
  import opened Bits
  import opened Fields
  import opened Rtcm2

  //////////////////////////////////////////////////////////////////////////////
  // Words
  //////////////////////////////////////////////////////////////////////////////

  // Three data bytes above six bits of parity.
  function Word(a: byte, b: byte, c: byte, parity: nat): nat
  {
    a * 0x40_0000 + b * 0x4000 + c * 0x40 + parity
  }

  function ByteAt(s: seq<byte>, i: nat): byte
  {
    if i < |s| then s[i] else 0
  }

  function Words(s: seq<byte>, parity: seq<nat>): (ws: seq<nat>)
    ensures |ws| == |parity|
  {
    seq(|parity|, i requires 0 <= i < |parity| =>
      Word(ByteAt(s, 3 * i), ByteAt(s, 3 * i + 1), ByteAt(s, 3 * i + 2), parity[i]))
  }

  lemma SliceAt(w: nat, h: nat, v: byte, l: nat, lo: nat)
    requires l < Pow2(lo) && w == (h * 256 + v) * Pow2(lo) + l
    ensures Slice(w, lo, 8) == v
  {
    Pow2Values();
    hide Pow2, ShiftRight, LowBits;
    ShiftJoin(h * 256 + v, l, lo);
    ShiftJoin(h, v, 8);
  }

  lemma SmallPowers()
    ensures Pow2(6) == 0x40 && Pow2(14) == 0x4000 && Pow2(22) == 0x40_0000
  {
    Pow2Values();
    Pow2Add(8, 6);
    Pow2Add(16, 6);
  }

  lemma WordBytes(a: byte, b: byte, c: byte, parity: nat)
    requires parity < 64
    ensures var w := Word(a, b, c, parity); DataByte(w, 0) == a && DataByte(w, 1) == b && DataByte(w, 2) == c
  {
    SmallPowers();
    hide Slice, Pow2;
    var w := Word(a, b, c, parity);
    SliceAt(w, 0, a, b * 0x4000 + c * 0x40 + parity, 22);
    SliceAt(w, a, b, c * 0x40 + parity, 14);
    SliceAt(w, a * 256 + b, c, parity, 6);
  }

  lemma WordInStream(s: seq<byte>, parity: seq<nat>, i: nat)
    requires i < |parity| && parity[i] < 64
    ensures var t := Stream(Words(s, parity));
      && 3 * i + 2 < |t| == 3 * |parity|
      && t[3 * i] == ByteAt(s, 3 * i) && t[3 * i + 1] == ByteAt(s, 3 * i + 1) && t[3 * i + 2] == ByteAt(s, 3 * i + 2)
  {
    hide DataByte, Word, ByteAt, Stream;
    var ws := Words(s, parity);
    WordBytes(ByteAt(s, 3 * i), ByteAt(s, 3 * i + 1), ByteAt(s, 3 * i + 2), parity[i]);
    StreamBytes(ws, i);
    StreamLength(ws);
  }

  lemma StreamLength(ws: seq<nat>)
    ensures |Stream(ws)| == 3 * |ws|
  {
  }

  lemma Thirds(j: nat)
    ensures j == 3 * (j / 3) || j == 3 * (j / 3) + 1 || j == 3 * (j / 3) + 2
  {
  }

  // The stream of the words is what was put into them, and zeros to the end of a word.
  lemma WordsStream(s: seq<byte>, parity: seq<nat>) returns (pad: seq<byte>)
    requires |s| <= 3 * |parity| && forall i :: 0 <= i < |parity| ==> parity[i] < 64
    ensures Stream(Words(s, parity)) == s + pad
  {
    hide Stream, Words;
    StreamLength(Words(s, parity));
    pad := seq(3 * |parity| - |s|, i => 0);
    var t := Stream(Words(s, parity));
    forall j | 0 <= j < |t| ensures t[j] == (s + pad)[j] {
      Thirds(j);
      WordInStream(s, parity, j / 3);
    }
  }

  //////////////////////////////////////////////////////////////////////////////
  // Records
  //////////////////////////////////////////////////////////////////////////////

  predicate InRange(v: int, width: nat)
    requires width >= 1
  {
    var half: int := Pow2(width - 1);
    -half <= v < half
  }

  function Twos(v: int, width: nat): nat
    requires width >= 1 && InRange(v, width)
  {
    if v < 0 then v + Pow2(width) else v
  }

  lemma SignedTwos(v: int, width: nat)
    requires width >= 1 && InRange(v, width)
    ensures Twos(v, width) < Pow2(width) && Signed(Twos(v, width), width) == v
  {
    NextPow2(width - 1);
    hide Pow2;
  }

  // The scale factor, the range error, the satellite, the pseudorange correction, its rate.
  function Head(large: bool, udre: nat, ident: nat, prc: int, rrc: int): seq<Code>
    requires InRange(prc, 16) && InRange(rrc, 8)
  {
    [Code(if large then 1 else 0, 1), Code(udre, 2), Code(ident, 5), Code(Twos(prc, 16), 16), Code(Twos(rrc, 8), 8)]
  }

  predicate HeadFits(udre: nat, ident: nat, prc: int, rrc: int)
  {
    udre < 4 && ident < 32 && InRange(prc, 16) && InRange(rrc, 8)
  }

  predicate GpsFits(r: GpsSat)
  {
    HeadFits(r.udre, r.ident, r.prc, r.rrc) && r.iod < 256
  }

  // Then the issue of data,
  function GpsCodes(r: GpsSat): seq<Code>
    requires GpsFits(r)
  {
    Head(r.large, r.udre, r.ident, r.prc, r.rrc) + [Code(r.iod, 8)]
  }

  predicate GloFits(r: GloSat)
  {
    HeadFits(r.udre, r.ident, r.prc, r.rrc) && r.tod < 128
  }

  // or the change bit and the time of day.
  function GloCodes(r: GloSat): seq<Code>
    requires GloFits(r)
  {
    Head(r.large, r.udre, r.ident, r.prc, r.rrc) + [Code(if r.change then 1 else 0, 1), Code(r.tod, 7)]
  }

  lemma HeadParts(large: bool, udre: nat, ident: nat, prc: int, rrc: int, tail: seq<Code>)
    requires InRange(prc, 16) && InRange(rrc, 8)
    ensures Head(large, udre, ident, prc, rrc) + tail
         == [Code(if large then 1 else 0, 1)] + ([Code(udre, 2)] + ([Code(ident, 5)] + CorrectionCodes(prc, rrc, tail)))
  {
    hide Twos, InRange;
  }

  function CorrectionCodes(prc: int, rrc: int, tail: seq<Code>): seq<Code>
    requires InRange(prc, 16) && InRange(rrc, 8)
  {
    [Code(Twos(prc, 16), 16)] + ([Code(Twos(rrc, 8), 8)] + tail)
  }

  lemma CorrectionSpelled(s: seq<byte>, b: nat, prc: int, rrc: int, tail: seq<Code>)
    requires InRange(prc, 16) && InRange(rrc, 8) && Spells(s, b, CorrectionCodes(prc, rrc, tail))
    ensures b + 24 <= 8 * |s| && Signed(Field(s, b, 16), 16) == prc && Signed(Field(s, b + 16, 8), 8) == rrc
    ensures Spells(s, b + 24, tail)
  {
    SignedTwos(prc, 16);
    SignedTwos(rrc, 8);
    var p, q := Code(Twos(prc, 16), 16), Code(Twos(rrc, 8), 8);
    assert CorrectionCodes(prc, rrc, tail) == [p] + ([q] + tail);
    hide *;
    SpelledOne(s, b, p, [q] + tail);
    SpelledOne(s, b + 16, q, tail);
  }

  lemma HeadSpelled(s: seq<byte>, b: nat, large: bool, udre: nat, ident: nat, prc: int, rrc: int, tail: seq<Code>)
    requires InRange(prc, 16) && InRange(rrc, 8) && Spells(s, b, Head(large, udre, ident, prc, rrc) + tail)
    ensures b + 32 <= 8 * |s|
    ensures (Field(s, b, 1) == 1 <==> large) && Field(s, b + 1, 2) == udre && Field(s, b + 3, 5) == ident
    ensures Signed(Field(s, b + 8, 16), 16) == prc && Signed(Field(s, b + 24, 8), 8) == rrc
    ensures Spells(s, b + 32, tail)
  {
    hide *;
    HeadParts(large, udre, ident, prc, rrc, tail);
    var l, u, i := Code(if large then 1 else 0, 1), Code(udre, 2), Code(ident, 5);
    var rest := CorrectionCodes(prc, rrc, tail);
    SpelledOne(s, b, l, [u] + ([i] + rest));
    SpelledOne(s, b + 1, u, [i] + rest);
    SpelledOne(s, b + 3, i, rest);
    CorrectionSpelled(s, b + 8, prc, rrc, tail);
  }

  lemma GpsSpelled(s: seq<byte>, k: nat, r: GpsSat)
    requires GpsFits(r) && Spells(s, 40 * k, GpsCodes(r))
    ensures 5 * (k + 1) <= |s| && GpsRecord(s, k) == r
  {
    hide Field, Spells, Signed, Twos, InRange, Head;
    HeadSpelled(s, 40 * k, r.large, r.udre, r.ident, r.prc, r.rrc, [Code(r.iod, 8)]);
    assert [Code(r.iod, 8)] + [] == [Code(r.iod, 8)];
    SpelledOne(s, 40 * k + 32, Code(r.iod, 8), []);
  }

  lemma GloSpelled(s: seq<byte>, k: nat, r: GloSat)
    requires GloFits(r) && Spells(s, 40 * k, GloCodes(r))
    ensures 5 * (k + 1) <= |s| && GloRecord(s, k) == r
  {
    hide Field, Spells, Signed, Twos, InRange, Head;
    var c, t := Code(if r.change then 1 else 0, 1), Code(r.tod, 7);
    HeadSpelled(s, 40 * k, r.large, r.udre, r.ident, r.prc, r.rrc, [c, t]);
    assert [c, t] == [c] + ([t] + []);
    SpelledOne(s, 40 * k + 32, c, [t] + []);
    SpelledOne(s, 40 * k + 33, t, []);
  }

  //////////////////////////////////////////////////////////////////////////////
  // Lists of records
  //////////////////////////////////////////////////////////////////////////////

  // Lists of fields, 40 bits each.
  function Joined(css: seq<seq<Code>>): seq<Code>
  {
    if css == [] then [] else css[0] + Joined(css[1..])
  }

  predicate Record(cs: seq<Code>)
  {
    Width(cs) == 40
  }

  lemma {:induction false} WidthJoined(css: seq<seq<Code>>)
    requires forall k :: 0 <= k < |css| ==> Record(css[k])
    ensures Width(Joined(css)) == 40 * |css|
  {
    hide Record;
    if css != [] {
      assert Record(css[0]);
      WidthJoined(css[1..]);
      WidthConcat(css[0], Joined(css[1..]));
      RecordWidth(css[0]);
    }
  }

  lemma RecordWidth(cs: seq<Code>)
    requires Record(cs)
    ensures Width(cs) == 40
  {
  }

  lemma {:induction false} WidthConcat(cs: seq<Code>, ds: seq<Code>)
    ensures Width(cs + ds) == Width(cs) + Width(ds)
  {
    if cs == [] {
      assert cs + ds == ds;
    } else {
      WidthConcat(cs[1..], ds);
      assert (cs + ds)[0] == cs[0] && (cs + ds)[1..] == cs[1..] + ds;
    }
  }

  lemma FieldFirst(c: Code, cs: seq<Code>)
    ensures Width([c] + cs) == c.width + Width(cs)
    ensures c.value < Pow2(c.width) && Fit(cs) ==> Fit([c] + cs)
  {
    hide Pow2;
    assert ([c] + cs)[1..] == cs;
  }

  lemma NoFields()
    ensures Width([]) == 0 && Fit([])
  {
  }

  lemma {:induction false} EncodedLength(cs: seq<Code>)
    ensures |Encode(cs)| == Width(cs)
  {
    if cs != [] {
      EncodedLength(cs[1..]);
    }
  }

  lemma {:induction false} JoinedFits(css: seq<seq<Code>>)
    requires forall k :: 0 <= k < |css| ==> Fit(css[k])
    ensures Fit(Joined(css))
  {
    hide Pow2;
    if css != [] {
      assert Fit(css[0]);
      JoinedFits(css[1..]);
    }
  }

  // Record k of a joined list stands at bit 40 * k.
  lemma {:induction false} JoinedSpelled(s: seq<byte>, at: nat, css: seq<seq<Code>>, k: nat)
    requires k < |css| && (forall j :: 0 <= j < |css| ==> Record(css[j])) && Spells(s, at, Joined(css))
    ensures Spells(s, at + 40 * k, css[k])
    decreases |css|
  {
    hide Spells, Record;
    SpellsPart(s, at, css[0], Joined(css[1..]));
    if k > 0 {
      assert Record(css[0]);
      RecordWidth(css[0]);
      JoinedSpelled(s, at + 40, css[1..], k - 1);
    }
  }

  // n records of 40 bits fill ceil(5 * n / 3) words, which hold n complete records.
  lemma WordCount(n: nat)
    ensures var m := (5 * n + 2) / 3; 5 * n <= 3 * m && Entries(m) == n && (n <= 18 ==> m < 32)
  {
  }

  lemma SentSpelled(css: seq<seq<Code>>, parity: seq<nat>, k: nat)
    requires k < |css| && forall j :: 0 <= j < |css| ==> Record(css[j]) && Fit(css[j])
    requires |parity| == (5 * |css| + 2) / 3 && forall i :: 0 <= i < |parity| ==> parity[i] < 64
    ensures Spells(Stream(Words(Pack(Encode(Joined(css))), parity)), 40 * k, css[k])
  {
    hide Words, Stream, Pack, Encode, Joined, Spells, Record, Fit, Entries;
    var bits := Encode(Joined(css));
    WidthJoined(css);
    EncodedLength(Joined(css));
    assert |Pack(bits)| == 5 * |css| by {
      PackLength(bits);
    }
    WordCount(|css|);
    var pad := WordsStream(Pack(bits), parity);
    PackedBits(bits, pad);
    JoinedFits(css);
    EncodedSpells(Pack(bits) + pad, 0, Joined(css));
    JoinedSpelled(Pack(bits) + pad, 0, css, k);
  }

  lemma PackLength(s: seq<bit>)
    ensures |Pack(s)| == (|s| + 7) / 8
  {
  }

  lemma CorrectionFits(prc: int, rrc: int, tail: seq<Code>)
    requires InRange(prc, 16) && InRange(rrc, 8) && Fit(tail)
    ensures var cs := CorrectionCodes(prc, rrc, tail); Width(cs) == 24 + Width(tail) && Fit(cs)
  {
    SignedTwos(prc, 16);
    SignedTwos(rrc, 8);
    var p, q := Code(Twos(prc, 16), 16), Code(Twos(rrc, 8), 8);
    assert CorrectionCodes(prc, rrc, tail) == [p] + ([q] + tail);
    hide *;
    FieldFirst(q, tail);
    FieldFirst(p, [q] + tail);
  }

  lemma FieldsFit(udre: nat, ident: nat, prc: int, rrc: int)
    requires HeadFits(udre, ident, prc, rrc)
    ensures 1 < Pow2(1) && udre < Pow2(2) && ident < Pow2(5) && InRange(prc, 16) && InRange(rrc, 8)
  {
    Pow2Values();
  }

  lemma HeadIs32(large: bool, udre: nat, ident: nat, prc: int, rrc: int, tail: seq<Code>)
    requires HeadFits(udre, ident, prc, rrc) && Fit(tail)
    ensures InRange(prc, 16) && InRange(rrc, 8)
    ensures var cs := Head(large, udre, ident, prc, rrc) + tail; Width(cs) == 32 + Width(tail) && Fit(cs)
  {
    hide *;
    FieldsFit(udre, ident, prc, rrc);
    HeadParts(large, udre, ident, prc, rrc, tail);
    CorrectionFits(prc, rrc, tail);
    var l, u, i := Code(if large then 1 else 0, 1), Code(udre, 2), Code(ident, 5);
    var rest := CorrectionCodes(prc, rrc, tail);
    FieldFirst(i, rest);
    FieldFirst(u, [i] + rest);
    FieldFirst(l, [u] + ([i] + rest));
  }

  lemma GpsIsRecord(r: GpsSat)
    requires GpsFits(r)
    ensures Record(GpsCodes(r)) && Fit(GpsCodes(r))
  {
    Pow2Values();
    hide Head, Pow2, Width, Fit;
    var c := Code(r.iod, 8);
    NoFields();
    FieldFirst(c, []);
    assert [c] + [] == [c];
    HeadIs32(r.large, r.udre, r.ident, r.prc, r.rrc, [c]);
  }

  lemma GloIsRecord(r: GloSat)
    requires GloFits(r)
    ensures Record(GloCodes(r)) && Fit(GloCodes(r))
  {
    Pow2Values();
    hide Head, Pow2, Width, Fit;
    var c, t := Code(if r.change then 1 else 0, 1), Code(r.tod, 7);
    NoFields();
    FieldFirst(t, []);
    FieldFirst(c, [t] + []);
    assert [c, t] == [c] + ([t] + []);
    HeadIs32(r.large, r.udre, r.ident, r.prc, r.rrc, [c, t]);
  }

  function GpsList(rs: seq<GpsSat>): (css: seq<seq<Code>>)
    requires forall k :: 0 <= k < |rs| ==> GpsFits(rs[k])
    ensures |css| == |rs|
  {
    seq(|rs|, k requires 0 <= k < |rs| && GpsFits(rs[k]) => GpsCodes(rs[k]))
  }

  function GloList(rs: seq<GloSat>): (css: seq<seq<Code>>)
    requires forall k :: 0 <= k < |rs| ==> GloFits(rs[k])
    ensures |css| == |rs|
  {
    seq(|rs|, k requires 0 <= k < |rs| && GloFits(rs[k]) => GloCodes(rs[k]))
  }

  // Every list of at most 18 corrections, written into words with any parity: the words
  // hold that many complete records, and they are the list.
  lemma GpsSent(rs: seq<GpsSat>, parity: seq<nat>)
    requires |rs| <= 18 && forall k :: 0 <= k < |rs| ==> GpsFits(rs[k])
    requires |parity| == (5 * |rs| + 2) / 3 && forall i :: 0 <= i < |parity| ==> parity[i] < 64
    ensures var ws := Words(Pack(Encode(Joined(GpsList(rs)))), parity);
      && |ws| < 32 && Entries(|ws|) == |rs|
      && forall k :: 0 <= k < |rs| ==> 5 * (k + 1) <= |Stream(ws)| && GpsRecord(Stream(ws), k) == rs[k]
  {
    hide Words, Stream, Pack, Encode, Joined, Spells, Record, Fit, Entries, GpsRecord, GpsFits, GpsCodes;
    WordCount(|rs|);
    var css := GpsList(rs);
    forall k | 0 <= k < |rs| ensures Record(css[k]) && Fit(css[k]) {
      GpsIsRecord(rs[k]);
    }
    var s := Stream(Words(Pack(Encode(Joined(css))), parity));
    forall k | 0 <= k < |rs| ensures 5 * (k + 1) <= |s| && GpsRecord(s, k) == rs[k] {
      SentSpelled(css, parity, k);
      GpsSpelled(s, k, rs[k]);
    }
  }

  lemma GloSent(rs: seq<GloSat>, parity: seq<nat>)
    requires |rs| <= 18 && forall k :: 0 <= k < |rs| ==> GloFits(rs[k])
    requires |parity| == (5 * |rs| + 2) / 3 && forall i :: 0 <= i < |parity| ==> parity[i] < 64
    ensures var ws := Words(Pack(Encode(Joined(GloList(rs)))), parity);
      && |ws| < 32 && Entries(|ws|) == |rs|
      && forall k :: 0 <= k < |rs| ==> 5 * (k + 1) <= |Stream(ws)| && GloRecord(Stream(ws), k) == rs[k]
  {
    hide Words, Stream, Pack, Encode, Joined, Spells, Record, Fit, Entries, GloRecord, GloFits, GloCodes;
    WordCount(|rs|);
    var css := GloList(rs);
    forall k | 0 <= k < |rs| ensures Record(css[k]) && Fit(css[k]) {
      GloIsRecord(rs[k]);
    }
    var s := Stream(Words(Pack(Encode(Joined(css))), parity));
    forall k | 0 <= k < |rs| ensures 5 * (k + 1) <= |s| && GloRecord(s, k) == rs[k] {
      SentSpelled(css, parity, k);
      GloSpelled(s, k, rs[k]);
    }
  }

  // The position of message 3, three signed numbers of 32 bits in four words.
  function EcefCodes(x: int, y: int, z: int): seq<Code>
    requires InRange(x, 32) && InRange(y, 32) && InRange(z, 32)
  {
    [Code(Twos(x, 32), 32), Code(Twos(y, 32), 32), Code(Twos(z, 32), 32)]
  }

  lemma EcefFits(x: int, y: int, z: int)
    requires InRange(x, 32) && InRange(y, 32) && InRange(z, 32)
    ensures Fit(EcefCodes(x, y, z)) && Width(EcefCodes(x, y, z)) == 96
  {
    SignedTwos(x, 32);
    SignedTwos(y, 32);
    SignedTwos(z, 32);
    var a, b, c := Code(Twos(x, 32), 32), Code(Twos(y, 32), 32), Code(Twos(z, 32), 32);
    assert EcefCodes(x, y, z) == [a] + ([b] + ([c] + []));
    hide *;
    NoFields();
    FieldFirst(c, []);
    FieldFirst(b, [c] + []);
    FieldFirst(a, [b] + ([c] + []));
  }

  lemma EcefSpelled(s: seq<byte>, x: int, y: int, z: int)
    requires InRange(x, 32) && InRange(y, 32) && InRange(z, 32) && Spells(s, 0, EcefCodes(x, y, z))
    ensures 96 <= 8 * |s| && Signed(Field(s, 0, 32), 32) == x && Signed(Field(s, 32, 32), 32) == y
    ensures Signed(Field(s, 64, 32), 32) == z
  {
    SignedTwos(x, 32);
    SignedTwos(y, 32);
    SignedTwos(z, 32);
    var a, b, c := Code(Twos(x, 32), 32), Code(Twos(y, 32), 32), Code(Twos(z, 32), 32);
    assert EcefCodes(x, y, z) == [a] + ([b] + ([c] + []));
    hide *;
    SpelledOne(s, 0, a, [b] + ([c] + []));
    SpelledOne(s, 32, b, [c] + []);
    SpelledOne(s, 64, c, []);
  }

  lemma EcefSent(x: int, y: int, z: int, parity: seq<nat>)
    requires InRange(x, 32) && InRange(y, 32) && InRange(z, 32)
    requires |parity| == 4 && forall i :: 0 <= i < 4 ==> parity[i] < 64
    ensures var s := Stream(Words(Pack(Encode(EcefCodes(x, y, z))), parity));
      && |s| == 12 && Signed(Field(s, 0, 32), 32) == x && Signed(Field(s, 32, 32), 32) == y
      && Signed(Field(s, 64, 32), 32) == z
  {
    hide *;
    var cs := EcefCodes(x, y, z);
    EcefFits(x, y, z);
    EncodedLength(cs);
    PackLength(Encode(cs));
    var pad := WordsStream(Pack(Encode(cs)), parity);
    StreamLength(Words(Pack(Encode(cs)), parity));
    PackedBits(Encode(cs), pad);
    EncodedSpells(Pack(Encode(cs)) + pad, 0, cs);
    EcefSpelled(Pack(Encode(cs)) + pad, x, y, z);
  }
}
