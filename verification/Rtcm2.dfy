/**
 Differential corrections of RTCM-104 2.x (rtcm2_unpack in driver_rtcm2.c): messages 1, 9
 and 31, and the reference position of message 3.  The source lays a structure of bit
 fields over 30-bit words, five words at a time; the standard (ITU-R M.823, Annex 1) sends
 40-bit records one after another through the 24 data bits of the words.
 */
module Rtcm2 {
  import opened Bitwise
  import opened Bits

  const MAXCORRECTIONS: nat := 18

  //////////////////////////////////////////////////////////////////////////////
  // Words and the stream of their data bits
  //////////////////////////////////////////////////////////////////////////////

  // A bit field of a word: `width` bits, the lowest at bit lo.
  function Slice(w: nat, lo: nat, width: nat): nat
  {
    LowBits(ShiftRight(w, lo), width)
  }

  // A data byte of a word.  The lowest six bits of a word are parity.
  function DataByte(w: nat, i: nat): byte
    requires i < 3
  {
    Pow2Values();
    Slice(w, 22 - 8 * i, 8)
  }

  function Stream(ws: seq<nat>): (s: seq<byte>)
    ensures |s| == 3 * |ws|
  {
    seq(3 * |ws|, j requires 0 <= j < 3 * |ws| => DataByte(ws[j / 3], j % 3))
  }

  // A correction record; `large` chooses the coarse scale for both prc and rrc, and the
  // last byte is an issue of data (GPS) or a change bit and a time of day (GLONASS).
  datatype GpsSat = GpsSat(ident: nat, udre: nat, iod: nat, prc: int, rrc: int, large: bool)
  datatype GloSat = GloSat(ident: nat, udre: nat, change: bool, tod: nat, prc: int, rrc: int, large: bool)

  // Record k of a stream, read off 40 bits in order.
  function GpsRecord(s: seq<byte>, k: nat): GpsSat
    requires 5 * (k + 1) <= |s|
  {
    var b := 40 * k;
    GpsSat(Field(s, b + 3, 5), Field(s, b + 1, 2), Field(s, b + 32, 8),
           Signed(Field(s, b + 8, 16), 16), Signed(Field(s, b + 24, 8), 8), Field(s, b, 1) == 1)
  }

  function GloRecord(s: seq<byte>, k: nat): GloSat
    requires 5 * (k + 1) <= |s|
  {
    var b := 40 * k;
    GloSat(Field(s, b + 3, 5), Field(s, b + 1, 2), Field(s, b + 32, 1) == 1, Field(s, b + 33, 7),
           Signed(Field(s, b + 8, 16), 16), Signed(Field(s, b + 24, 8), 8), Field(s, b, 1) == 1)
  }

  //////////////////////////////////////////////////////////////////////////////
  // The overlay: three records in five words
  //////////////////////////////////////////////////////////////////////////////

  // (h << k) | l on 32-bit integers in two's complement.
  function ShiftOr(h: int, k: nat, l: nat): int
  {
    Signed(Or(h * Pow2(k) % 0x1_0000_0000, l), 32)
  }

  function Gps1(w3: nat, w4: nat): GpsSat
  {
    GpsSat(Slice(w3, 22, 5), Slice(w3, 27, 2), Slice(w4, 14, 8),
           Signed(Slice(w3, 6, 16), 16), Signed(Slice(w4, 22, 8), 8), Slice(w3, 29, 1) == 1)
  }

  function Gps2(w4: nat, w5: nat, w6: nat): GpsSat
  {
    GpsSat(Slice(w4, 6, 5), Slice(w4, 11, 2), Slice(w6, 22, 8),
           Signed(Slice(w5, 14, 16), 16), Signed(Slice(w5, 6, 8), 8), Slice(w4, 13, 1) == 1)
  }

  function Gps3(w6: nat, w7: nat): GpsSat
  {
    GpsSat(Slice(w6, 14, 5), Slice(w6, 19, 2), Slice(w7, 6, 8),
           ShiftOr(Signed(Slice(w6, 6, 8), 8), 8, Slice(w7, 22, 8)), Signed(Slice(w7, 14, 8), 8), Slice(w6, 21, 1) == 1)
  }

  function Glo1(w3: nat, w4: nat): GloSat
  {
    GloSat(Slice(w3, 22, 5), Slice(w3, 27, 2), Slice(w4, 21, 1) == 1, Slice(w4, 14, 7),
           Signed(Slice(w3, 6, 16), 16), Signed(Slice(w4, 22, 8), 8), Slice(w3, 29, 1) == 1)
  }

  function Glo2(w4: nat, w5: nat, w6: nat): GloSat
  {
    GloSat(Slice(w4, 6, 5), Slice(w4, 11, 2), Slice(w6, 29, 1) == 1, Slice(w6, 22, 7),
           Signed(Slice(w5, 14, 16), 16), Signed(Slice(w5, 6, 8), 8), Slice(w4, 13, 1) == 1)
  }

  function Glo3(w6: nat, w7: nat): GloSat
  {
    GloSat(Slice(w6, 14, 5), Slice(w6, 19, 2), Slice(w7, 13, 1) == 1, Slice(w7, 6, 7),
           ShiftOr(Signed(Slice(w6, 6, 8), 8), 8, Slice(w7, 22, 8)), Signed(Slice(w7, 14, 8), 8), Slice(w6, 21, 1) == 1)
  }

  //////////////////////////////////////////////////////////////////////////////
  // Slices of words and fields of the stream
  //////////////////////////////////////////////////////////////////////////////

  lemma SliceOfSlice(w: nat, lo: nat, n: nat, a: nat, width: nat)
    requires a + width <= n
    ensures Slice(Slice(w, lo, n), a, width) == Slice(w, lo + a, width)
  {
    hide ShiftRight, LowBits;
    LowBitsOfLow(ShiftRight(w, lo), n - a, a);
    ShiftTwice(w, lo, a);
    LowBitsOfLow(ShiftRight(w, lo + a), n - a - width, width);
  }

  // Sixteen bits as two bytes.
  lemma Slice16(w: nat, lo: nat)
    ensures Slice(w, lo, 16) == Slice(w, lo + 8, 8) * 256 + Slice(w, lo, 8)
  {
    hide *;
    var v := Slice(w, lo, 16);
    TwoBytes(v);
    SliceBound(w, lo, 16);
    SliceOfSlice(w, lo, 16, 8, 8);
    SliceOfSlice(w, lo, 16, 0, 8);
  }

  lemma SliceBound(w: nat, lo: nat, width: nat)
    ensures Slice(w, lo, width) < Pow2(width)
  {
  }

  lemma TwoBytes(v: nat)
    ensures v < Pow2(16) ==> v == Slice(v, 8, 8) * 256 + Slice(v, 0, 8)
  {
    hide ShiftRight, LowBits;
    Pow2Values();
    if v < Pow2(16) {
      ShiftBound(v, 8, 8);
      LowBitsAll(ShiftRight(v, 8), 8);
      ShiftSplit(v, 8);
      ShiftByNone(v);
    }
  }

  // A field within one byte of the stream.
  lemma FieldInByteAt(s: seq<byte>, i: nat, off: nat, width: nat)
    requires i < |s| && off + width <= 8
    ensures Field(s, 8 * i + off, width) == Slice(s[i], 8 - off - width, width)
  {
    assert ShiftRight(s[i], 8) == 0 by {
      Pow2Values();
      LowBitsAll(s[i], 8);
    }
    FieldInByte(s, i, off + width);
    FieldParts(s, 8 * i, off, width);
  }

  // Two bytes of the stream as one field.
  lemma FieldOfTwo(s: seq<byte>, i: nat)
    requires i + 2 <= |s|
    ensures Field(s, 8 * i, 16) == s[i] as int * 256 + s[i + 1] as int
  {
    hide Field;
    assert Pow2(8) == 256 by {
      Pow2Values();
    }
    FieldByte(s, i);
    FieldByte(s, i + 1);
    FieldSplit(s, 8 * i, 8, 8);
  }

  // A signed high byte shifted and or-ed with a low byte is the 16-bit number of both.
  lemma SignedPair(h: byte, l: byte)
    ensures ShiftOr(Signed(h, 8), 8, l) == Signed(h * 256 + l, 16)
  {
    var n: int, m: nat := if h < 128 then h else h - 256, if h < 128 then h else h + 0xFFFF00;
    SignedOf(h);
    SignedOf(h * 256 + l);
    SignedOf(m * 256 + l);
    hide *;
    ByteShifted(n, l, m);
    OrLow(m, l);
    SignedValues(h, l, m * 256 + l);
  }

  lemma SignedOf(v: nat)
    ensures Signed(v, 8) == if v < 128 then v else v - 256
    ensures Signed(v, 16) == if v < 0x8000 then v else v - 0x1_0000
    ensures Signed(v, 32) == if v < 0x8000_0000 then v else v - 0x1_0000_0000
  {
    Pow2Small();
    HighBits();
    hide Pow2;
  }

  lemma ByteShifted(n: int, l: byte, m: nat)
    requires -128 <= n < 128 && m == if n >= 0 then n else n + 0x100_0000
    ensures ShiftOr(n, 8, l) == Signed(Or(m * 256, l), 32)
  {
    Pow2Small();
    hide Or, Signed, Pow2;
    assert n * 256 % 0x1_0000_0000 == m * 256;
  }

  lemma OrLow(m: nat, l: byte)
    ensures Or(m * 256, l) == m * 256 + l
  {
    Pow2Small();
    hide Or, Pow2;
    OrDisjoint(m, l, 8);
  }

  lemma SignedValues(h: byte, l: byte, w: nat)
    requires w == (if h < 128 then h else h + 0xFFFF00) * 256 + l
    ensures (if w < 0x8000_0000 then w else w - 0x1_0000_0000)
         == if h as int * 256 + l < 0x8000 then h as int * 256 + l else h as int * 256 + l - 0x1_0000
  {
  }

  lemma Pow2Small()
    ensures Pow2(7) == 128 && Pow2(8) == 256 && Pow2(15) == 0x8000 && Pow2(16) == 0x1_0000
  {
    Pow2Values();
    assert Pow2(8 + 7) == Pow2(8) * Pow2(7) by {
      Pow2Add(8, 7);
    }
  }

  lemma HighBits()
    ensures Pow2(31) == 0x8000_0000 && Pow2(32) == 0x1_0000_0000
  {
    Pow2Values();
    Pow2Add(24, 7);
  }

  // Parts of an unsigned number that do not overlap.
  lemma UnsignedPair(h: nat, k: nat, l: nat)
    requires h * Pow2(k) < 0x1_0000_0000 && l < Pow2(k)
    ensures ShiftOr(h, k, l) == Signed(h * Pow2(k) + l, 32)
  {
    hide Or, Pow2, Signed;
    OrDisjoint(h, l, k);
  }

  function GpsOfBytes(a: byte, h: byte, l: byte, r: byte, i: byte): GpsSat
  {
    GpsSat(Slice(a, 0, 5), Slice(a, 5, 2), i, Signed(h as int * 256 + l as int, 16), Signed(r, 8), Slice(a, 7, 1) == 1)
  }

  function GloOfBytes(a: byte, h: byte, l: byte, r: byte, i: byte): GloSat
  {
    GloSat(Slice(a, 0, 5), Slice(a, 5, 2), Slice(i, 7, 1) == 1, Slice(i, 0, 7),
           Signed(h as int * 256 + l as int, 16), Signed(r, 8), Slice(a, 7, 1) == 1)
  }

  lemma RecordBytes(s: seq<byte>, k: nat)
    requires 5 * (k + 1) <= |s|
    ensures GpsRecord(s, k) == GpsOfBytes(s[5 * k], s[5 * k + 1], s[5 * k + 2], s[5 * k + 3], s[5 * k + 4])
    ensures GloRecord(s, k) == GloOfBytes(s[5 * k], s[5 * k + 1], s[5 * k + 2], s[5 * k + 3], s[5 * k + 4])
  {
    hide Field, Slice, Signed;
    var i := 5 * k;
    FieldInByteAt(s, i, 3, 5);
    FieldInByteAt(s, i, 1, 2);
    FieldInByteAt(s, i, 0, 1);
    FieldOfTwo(s, i + 1);
    FieldByte(s, i + 3);
    FieldByte(s, i + 4);
    FieldInByteAt(s, i + 4, 0, 1);
    FieldInByteAt(s, i + 4, 1, 7);
  }

  // The overlay on words, byte by byte.
  lemma Overlay1(w3: nat, w4: nat)
    ensures Gps1(w3, w4) == GpsOfBytes(DataByte(w3, 0), DataByte(w3, 1), DataByte(w3, 2), DataByte(w4, 0), DataByte(w4, 1))
    ensures Glo1(w3, w4) == GloOfBytes(DataByte(w3, 0), DataByte(w3, 1), DataByte(w3, 2), DataByte(w4, 0), DataByte(w4, 1))
  {
    hide Signed, Slice;
    Pieces(w3, 22);
    Slice16(w3, 6);
    Pieces(w4, 14);
  }

  lemma Overlay2(w4: nat, w5: nat, w6: nat)
    ensures Gps2(w4, w5, w6) == GpsOfBytes(DataByte(w4, 2), DataByte(w5, 0), DataByte(w5, 1), DataByte(w5, 2), DataByte(w6, 0))
    ensures Glo2(w4, w5, w6) == GloOfBytes(DataByte(w4, 2), DataByte(w5, 0), DataByte(w5, 1), DataByte(w5, 2), DataByte(w6, 0))
  {
    hide Signed, Slice;
    Pieces(w4, 6);
    Slice16(w5, 14);
    Pieces(w6, 22);
  }

  lemma Overlay3(w6: nat, w7: nat)
    ensures Gps3(w6, w7) == GpsOfBytes(DataByte(w6, 1), DataByte(w6, 2), DataByte(w7, 0), DataByte(w7, 1), DataByte(w7, 2))
    ensures Glo3(w6, w7) == GloOfBytes(DataByte(w6, 1), DataByte(w6, 2), DataByte(w7, 0), DataByte(w7, 1), DataByte(w7, 2))
  {
    var h, l := DataByte(w6, 2), DataByte(w7, 0);
    SignedPair(h, l);
    ThirdBytes(w6, w7);
    hide Signed, Slice, ShiftOr, DataByte;
    Pieces(w6, 14);
    Pieces(w7, 6);
  }

  lemma ThirdBytes(w6: nat, w7: nat)
    ensures DataByte(w6, 1) == Slice(w6, 14, 8) && DataByte(w6, 2) == Slice(w6, 6, 8)
    ensures DataByte(w7, 0) == Slice(w7, 22, 8) && DataByte(w7, 1) == Slice(w7, 14, 8) && DataByte(w7, 2) == Slice(w7, 6, 8)
  {
    hide Slice;
  }

  // The overlay of a group of words is the next records of the stream.
  lemma OverlayIsStream(ws: seq<nat>, g: nat, i: nat)
    requires i < 3 && 5 * g + (if i == 0 then 2 else if i == 1 then 4 else 5) <= |ws|
    ensures var s, m, k := Stream(ws), 5 * g, 3 * g + i;
            if i == 0 then GpsRecord(s, k) == Gps1(ws[m], ws[m + 1]) && GloRecord(s, k) == Glo1(ws[m], ws[m + 1])
            else if i == 1 then
              && GpsRecord(s, k) == Gps2(ws[m + 1], ws[m + 2], ws[m + 3])
              && GloRecord(s, k) == Glo2(ws[m + 1], ws[m + 2], ws[m + 3])
            else GpsRecord(s, k) == Gps3(ws[m + 3], ws[m + 4]) && GloRecord(s, k) == Glo3(ws[m + 3], ws[m + 4])
  {
    hide Stream, GpsRecord, GloRecord, Gps1, Gps2, Gps3, Glo1, Glo2, Glo3, GpsOfBytes, GloOfBytes, DataByte;
    var m := 5 * g;
    RecordBytes(Stream(ws), 3 * g + i);
    match i
    case 0 => {
      Overlay1(ws[m], ws[m + 1]);
      StreamBytes(ws, m);
      StreamBytes(ws, m + 1);
    }
    case 1 => {
      Overlay2(ws[m + 1], ws[m + 2], ws[m + 3]);
      StreamBytes(ws, m + 1);
      StreamBytes(ws, m + 2);
      StreamBytes(ws, m + 3);
    }
    case _ => {
      Overlay3(ws[m + 3], ws[m + 4]);
      StreamBytes(ws, m + 3);
      StreamBytes(ws, m + 4);
    }
  }

  lemma StreamBytes(ws: seq<nat>, m: nat)
    requires m < |ws|
    ensures var s, w := Stream(ws), ws[m];
            s[3 * m] == DataByte(w, 0) && s[3 * m + 1] == DataByte(w, 1) && s[3 * m + 2] == DataByte(w, 2)
  {
    assert 3 * m / 3 == m && (3 * m + 1) / 3 == m && (3 * m + 2) / 3 == m;
    assert 3 * m % 3 == 0 && (3 * m + 1) % 3 == 1 && (3 * m + 2) % 3 == 2;
    hide Slice;
  }

  // The parts of a byte-sized slice.
  lemma Pieces(w: nat, lo: nat)
    ensures var b := Slice(w, lo, 8);
            && Slice(b, 0, 5) == Slice(w, lo, 5) && Slice(b, 5, 2) == Slice(w, lo + 5, 2) && Slice(b, 7, 1) == Slice(w, lo + 7, 1)
            && Slice(b, 0, 7) == Slice(w, lo, 7)
  {
    hide Slice;
    SliceOfSlice(w, lo, 8, 0, 5);
    SliceOfSlice(w, lo, 8, 5, 2);
    SliceOfSlice(w, lo, 8, 7, 1);
    SliceOfSlice(w, lo, 8, 0, 7);
  }

  //////////////////////////////////////////////////////////////////////////////
  // rtcm2_unpack
  //////////////////////////////////////////////////////////////////////////////

  // The number of complete 40-bit records in n words.
  function Entries(n: nat): nat
  {
    3 * n / 5
  }

  // The number of records that end within the first len of five words.
  function InGroup(len: int): nat
  {
    if len >= 5 then 3 else if len >= 4 then 2 else if len >= 2 then 1 else 0
  }

  // One group of five words, messages 1 and 9: as many of its three records as are complete.
  method GpsGroup(ws: seq<nat>, ghost g: nat, m: nat, len: int, first: nat, sat: array<GpsSat>) returns (n: nat)
    requires 0 <= len && m == 5 * g && m + len <= |ws| && first == 3 * g && first + InGroup(len) <= sat.Length
    modifies sat
    ensures n == first + InGroup(len)
    ensures forall k :: first <= k < n ==> 5 * (k + 1) <= 3 * |ws| && sat[k] == GpsRecord(Stream(ws), k)
    ensures forall k :: 0 <= k < sat.Length && !(first <= k < n) ==> sat[k] == old(sat[k])
  {
    hide Stream, GpsRecord, Gps1, Gps2, Gps3, GloRecord, Glo1, Glo2, Glo3;
    n := first;
    if len >= 2 {
      OverlayIsStream(ws, g, 0);
      sat[n] := Gps1(ws[m], ws[m + 1]);
      n := n + 1;
    }
    if len >= 4 {
      OverlayIsStream(ws, g, 1);
      sat[n] := Gps2(ws[m + 1], ws[m + 2], ws[m + 3]);
      n := n + 1;
    }
    if len >= 5 {
      OverlayIsStream(ws, g, 2);
      sat[n] := Gps3(ws[m + 3], ws[m + 4]);
      n := n + 1;
    }
  }

  // Messages 1 and 9.  ws are the words behind the two header words, length the 5-bit length field.
  method UnpackGps(ws: seq<nat>, length: nat, sat: array<GpsSat>) returns (nentries: nat)
    requires length < 32 && length <= |ws| && sat.Length == MAXCORRECTIONS
    modifies sat
    ensures nentries == Entries(length) <= MAXCORRECTIONS
    ensures forall k :: 0 <= k < nentries ==> 5 * (k + 1) <= 3 * |ws| && sat[k] == GpsRecord(Stream(ws), k)
    ensures forall k :: nentries <= k < sat.Length ==> sat[k] == old(sat[k])
  {
    hide Stream, GpsRecord;
    var len: int := length;
    var m, n := 0, 0;
    ghost var g := 0;
    while len >= 0
      invariant len == length - m && m == 5 * g && -5 <= len
      invariant n == if len >= 0 then 3 * g else Entries(length)
      invariant forall k :: 0 <= k < n ==> 5 * (k + 1) <= 3 * |ws| && sat[k] == GpsRecord(Stream(ws), k)
      invariant forall k :: n <= k < sat.Length ==> sat[k] == old(sat[k])
    {
      n := GpsGroup(ws, g, m, len, n, sat);
      len := len - 5;
      m := m + 5;
      g := g + 1;
    }
    nentries := n;
  }

  // One group of five words, message 31: as many of its three records as are complete.
  method GloGroup(ws: seq<nat>, ghost g: nat, m: nat, len: int, first: nat, sat: array<GloSat>) returns (n: nat)
    requires 0 <= len && m == 5 * g && m + len <= |ws| && first == 3 * g && first + InGroup(len) <= sat.Length
    modifies sat
    ensures n == first + InGroup(len)
    ensures forall k :: first <= k < n ==> 5 * (k + 1) <= 3 * |ws| && sat[k] == GloRecord(Stream(ws), k)
    ensures forall k :: 0 <= k < sat.Length && !(first <= k < n) ==> sat[k] == old(sat[k])
  {
    hide Stream, GpsRecord, Gps1, Gps2, Gps3, GloRecord, Glo1, Glo2, Glo3;
    n := first;
    if len >= 2 {
      OverlayIsStream(ws, g, 0);
      sat[n] := Glo1(ws[m], ws[m + 1]);
      n := n + 1;
    }
    if len >= 4 {
      OverlayIsStream(ws, g, 1);
      sat[n] := Glo2(ws[m + 1], ws[m + 2], ws[m + 3]);
      n := n + 1;
    }
    if len >= 5 {
      OverlayIsStream(ws, g, 2);
      sat[n] := Glo3(ws[m + 3], ws[m + 4]);
      n := n + 1;
    }
  }

  // Message 31.  ws are the words behind the two header words, length the 5-bit length field.
  method UnpackGlo(ws: seq<nat>, length: nat, sat: array<GloSat>) returns (nentries: nat)
    requires length < 32 && length <= |ws| && sat.Length == MAXCORRECTIONS
    modifies sat
    ensures nentries == Entries(length) <= MAXCORRECTIONS
    ensures forall k :: 0 <= k < nentries ==> 5 * (k + 1) <= 3 * |ws| && sat[k] == GloRecord(Stream(ws), k)
    ensures forall k :: nentries <= k < sat.Length ==> sat[k] == old(sat[k])
  {
    hide Stream, GloRecord;
    var len: int := length;
    var m, n := 0, 0;
    ghost var g := 0;
    while len >= 0
      invariant len == length - m && m == 5 * g && -5 <= len
      invariant n == if len >= 0 then 3 * g else Entries(length)
      invariant forall k :: 0 <= k < n ==> 5 * (k + 1) <= 3 * |ws| && sat[k] == GloRecord(Stream(ws), k)
      invariant forall k :: n <= k < sat.Length ==> sat[k] == old(sat[k])
    {
      n := GloGroup(ws, g, m, len, n, sat);
      len := len - 5;
      m := m + 5;
      g := g + 1;
    }
    nentries := n;
  }

  // Message 3: coordinates in units of 0.01 m, put together from parts of words in 32-bit
  // arithmetic.
  datatype Ecef = Invalid | Valid(x: int, y: int, z: int)

  method UnpackEcef(ws: seq<nat>, length: nat) returns (ecef: Ecef)
    requires length < 32 && length <= |ws|
    ensures ecef == if length < 4 then Invalid
                    else Valid(Signed(Field(Stream(ws), 0, 32), 32), Signed(Field(Stream(ws), 32, 32), 32),
                               Signed(Field(Stream(ws), 64, 32), 32))
  {
    if length < 4 {
      return Invalid;
    }
    hide *;
    FieldX(ws);
    FieldY(ws);
    FieldZ(ws);
    EcefParts(ws);
    return Valid(ShiftOr(Slice(ws[0], 6, 24), 8, Slice(ws[1], 22, 8)),
                 ShiftOr(Slice(ws[1], 6, 16), 16, Slice(ws[2], 14, 16)),
                 ShiftOr(Slice(ws[2], 6, 8), 24, Slice(ws[3], 6, 24)));
  }

  lemma EcefParts(ws: seq<nat>)
    requires 4 <= |ws|
    ensures ShiftOr(Slice(ws[0], 6, 24), 8, Slice(ws[1], 22, 8))
         == Signed(Slice(ws[0], 6, 24) * 0x100 + Slice(ws[1], 22, 8), 32)
    ensures ShiftOr(Slice(ws[1], 6, 16), 16, Slice(ws[2], 14, 16))
         == Signed(Slice(ws[1], 6, 16) * 0x1_0000 + Slice(ws[2], 14, 16), 32)
    ensures ShiftOr(Slice(ws[2], 6, 8), 24, Slice(ws[3], 6, 24))
         == Signed(Slice(ws[2], 6, 8) * 0x100_0000 + Slice(ws[3], 6, 24), 32)
  {
    hide Slice, Signed, ShiftOr;
    Pow2Values();
    SliceBound(ws[0], 6, 24);
    SliceBound(ws[1], 22, 8);
    SliceBound(ws[1], 6, 16);
    SliceBound(ws[2], 14, 16);
    SliceBound(ws[2], 6, 8);
    SliceBound(ws[3], 6, 24);
    UnsignedPair(Slice(ws[0], 6, 24), 8, Slice(ws[1], 22, 8));
    UnsignedPair(Slice(ws[1], 6, 16), 16, Slice(ws[2], 14, 16));
    UnsignedPair(Slice(ws[2], 6, 8), 24, Slice(ws[3], 6, 24));
  }

  lemma StreamSlices(ws: seq<nat>, m: nat)
    requires m < |ws|
    ensures var s, w := Stream(ws), ws[m];
            s[3 * m] == Slice(w, 22, 8) && s[3 * m + 1] == Slice(w, 14, 8) && s[3 * m + 2] == Slice(w, 6, 8)
  {
    StreamBytes(ws, m);
    hide Slice, Stream;
  }

  lemma FieldX(ws: seq<nat>)
    requires 2 <= |ws|
    ensures Field(Stream(ws), 0, 32) == Slice(ws[0], 6, 24) * 0x100 + Slice(ws[1], 22, 8)
  {
    hide *;
    StreamSlices(ws, 0);
    StreamSlices(ws, 1);
    FieldOfFour(Stream(ws), 0);
    Slice24(ws[0], 6);
  }

  lemma FieldY(ws: seq<nat>)
    requires 3 <= |ws|
    ensures Field(Stream(ws), 32, 32) == Slice(ws[1], 6, 16) * 0x1_0000 + Slice(ws[2], 14, 16)
  {
    hide *;
    StreamSlices(ws, 1);
    StreamSlices(ws, 2);
    FieldOfFour(Stream(ws), 4);
    Slice16(ws[1], 6);
    Slice16(ws[2], 14);
  }

  lemma FieldZ(ws: seq<nat>)
    requires 4 <= |ws|
    ensures Field(Stream(ws), 64, 32) == Slice(ws[2], 6, 8) * 0x100_0000 + Slice(ws[3], 6, 24)
  {
    hide *;
    StreamSlices(ws, 2);
    StreamSlices(ws, 3);
    FieldOfFour(Stream(ws), 8);
    Slice24(ws[3], 6);
  }

  lemma FieldOfFour(s: seq<byte>, i: nat)
    requires i + 4 <= |s|
    ensures Field(s, 8 * i, 32) ==
      s[i] as int * 0x100_0000 + s[i + 1] as int * 0x1_0000 + s[i + 2] as int * 0x100 + s[i + 3] as int
  {
    FieldOfTwo(s, i);
    FieldOfTwo(s, i + 2);
    FieldHalves(s, 8 * i, 8 * (i + 2));
    hide Field;
  }

  lemma FieldHalves(s: seq<byte>, a: nat, b: nat)
    requires b == a + 16 && b + 16 <= 8 * |s|
    ensures Field(s, a, 32) == Field(s, a, 16) * 0x1_0000 + Field(s, b, 16)
  {
    Pow2Small();
    hide Field, Pow2;
    FieldSplit(s, a, 16, 16);
  }

  lemma Slice24(w: nat, lo: nat)
    ensures Slice(w, lo, 24) == Slice(w, lo + 16, 8) * 0x1_0000 + Slice(w, lo + 8, 8) * 0x100 + Slice(w, lo, 8)
  {
    hide *;
    var v := Slice(w, lo, 24);
    ThreeBytes(v);
    SliceBound(w, lo, 24);
    SliceOfSlice(w, lo, 24, 8, 16);
    SliceOfSlice(w, lo, 24, 0, 8);
    Slice16(w, lo + 8);
  }

  lemma ThreeBytes(v: nat)
    ensures v < Pow2(24) ==> v == Slice(v, 8, 16) * 256 + Slice(v, 0, 8)
  {
    hide ShiftRight, LowBits;
    Pow2Values();
    if v < Pow2(24) {
      ShiftBound(v, 8, 16);
      LowBitsAll(ShiftRight(v, 8), 16);
      ShiftSplit(v, 8);
      ShiftByNone(v);
    }
  }
}
