/**
 The bit cursor of driver_rtcm3.c: messages 1008 (antenna descriptor and serial number)
 and 1013 (system parameters), against an encoder that writes their fields one after
 the other.
 */
module Rtcm3 {
  import opened Bitwise
  import opened Fields
  import Bits

  const BUFLEN: nat := 2 * 516 + 1          // the packet buffer
  const MAX_DESCRIPTOR: nat := 31
  const MAX_ANNOUNCEMENTS: nat := 32

  datatype Announcement = Announcement(id: nat, sync: nat, interval: nat)

  datatype Body =
    | Antenna(stationId: nat, descriptor: seq<byte>, setupId: nat, serial: seq<byte>)
    | System(stationId: nat, mjd: nat, sod: nat, leapsecs: nat, announcements: seq<Announcement>)
    | Other

  datatype Message = Message(length: nat, kind: nat, body: Body)

  //////////////////////////////////////////////////////////////////////////////
  // The messages
  //////////////////////////////////////////////////////////////////////////////

  function ByteCodes(s: seq<byte>): seq<Code>
  {
    if s == [] then [] else [Code(s[0], 8)] + ByteCodes(s[1..])
  }

  lemma {:induction false} ByteCodesWidth(s: seq<byte>)
    ensures Width(ByteCodes(s)) == 8 * |s| && Fit(ByteCodes(s))
  {
    Pow2Values();
    if s != [] {
      ByteCodesWidth(s[1..]);
    }
  }

  lemma {:induction false} BytesSpelled(buf: seq<byte>, i: nat, s: seq<byte>)
    requires Spells(buf, 8 * i, ByteCodes(s)) && i <= |buf|
    ensures i + |s| <= |buf| && buf[i..i + |s|] == s
    decreases |s|
  {
    hide Bits.Field;
    if s != [] {
      assert ByteCodes(s)[0] == Code(s[0], 8) && ByteCodes(s)[1..] == ByteCodes(s[1..]);
      BytesSpelled(buf, i + 1, s[1..]);
      Bits.FieldByte(buf, i);
      assert buf[i..i + |s|] == [buf[i]] + buf[i + 1..i + |s|];
    }
  }

  function HeaderCodes(length: nat, kind: nat): seq<Code>
  {
    [Code(0xD3, 8), Code(0, 6), Code(length, 10), Code(kind, 12)]
  }

  function AnnouncementCodes(s: seq<Announcement>): seq<Code>
  {
    if s == [] then [] else
      [Code(s[0].id, 12), Code(s[0].sync, 1), Code(s[0].interval, 16)] + AnnouncementCodes(s[1..])
  }

  function BodyCodes(b: Body): seq<Code>
  {
    match b
    case Antenna(stationId, descriptor, setupId, serial) =>
      [Code(stationId, 12), Code(|descriptor|, 8)]
      + (ByteCodes(descriptor) + ([Code(setupId, 8), Code(|serial|, 8)] + ByteCodes(serial)))
    case System(stationId, mjd, sod, leapsecs, announcements) =>
      [Code(stationId, 12), Code(mjd, 16), Code(sod, 17), Code(|announcements|, 5), Code(leapsecs, 8)]
      + AnnouncementCodes(announcements)
    case Other => []
  }

  function Codes(m: Message): seq<Code>
  {
    HeaderCodes(m.length, m.kind) + BodyCodes(m.body)
  }

  // Every value fits its field.
  ghost predicate Encodable(m: Message)
  {
    && Fit(Codes(m))
    && (m.kind == 1008 <==> m.body.Antenna?) && (m.kind == 1013 <==> m.body.System?)
  }

  predicate ShortStrings(b: Body)
    requires b.Antenna?
  {
    |b.descriptor| <= MAX_DESCRIPTOR && |b.serial| <= MAX_DESCRIPTOR
  }

  // And the strings fit the report.
  ghost predicate Sendable(m: Message)
  {
    Encodable(m) && (m.body.Antenna? ==> ShortStrings(m.body))
  }

  //////////////////////////////////////////////////////////////////////////////
  // What the decoder reads
  //////////////////////////////////////////////////////////////////////////////

  function DescriptorLength(buf: seq<byte>): (n: nat)
    requires |buf| == BUFLEN
    ensures n < 256
  {
    Pow2Values();
    Bits.Field(buf, 48, 8)
  }

  function SerialLength(buf: seq<byte>): (n: nat)
    requires |buf| == BUFLEN
    ensures n < 256
  {
    Pow2Values();
    Bits.Field(buf, 64 + 8 * DescriptorLength(buf), 8)
  }

  // A string field of the report has room for MAX_DESCRIPTOR bytes and a NUL.
  predicate InField(k: nat)
  {
    k < MAX_DESCRIPTOR + 1
  }

  // Copying n bytes to a field and putting a NUL behind them writes inside it only.
  predicate CopyFits(n: nat)
  {
    forall k :: 0 <= k <= n ==> InField(k)
  }

  // Both copies of a 1008 stay inside their fields.  The decoder does not look.
  predicate StringsFit(buf: seq<byte>)
    requires |buf| == BUFLEN
  {
    CopyFits(DescriptorLength(buf)) && CopyFits(SerialLength(buf))
  }

  lemma CopyFitsIff(n: nat)
    ensures CopyFits(n) <==> n <= MAX_DESCRIPTOR
  {
    assert CopyFits(n) ==> InField(n);
  }

  function ReadAntenna(buf: seq<byte>): Body
    requires |buf| == BUFLEN
  {
    var n := DescriptorLength(buf);
    Antenna(Bits.Field(buf, 36, 12), buf[7..7 + n], Bits.Field(buf, 56 + 8 * n, 8),
            buf[9 + n..9 + n + SerialLength(buf)])
  }

  function ReadAnnouncements(buf: seq<byte>, at: nat, n: nat): (r: seq<Announcement>)
    requires at + 29 * n <= 8 * |buf|
    ensures |r| == n
    decreases n
  {
    if n == 0 then [] else
      [Announcement(Bits.Field(buf, at, 12), Bits.Field(buf, at + 12, 1), Bits.Field(buf, at + 13, 16))]
      + ReadAnnouncements(buf, at + 29, n - 1)
  }

  // The seconds of the day go through a 16-bit integer.
  function ReadSystem(buf: seq<byte>): Body
    requires |buf| == BUFLEN
  {
    Pow2Values();
    System(Bits.Field(buf, 36, 12), Bits.Field(buf, 48, 16), Bits.Field(buf, 64, 17) % 65536,
           Bits.Field(buf, 86, 8), ReadAnnouncements(buf, 94, Bits.Field(buf, 81, 5)))
  }

  function Read(buf: seq<byte>): Message
    requires |buf| == BUFLEN
  {
    var kind := Bits.Field(buf, 24, 12);
    Message(Bits.Field(buf, 14, 10), kind,
            if kind == 1008 then ReadAntenna(buf) else if kind == 1013 then ReadSystem(buf) else Other)
  }

  // Where the cursor ends.
  function BitsRead(m: Message): nat
  {
    match m.body
    case Antenna(_, descriptor, _, serial) => 72 + 8 * |descriptor| + 8 * |serial|
    case System(_, _, _, _, announcements) => 94 + 29 * |announcements|
    case Other => 36
  }

  //////////////////////////////////////////////////////////////////////////////
  // Round trip
  //////////////////////////////////////////////////////////////////////////////

  // What arrives of a message.
  function Received(m: Message): Message
  {
    match m.body
    case Antenna(_, _, _, _) => m
    case System(_, _, sod, _, _) => m.(body := m.body.(sod := sod % 65536))
    case Other => m
  }

  lemma HeaderSpelled(buf: seq<byte>, m: Message)
    requires |buf| == BUFLEN && Spells(buf, 0, Codes(m))
    ensures Bits.Field(buf, 14, 10) == m.length && Bits.Field(buf, 24, 12) == m.kind
    ensures Spells(buf, 36, BodyCodes(m.body))
  {
    hide Bits.Field, BodyCodes, Spells;
    var b := BodyCodes(m.body);
    assert Codes(m) == [Code(0xD3, 8)] + ([Code(0, 6)] + ([Code(m.length, 10)] + ([Code(m.kind, 12)] + b)));
    SpelledOne(buf, 0, Code(0xD3, 8), [Code(0, 6)] + ([Code(m.length, 10)] + ([Code(m.kind, 12)] + b)));
    SpelledOne(buf, 8, Code(0, 6), [Code(m.length, 10)] + ([Code(m.kind, 12)] + b));
    SpelledOne(buf, 14, Code(m.length, 10), [Code(m.kind, 12)] + b);
    SpelledOne(buf, 24, Code(m.kind, 12), b);
  }

  // A length byte and that many bytes.
  lemma StringSpelled(buf: seq<byte>, i: nat, d: seq<byte>, tail: seq<Code>)
    requires Spells(buf, 8 * i, [Code(|d|, 8)] + (ByteCodes(d) + tail)) && i < |buf|
    ensures Bits.Field(buf, 8 * i, 8) == |d| && i + 1 + |d| <= |buf| && buf[i + 1..i + 1 + |d|] == d
    ensures Spells(buf, 8 * (i + 1 + |d|), tail)
  {
    hide Bits.Field, Spells, ByteCodes;
    SpelledOne(buf, 8 * i, Code(|d|, 8), ByteCodes(d) + tail);
    SpellsPart(buf, 8 * (i + 1), ByteCodes(d), tail);
    ByteCodesWidth(d);
    BytesSpelled(buf, i + 1, d);
  }

  lemma AntennaCodes(b: Body)
    requires b.Antenna?
    ensures var last := [Code(|b.serial|, 8)] + ByteCodes(b.serial);
      var tail := [Code(b.setupId, 8)] + last;
      BodyCodes(b) == [Code(b.stationId, 12)] + ([Code(|b.descriptor|, 8)] + (ByteCodes(b.descriptor) + tail))
  {
    hide ByteCodes;
  }

  lemma LastStringSpelled(buf: seq<byte>, i: nat, d: seq<byte>)
    requires Spells(buf, 8 * i, [Code(|d|, 8)] + ByteCodes(d)) && i < |buf|
    ensures Bits.Field(buf, 8 * i, 8) == |d| && i + 1 + |d| <= |buf| && buf[i + 1..i + 1 + |d|] == d
  {
    hide *;
    assert ByteCodes(d) + [] == ByteCodes(d);
    StringSpelled(buf, i, d, []);
  }

  // A 1008 of any length is where the decoder looks for it: up to the first string,
  lemma AntennaHead(buf: seq<byte>, stationId: nat, d: seq<byte>, tail: seq<Code>)
    requires |buf| == BUFLEN
    requires Spells(buf, 36, [Code(stationId, 12)] + ([Code(|d|, 8)] + (ByteCodes(d) + tail)))
    ensures Bits.Field(buf, 36, 12) == stationId && Bits.Field(buf, 48, 8) == |d|
    ensures 7 + |d| <= BUFLEN && buf[7..7 + |d|] == d
    ensures Spells(buf, 56 + 8 * |d|, tail)
  {
    assert |buf| == 1033;
    hide *;
    SpelledOne(buf, 36, Code(stationId, 12), [Code(|d|, 8)] + (ByteCodes(d) + tail));
    StringSpelled(buf, 6, d, tail);
    assert 8 * (6 + 1 + |d|) == 56 + 8 * |d|;
  }

  // and behind it.
  lemma AntennaTail(buf: seq<byte>, i: nat, setupId: nat, d: seq<byte>)
    requires |buf| == BUFLEN && i < 263
    requires Spells(buf, 8 * i, [Code(setupId, 8)] + ([Code(|d|, 8)] + ByteCodes(d)))
    ensures Bits.Field(buf, 8 * i, 8) == setupId && Bits.Field(buf, 8 * (i + 1), 8) == |d|
    ensures i + 2 + |d| <= BUFLEN && buf[i + 2..i + 2 + |d|] == d
  {
    assert |buf| == 1033;
    hide *;
    SpelledOne(buf, 8 * i, Code(setupId, 8), [Code(|d|, 8)] + ByteCodes(d));
    LastStringSpelled(buf, i + 1, d);
  }

  lemma AntennaSpelled(buf: seq<byte>, b: Body)
    requires |buf| == BUFLEN && b.Antenna? && Spells(buf, 36, BodyCodes(b)) && |b.descriptor| < 256
    ensures StringsFit(buf) <==> ShortStrings(b)
    ensures ReadAntenna(buf) == b
  {
    hide Bits.Field, Spells, ByteCodes, CopyFits;
    AntennaCodes(b);
    hide BodyCodes;
    AntennaHead(buf, b.stationId, b.descriptor, [Code(b.setupId, 8)] + ([Code(|b.serial|, 8)] + ByteCodes(b.serial)));
    AntennaTail(buf, 7 + |b.descriptor|, b.setupId, b.serial);
    CopyFitsIff(|b.descriptor|);
    CopyFitsIff(|b.serial|);
  }

  lemma {:induction false} AnnouncementsSpelled(buf: seq<byte>, at: nat, s: seq<Announcement>)
    requires Spells(buf, at, AnnouncementCodes(s)) && at + 29 * |s| <= 8 * |buf|
    ensures ReadAnnouncements(buf, at, |s|) == s
    decreases |s|
  {
    hide Bits.Field, Spells;
    if s != [] {
      var a, rest := s[0], AnnouncementCodes(s[1..]);
      assert AnnouncementCodes(s) == [Code(a.id, 12)] + ([Code(a.sync, 1)] + ([Code(a.interval, 16)] + rest));
      SpelledOne(buf, at, Code(a.id, 12), [Code(a.sync, 1)] + ([Code(a.interval, 16)] + rest));
      SpelledOne(buf, at + 12, Code(a.sync, 1), [Code(a.interval, 16)] + rest);
      SpelledOne(buf, at + 13, Code(a.interval, 16), rest);
      AnnouncementsSpelled(buf, at + 29, s[1..]);
    }
  }

  lemma SystemHeadSpelled(buf: seq<byte>, b: Body, tail: seq<Code>)
    requires b.System? && Spells(buf, 36, [Code(b.stationId, 12)] + ([Code(b.mjd, 16)] + ([Code(b.sod, 17)] + tail)))
    requires |buf| == BUFLEN
    ensures Bits.Field(buf, 36, 12) == b.stationId && Bits.Field(buf, 48, 16) == b.mjd
    ensures Bits.Field(buf, 64, 17) == b.sod && Spells(buf, 81, tail)
  {
    hide Bits.Field, Spells;
    SpelledOne(buf, 36, Code(b.stationId, 12), [Code(b.mjd, 16)] + ([Code(b.sod, 17)] + tail));
    SpelledOne(buf, 48, Code(b.mjd, 16), [Code(b.sod, 17)] + tail);
    SpelledOne(buf, 64, Code(b.sod, 17), tail);
  }

  lemma SystemCodes(b: Body, rest: seq<Code>)
    requires b.System? && rest == AnnouncementCodes(b.announcements)
    ensures var tail := [Code(|b.announcements|, 5)] + ([Code(b.leapsecs, 8)] + rest);
      BodyCodes(b) == [Code(b.stationId, 12)] + ([Code(b.mjd, 16)] + ([Code(b.sod, 17)] + tail))
  {
    hide AnnouncementCodes;
  }

  lemma SystemSpelled(buf: seq<byte>, b: Body)
    requires |buf| == BUFLEN && b.System? && Spells(buf, 36, BodyCodes(b)) && |b.announcements| < 32
    ensures ReadSystem(buf) == b.(sod := b.sod % 65536)
  {
    hide Bits.Field, Spells, AnnouncementCodes, ReadAnnouncements;
    var n, rest := |b.announcements|, AnnouncementCodes(b.announcements);
    var tail := [Code(n, 5)] + ([Code(b.leapsecs, 8)] + rest);
    SystemCodes(b, rest);
    hide BodyCodes;
    SystemHeadSpelled(buf, b, tail);
    SpelledOne(buf, 81, Code(n, 5), [Code(b.leapsecs, 8)] + rest);
    SpelledOne(buf, 86, Code(b.leapsecs, 8), rest);
    AnnouncementsSpelled(buf, 94, b.announcements);
  }

  // Every message is in the packet buffer as it was encoded, whatever follows it there.
  lemma Encoded(m: Message, rest: seq<byte>)
    requires Encodable(m) && |Pack(Encode(Codes(m))) + rest| == BUFLEN
    ensures var buf := Pack(Encode(Codes(m))) + rest;
      && Bits.Field(buf, 24, 12) == m.kind && Read(buf) == Received(m)
      && (m.body.Antenna? ==> (StringsFit(buf) <==> ShortStrings(m.body)))
  {
    hide Pack, Encode, Codes, Spells, Bits.Field, StringsFit, ReadAntenna, ReadSystem;
    var buf := Pack(Encode(Codes(m))) + rest;
    PackedBits(Encode(Codes(m)), rest);
    EncodedSpells(buf, 0, Codes(m));
    HeaderSpelled(buf, m);
    match m.body {
      case Antenna(_, _, _, _) =>
        DescriptorLimit(m);
        AntennaSpelled(buf, m.body);
      case System(_, _, _, _, _) =>
        FewAnnouncements(m);
        SystemSpelled(buf, m.body);
      case Other =>
    }
  }

  lemma DescriptorLimit(m: Message)
    requires m.body.Antenna? && Fit(Codes(m))
    ensures |m.body.descriptor| < 256
  {
    Pow2Values();
    assert Codes(m)[5] == Code(|m.body.descriptor|, 8);
  }

  lemma FewAnnouncements(m: Message)
    requires m.body.System? && Fit(Codes(m))
    ensures |m.body.announcements| < 32
  {
    Pow2Values();
    assert Codes(m)[7] == Code(|m.body.announcements|, 5);
  }

  // Every sendable message can be decoded, and arrives.
  lemma RoundTrip(m: Message, rest: seq<byte>)
    requires Sendable(m) && |Pack(Encode(Codes(m))) + rest| == BUFLEN
    ensures var buf := Pack(Encode(Codes(m))) + rest;
      && (Bits.Field(buf, 24, 12) == 1008 ==> StringsFit(buf))
      && Read(buf) == Received(m)
  {
    hide *;
    SendableParts(m);
    Encoded(m, rest);
  }

  lemma SendableParts(m: Message)
    requires Sendable(m)
    ensures Encodable(m) && (m.kind == 1008 ==> m.body.Antenna? && ShortStrings(m.body))
  {
  }

  // Decoding a 1008 stays inside the fields of the report exactly if both strings are short.
  lemma CopiesFit(m: Message, rest: seq<byte>)
    requires Encodable(m) && m.kind == 1008 && |Pack(Encode(Codes(m))) + rest| == BUFLEN
    ensures StringsFit(Pack(Encode(Codes(m))) + rest)
       <==> |m.body.descriptor| <= MAX_DESCRIPTOR && |m.body.serial| <= MAX_DESCRIPTOR
  {
    hide Codes, Fit, StringsFit;
    Encoded(m, rest);
  }

  // A descriptor of 32 bytes: its NUL is written behind the field.
  lemma LongDescriptor(d: seq<byte>, rest: seq<byte>)
    requires |d| == 32
    requires |Pack(Encode(Codes(LongAntenna(d)))) + rest| == BUFLEN
    ensures Encodable(LongAntenna(d)) && !StringsFit(Pack(Encode(Codes(LongAntenna(d)))) + rest)
  {
    hide StringsFit, Pack, Encode, Codes, Fit;
    LongAntennaFits(d);
    CopiesFit(LongAntenna(d), rest);
  }

  function LongAntenna(d: seq<byte>): Message
  {
    Message(38, 1008, Antenna(0, d, 0, []))
  }

  lemma FitConcat(cs: seq<Code>, ds: seq<Code>)
    requires Fit(cs) && Fit(ds)
    ensures Fit(cs + ds)
  {
    hide Pow2;
  }

  lemma LongAntennaFits(d: seq<byte>)
    requires |d| == 32
    ensures Fit(Codes(LongAntenna(d)))
  {
    var head := HeaderCodes(38, 1008) + [Code(0, 12), Code(32, 8)];
    var tail := [Code(0, 8), Code(0, 8)];
    assert Codes(LongAntenna(d)) == head + (ByteCodes(d) + tail);
    assert Fit(head) && Fit(tail) by {
      hide ByteCodes;
      Pow2Values();
    }
    hide *;
    ByteCodesWidth(d);
    FitConcat(ByteCodes(d), tail);
    FitConcat(head, ByteCodes(d) + tail);
  }

  // A 1013 arrives unchanged exactly if it was sent before 18:12:16, though its field
  // has room for the whole day.
  lemma SystemExact(m: Message, rest: seq<byte>)
    requires Sendable(m) && m.body.System? && |Pack(Encode(Codes(m))) + rest| == BUFLEN
    ensures var buf := Pack(Encode(Codes(m))) + rest;
      && Bits.Field(buf, 24, 12) == 1013
      && (Read(buf) == m <==> m.body.sod < 65536)
  {
    hide Pack, Encode, Codes, Bits.Field, ReadSystem;
    RoundTrip(m, rest);
    var buf := Pack(Encode(Codes(m))) + rest;
    assert Read(buf).kind == Bits.Field(buf, 24, 12);
  }

  //////////////////////////////////////////////////////////////////////////////
  // The decoder
  //////////////////////////////////////////////////////////////////////////////

  // The ugrab macro: reads a field and moves the cursor behind it.
  method Ugrab(buf: seq<byte>, bitcount: nat, width: nat) returns (v: nat, now: nat)
    requires width <= 57 && bitcount + width <= 8 * |buf|
    ensures v == Bits.Field(buf, bitcount, width) && now == bitcount + width
  {
    hide *;
    now := bitcount + width;
    v := Bits.Ubits(buf, now - width, width);
    Bits.Exact(buf, bitcount, width);
  }

  // memcpy to a string field of the report, and the NUL behind it.
  method CopyString(buf: seq<byte>, start: nat, n: nat, field: array<byte>)
    requires start + n <= |buf| && field.Length == MAX_DESCRIPTOR + 1 && CopyFits(n)
    modifies field
    ensures n < field.Length && field[..n] == buf[start..start + n] && field[n] == 0
  {
    assert InField(n);
    forall k | 0 <= k < n {
      field[k] := buf[start + k];
    }
    field[n] := 0;
  }

  method UnpackAntenna(buf: seq<byte>, start: nat) returns (b: Body, bitcount: nat)
    requires |buf| == BUFLEN && StringsFit(buf) && start == 36
    ensures b == ReadAntenna(buf) && b.Antenna? && bitcount == 72 + 8 * |b.descriptor| + 8 * |b.serial|
  {
    hide Bits.Field, CopyFits;
    var stationId, n, setupId, n2;
    stationId, bitcount := Ugrab(buf, start, 12);
    n, bitcount := Ugrab(buf, bitcount, 8);
    assert bitcount == 8 * 7;
    var descriptor, serial := new byte[MAX_DESCRIPTOR + 1], new byte[MAX_DESCRIPTOR + 1];
    CopyString(buf, 7, n, descriptor);
    bitcount := bitcount + 8 * n;
    setupId, bitcount := Ugrab(buf, bitcount, 8);
    n2, bitcount := Ugrab(buf, bitcount, 8);
    assert bitcount == 8 * (9 + n);
    CopyString(buf, 9 + n, n2, serial);
    bitcount := bitcount + 8 * n2;
    b := Antenna(stationId, descriptor[..n], setupId, serial[..n2]);
  }

  method UnpackSystem(buf: seq<byte>, start: nat) returns (b: Body, bitcount: nat)
    requires |buf| == BUFLEN && start == 36
    ensures b == ReadSystem(buf) && b.System? && bitcount == 94 + 29 * |b.announcements|
  {
    hide Bits.Field, ReadAnnouncements;
    Pow2Values();
    var stationId, mjd, sod, ncount, leapsecs;
    stationId, bitcount := Ugrab(buf, start, 12);
    mjd, bitcount := Ugrab(buf, bitcount, 16);
    sod, bitcount := Ugrab(buf, bitcount, 17);
    ncount, bitcount := Ugrab(buf, bitcount, 5);
    assert ncount < 32;
    leapsecs, bitcount := Ugrab(buf, bitcount, 8);
    var announcements := new Announcement[MAX_ANNOUNCEMENTS](_ => Announcement(0, 0, 0));
    bitcount := UnpackAnnouncements(buf, bitcount, ncount, announcements);
    b := System(stationId, mjd, sod % 65536, leapsecs, announcements[..ncount]);
    AnnouncementCount(buf, ncount);
  }

  lemma AnnouncementCount(buf: seq<byte>, n: nat)
    requires 94 + 29 * n <= 8 * |buf|
    ensures |ReadAnnouncements(buf, 94, n)| == n
  {
  }

  method UnpackAnnouncements(buf: seq<byte>, start: nat, ncount: nat, announcements: array<Announcement>)
    returns (bitcount: nat)
    requires start + 29 * ncount <= 8 * |buf| && ncount <= announcements.Length
    modifies announcements
    ensures announcements[..ncount] == ReadAnnouncements(buf, start, ncount)
    ensures bitcount == start + 29 * ncount
  {
    hide Bits.Field, ReadAnnouncements;
    bitcount := start;
    ghost var all := ReadAnnouncements(buf, start, ncount);
    for i := 0 to ncount
      invariant bitcount == start + 29 * i
      invariant all == announcements[..i] + ReadAnnouncements(buf, bitcount, ncount - i)
    {
      ReadNext(buf, bitcount, ncount - i);
      var id, sync, interval;
      id, bitcount := Ugrab(buf, bitcount, 12);
      sync, bitcount := Ugrab(buf, bitcount, 1);
      interval, bitcount := Ugrab(buf, bitcount, 16);
      announcements[i] := Announcement(id, sync, interval);
      assert announcements[..i + 1] == announcements[..i] + [Announcement(id, sync, interval)];
    }
    ReadNone(buf, bitcount);
    assert all == announcements[..ncount];
  }

  lemma ReadNext(buf: seq<byte>, at: nat, n: nat)
    requires n > 0 && at + 29 * n <= 8 * |buf|
    ensures ReadAnnouncements(buf, at, n) ==
      [Announcement(Bits.Field(buf, at, 12), Bits.Field(buf, at + 12, 1), Bits.Field(buf, at + 13, 16))]
      + ReadAnnouncements(buf, at + 29, n - 1)
  {
  }

  lemma ReadNone(buf: seq<byte>, at: nat)
    requires at <= 8 * |buf|
    ensures ReadAnnouncements(buf, at, 0) == []
  {
  }

  // rtcm3_unpack, for these two types.
  method Unpack(buf: seq<byte>) returns (m: Message, bitcount: nat)
    requires |buf| == BUFLEN && (Bits.Field(buf, 24, 12) == 1008 ==> StringsFit(buf))
    ensures m == Read(buf) && bitcount == BitsRead(m)
  {
    hide Bits.Field, ReadAntenna, ReadSystem, StringsFit;
    var ignored, length, kind;
    ignored, bitcount := Ugrab(buf, 0, 14);
    length, bitcount := Ugrab(buf, bitcount, 10);
    kind, bitcount := Ugrab(buf, bitcount, 12);
    var body := Other;
    if kind == 1008 {
      body, bitcount := UnpackAntenna(buf, bitcount);
    } else if kind == 1013 {
      body, bitcount := UnpackSystem(buf, bitcount);
    }
    m := Message(length, kind, body);
  }
}
