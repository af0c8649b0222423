/**
 The sending side of AIVDM: messages written field by field (ITU-R M.1371, Annex 8), and
 armored six bits to a character.  What the receiver returns is what was written.
 */
module AivdmSender {
  import opened Bitwise
  import opened Fields
  import opened Aivdm
  import Bits

  //////////////////////////////////////////////////////////////////////////////
  // Armor
  //////////////////////////////////////////////////////////////////////////////

  type sixbit = v: nat | v < 64

  // The characters '0' to 'W' and '`' to 'w'.
  function ArmorOne(v: sixbit): byte
  {
    if v < 40 then v + 48 else v + 56
  }

  lemma ArmorTaken(v: sixbit)
    ensures Unarmor(ArmorOne(v)) == v
    ensures (v < 40 ==> '0' <= ArmorOne(v) as char <= 'W') && (v >= 40 ==> '`' <= ArmorOne(v) as char <= 'w')
  {
  }

  // Other characters are not turned away: X to _ stand for the same as P to W, and the rest
  // for what 8-bit arithmetic makes of them.
  lemma OtherCharacters(ch: byte)
    ensures 'X' as int <= ch <= '_' as int ==> Unarmor(ch) == ch - 56 == Unarmor(ch - 8)
    ensures ch < '0' as int ==> Unarmor(ch) == ch + 200
    ensures ch > 'w' as int ==> Unarmor(ch) == ch - 56
  {
  }

  // The number that six bits spell.
  function Six(s: seq<bit>, i: nat): (v: sixbit)
    requires 6 * i + 6 <= |s|
  {
    Pow2Values();
    Bits.Binary(s[6 * i..6 * i + 6])
  }

  function Armor(s: seq<bit>): (data: seq<byte>)
    requires |s| % 6 == 0
    ensures |data| == |s| / 6
  {
    seq(|s| / 6, i requires 0 <= i < |s| / 6 => ArmorOne(Six(s, i)))
  }

  lemma {:induction false} BinaryString(v: nat, width: nat)
    requires v < Pow2(width)
    ensures Bits.Binary(BitString(v, width)) == v
  {
    if width > 0 {
      BinaryString(v / 2, width - 1);
      assert BitString(v, width)[..width - 1] == BitString(v / 2, width - 1);
    }
  }

  lemma {:induction false} StringBinary(s: seq<bit>)
    ensures BitString(Bits.Binary(s), |s|) == s
  {
    if s != [] {
      var n := |s| - 1;
      StringBinary(s[..n]);
      Halves(Bits.Binary(s[..n]), s[n]);
    }
  }

  lemma Halves(h: nat, x: bit)
    ensures (2 * h + x) / 2 == h && (2 * h + x) % 2 == x
  {
  }

  lemma {:induction false} StringBit(v: nat, width: nat, k: nat)
    requires k < width
    ensures BitString(v, width)[k] == ShiftRight(v, width - 1 - k) % 2
  {
    if k < width - 1 {
      StringBit(v / 2, width - 1, k);
    }
  }

  lemma SixIsString(v: sixbit)
    ensures SixBits(v) == BitString(v, 6)
  {
    forall k | 0 <= k < 6 ensures SixBits(v)[k] == BitString(v, 6)[k] {
      StringBit(v, 6, k);
    }
  }

  // The payload of armored bits is the bits.
  lemma {:induction false} ArmorPayload(s: seq<bit>)
    requires |s| % 6 == 0
    ensures Payload(Armor(s)) == s
  {
    hide SixBits, Unarmor, ArmorOne, BitString;
    if s == [] {
      NoPayload();
      assert Armor(s) == [];
    } else {
      var n := |s| - 6;
      ArmorPayload(s[..n]);
      ArmorSplit(s);
      var v := Six(s, n / 6);
      ArmorTaken(v);
      SixIsString(v);
      StringBinary(s[n..]);
      assert s[6 * (n / 6)..6 * (n / 6) + 6] == s[n..];
      assert Armor(s)[..|Armor(s)| - 1] == Armor(s[..n]);
      assert s == s[..n] + s[n..];
    }
  }

  lemma ArmorSplit(s: seq<bit>)
    requires |s| % 6 == 0 && s != []
    ensures var n := |s| - 6; n >= 0 && n % 6 == 0 && Armor(s) == Armor(s[..n]) + [ArmorOne(Six(s, n / 6))]
  {
    hide ArmorOne;
    var n := |s| - 6;
    assert |s| / 6 == n / 6 + 1;
    forall i | 0 <= i < n / 6 ensures Six(s, i) == Six(s[..n], i) {
      assert s[..n][6 * i..6 * i + 6] == s[6 * i..6 * i + 6];
    }
  }

  //////////////////////////////////////////////////////////////////////////////
  // Messages
  //////////////////////////////////////////////////////////////////////////////

  // Type, repeat indicator and MMSI, which all messages begin with.
  function Opening(typ: nat, repeat: nat, mmsi: nat): (r: seq<bit>)
    ensures |r| == 38
  {
    BitString(typ, 6) + BitString(repeat, 2) + BitString(mmsi, 30)
  }

  // Six-bit characters.
  function Letters(name: seq<sixbit>): (r: seq<bit>)
    ensures |r| == 6 * |name|
  {
    if name == [] then [] else Letters(name[..|name| - 1]) + BitString(name[|name| - 1], 6)
  }

  // Part A of a type 24 report: a name of 20 characters.
  function PartA(repeat: nat, mmsi: nat, name: seq<sixbit>): (r: seq<bit>)
    requires |name| == 20
    ensures |r| == 160
  {
    Opening(24, repeat, mmsi) + BitString(0, 2) + Letters(name)
  }

  // Part B: 128 bits of other fields.
  function PartB(repeat: nat, mmsi: nat, fields: seq<bit>): (r: seq<bit>)
    requires |fields| == 128
    ensures |r| == 168
  {
    Opening(24, repeat, mmsi) + BitString(1, 2) + fields
  }

  function NameText(name: seq<sixbit>): string
  {
    Text(NameChars(name))
  }

  function NameChars(name: seq<sixbit>): (s: string)
    ensures |s| == |name| && forall i :: 0 <= i < |name| ==> s[i] == SixChar(name[i])
  {
    seq(|name|, i requires 0 <= i < |name| => SixChar(name[i]))
  }

  // A field of bits that begin with s is one of s.
  lemma FieldInFront(raw: seq<bit>, s: seq<bit>, start: nat, width: nat)
    requires s <= raw && start + width <= |s|
    ensures FieldOf(raw, start, width) == FieldOf(s, start, width)
  {
    assert raw[..|s|] == s;
    assert raw[start..start + width] == s[start..start + width];
  }

  lemma MiddleField(a: seq<bit>, v: nat, width: nat, b: seq<bit>)
    requires v < Pow2(width)
    ensures FieldOf(a + BitString(v, width) + b, |a|, width) == v
  {
    var s := a + BitString(v, width) + b;
    assert s[|a|..|a| + width] == BitString(v, width);
    BinaryString(v, width);
  }

  lemma OpeningParts(typ: nat, repeat: nat, mmsi: nat, rest: seq<bit>)
    ensures Opening(typ, repeat, mmsi) + rest == [] + BitString(typ, 6) + (BitString(repeat, 2) + BitString(mmsi, 30) + rest)
    ensures Opening(typ, repeat, mmsi) + rest == BitString(typ, 6) + BitString(repeat, 2) + BitString(mmsi, 30) + rest
  {
    hide BitString;
  }

  lemma OpeningFields(typ: nat, repeat: nat, mmsi: nat, rest: seq<bit>)
    requires typ < 64 && repeat < 4 && mmsi < Pow2(30)
    ensures var m := Opening(typ, repeat, mmsi) + rest; FieldOf(m, 0, 6) == typ && FieldOf(m, 8, 30) == mmsi
  {
    Pow2Values();
    hide *;
    OpeningParts(typ, repeat, mmsi, rest);
    MiddleField([], typ, 6, BitString(repeat, 2) + BitString(mmsi, 30) + rest);
    MiddleField(BitString(typ, 6) + BitString(repeat, 2), mmsi, 30, rest);
  }

  lemma PartField(repeat: nat, mmsi: nat, part: nat, rest: seq<bit>)
    requires repeat < 4 && mmsi < Pow2(30) && part < 2
    ensures var m := Opening(24, repeat, mmsi) + BitString(part, 2) + rest;
      FieldOf(m, 0, 6) == 24 && FieldOf(m, 8, 30) == mmsi && FieldOf(m, 38, 2) == part
  {
    Pow2Values();
    hide FieldOf, Opening, BitString, Pow2;
    var o := Opening(24, repeat, mmsi);
    OpeningFields(24, repeat, mmsi, BitString(part, 2) + rest);
    MiddleField(o, part, 2, rest);
    assert o + (BitString(part, 2) + rest) == o + BitString(part, 2) + rest;
  }

  lemma {:induction false} LetterAt(a: seq<bit>, name: seq<sixbit>, i: nat)
    requires i < |name|
    ensures FieldOf(a + Letters(name), |a| + 6 * i, 6) == name[i]
  {
    Pow2Values();
    hide FieldOf, BitString, Pow2;
    var n := |name| - 1;
    var b := a + Letters(name[..n]);
    assert a + Letters(name) == b + BitString(name[n], 6) + [];
    if i == n {
      MiddleField(b, name[n], 6, []);
    } else {
      LetterAt(a, name[..n], i);
      FieldInFront(a + Letters(name), b, |a| + 6 * i, 6);
    }
  }

  lemma LetterChar(a: seq<bit>, name: seq<sixbit>, i: nat)
    requires i < |name|
    ensures SixCharAt(a + Letters(name), |a| + 6 * i) == SixChar(name[i])
  {
    hide FieldOf, Letters;
    LetterAt(a, name, i);
  }

  lemma LettersText(a: seq<bit>, name: seq<sixbit>)
    ensures TextOf(a + Letters(name), |a|, |name|) == NameText(name)
  {
    var raw := a + Letters(name);
    hide Letters, Text, SixCharAt, SixChar;
    var x, y := CharsOf(raw, |a|, |name|), NameChars(name);
    hide CharsOf, NameChars;
    forall i | 0 <= i < |name| ensures x[i] == y[i] {
      LetterChar(a, name, i);
    }
    assert x == y;
  }

  //////////////////////////////////////////////////////////////////////////////
  // What the reference machine makes of them
  //////////////////////////////////////////////////////////////////////////////

  // Fields of the buffer are fields of the message.
  lemma ReadFields(m: seq<bit>, sent: seq<bit>)
    requires 40 <= |m| <= BUFFER_BITS && ZeroFilled(sent)[..|m|] == m
    ensures |ZeroFilled(sent)| == BUFFER_BITS
    ensures FieldOf(ZeroFilled(sent), 0, 6) == FieldOf(m, 0, 6)
    ensures FieldOf(ZeroFilled(sent), 8, 30) == FieldOf(m, 8, 30)
    ensures FieldOf(ZeroFilled(sent), 38, 2) == FieldOf(m, 38, 2)
  {
    ZeroFilledLength(sent);
    hide FieldOf, ZeroFilled;
    var all: seq<bit> := ZeroFilled(sent);
    assert m <= all;
    FieldInFront(all, m, 0, 6);
    FieldInFront(all, m, 8, 30);
    FieldInFront(all, m, 38, 2);
  }

  lemma ReportA(repeat: nat, mmsi: nat, name: seq<sixbit>, sent: seq<bit>, os: seq<Outcome>)
    requires repeat < 4 && mmsi < Pow2(30) && |name| == 20
    requires var m := PartA(repeat, mmsi, name); ZeroFilled(sent)[..160] == m
    ensures Report(PartA(repeat, mmsi, name), sent, os) == StaticA(mmsi, NameText(name))
  {
    var m, a := PartA(repeat, mmsi, name), Opening(24, repeat, mmsi) + BitString(0, 2);
    PartField(repeat, mmsi, 0, Letters(name));
    hide FieldOf, ZeroFilled, Letters, TextOf, NameText, Opening, BitString, Waiting24, Name24;
    ReadFields(m, sent);
    assert m == a + Letters(name) && |a| == 40;
    LettersText(a, name);
  }

  lemma ReportB(repeat: nat, mmsi: nat, fields: seq<bit>, sent: seq<bit>, os: seq<Outcome>)
    requires repeat < 4 && mmsi < Pow2(30) && |fields| == 128
    requires ZeroFilled(sent)[..168] == PartB(repeat, mmsi, fields)
    ensures Report(PartB(repeat, mmsi, fields), sent, os)
         == if Waiting24(os) == mmsi then StaticB(mmsi, Name24(os)) else Refused
  {
    PartField(repeat, mmsi, 1, fields);
    hide FieldOf, ZeroFilled, TextOf, Opening, BitString, Waiting24, Name24;
    ReadFields(PartB(repeat, mmsi, fields), sent);
  }

  lemma ReportOther(typ: nat, repeat: nat, mmsi: nat, rest: seq<bit>, sent: seq<bit>, os: seq<Outcome>)
    requires typ < 64 && typ != 24 && repeat < 4 && mmsi < Pow2(30) && 2 <= |rest| <= BUFFER_BITS - 38
    requires var m := Opening(typ, repeat, mmsi) + rest; ZeroFilled(sent)[..|m|] == m
    ensures var m := Opening(typ, repeat, mmsi) + rest; Report(m, sent, os) == Message(typ, mmsi, m)
  {
    OpeningFields(typ, repeat, mmsi, rest);
    hide FieldOf, ZeroFilled, TextOf, Opening, BitString, Waiting24, Name24;
    ReadFields(Opening(typ, repeat, mmsi) + rest, sent);
  }

  //////////////////////////////////////////////////////////////////////////////
  // Over runs
  //////////////////////////////////////////////////////////////////////////////

  // Sentence i completes a message m.
  ghost predicate Carries(xs: seq<Sentence>, i: nat, m: seq<bit>)
  {
    && i < |xs| && (xs[i].ifrag == 1 || xs[i].ifrag == |PendingAfter(xs[..i])| + 1) && xs[i].ifrag == xs[i].nfrags
    && BitsOf(FragmentsAt(xs, i)) == m
  }

  lemma RunSize(cs: seq<Ctx>, xs: seq<Sentence>, os: seq<Outcome>)
    requires IsRun(cs, xs, os)
    ensures |os| == |xs| && |cs| == |xs| + 1
  {
  }

  lemma Reported(cs: seq<Ctx>, xs: seq<Sentence>, os: seq<Outcome>, i: nat, m: seq<bit>) returns (sent: seq<bit>)
    requires IsRun(cs, xs, os) && cs[0] == INITIAL && Carries(xs, i, m)
    requires forall s :: s in xs ==> ZeroPadded(s)
    ensures |os| == |xs| && i < |os|
    ensures |m| <= BUFFER_BITS && ZeroFilled(sent)[..|m|] == m && os[i] == Report(m, sent, os[..i])
  {
    RunSize(cs, xs, os);
    hide IsRun, ZeroPadded, BitsOf, Payload, Report, ZeroFilled, PendingAfter, AllProper;
    OutcomeAt(cs, xs, os, i);
    var p, s := PendingAfter(xs[..i]), xs[i];
    SentWhole(Before(p, s), s);
    sent := BitsOf(Before(p, s)) + Payload(s.data);
  }

  // On every run of sentences that pad with zeros, however a message is split: part A of a
  // static report is reported with its MMSI and name,
  lemma SentA(cs: seq<Ctx>, xs: seq<Sentence>, os: seq<Outcome>, i: nat, repeat: nat, mmsi: nat, name: seq<sixbit>)
    requires IsRun(cs, xs, os) && cs[0] == INITIAL && forall s :: s in xs ==> ZeroPadded(s)
    requires repeat < 4 && mmsi < 0x4000_0000 && |name| == 20 && Carries(xs, i, PartA(repeat, mmsi, name))
    ensures os[i] == StaticA(mmsi, NameText(name))
  {
    ThirtyBits();
    hide IsRun, ZeroPadded, Carries, Report, ZeroFilled, PartA, NameText, Pow2;
    var sent := Reported(cs, xs, os, i, PartA(repeat, mmsi, name));
    PartALength(repeat, mmsi, name);
    ReportA(repeat, mmsi, name, sent, os[..i]);
  }

  lemma PartALength(repeat: nat, mmsi: nat, name: seq<sixbit>)
    requires |name| == 20
    ensures |PartA(repeat, mmsi, name)| == 160
  {
  }

  lemma ThirtyBits()
    ensures Pow2(30) == 0x4000_0000
  {
    Pow2Values();
    Pow2Add(24, 6);
  }

  // part B with its MMSI and the name of the latest part A, if that was the same ship's and
  // has not been used, or else refused,
  lemma SentB(cs: seq<Ctx>, xs: seq<Sentence>, os: seq<Outcome>, i: nat, repeat: nat, mmsi: nat, fields: seq<bit>)
    requires IsRun(cs, xs, os) && cs[0] == INITIAL && forall s :: s in xs ==> ZeroPadded(s)
    requires repeat < 4 && mmsi < 0x4000_0000 && |fields| == 128 && Carries(xs, i, PartB(repeat, mmsi, fields))
    ensures os[i] == if LatestIs(os, i, mmsi) || (mmsi == 0 && NothingWaits(os, i))
                     then StaticB(mmsi, Name24(os[..i])) else Refused
  {
    ThirtyBits();
    hide IsRun, ZeroPadded, Carries, Report, ZeroFilled, PartB, Pow2, Waiting24, Name24, LatestIs, NothingWaits;
    var sent := Reported(cs, xs, os, i, PartB(repeat, mmsi, fields));
    PartBLength(repeat, mmsi, fields);
    ReportB(repeat, mmsi, fields, sent, os[..i]);
    WaitingIff(os, i, mmsi);
  }

  lemma PartBLength(repeat: nat, mmsi: nat, fields: seq<bit>)
    requires |fields| == 128
    ensures |PartB(repeat, mmsi, fields)| == 168
  {
  }

  // and a message of another type with its type, its MMSI and its bits.
  lemma SentOther(cs: seq<Ctx>, xs: seq<Sentence>, os: seq<Outcome>, i: nat,
                  typ: nat, repeat: nat, mmsi: nat, rest: seq<bit>)
    requires IsRun(cs, xs, os) && cs[0] == INITIAL && forall s :: s in xs ==> ZeroPadded(s)
    requires typ < 64 && typ != 24 && repeat < 4 && mmsi < 0x4000_0000 && |rest| >= 2
    requires Carries(xs, i, Opening(typ, repeat, mmsi) + rest)
    ensures os[i] == Message(typ, mmsi, Opening(typ, repeat, mmsi) + rest)
  {
    ThirtyBits();
    hide IsRun, ZeroPadded, Carries, Report, ZeroFilled, Pow2;
    var m := Opening(typ, repeat, mmsi) + rest;
    assert |m| == 38 + |rest|;
    hide Opening;
    var sent := Reported(cs, xs, os, i, m);
    ReportOther(typ, repeat, mmsi, rest, sent, os[..i]);
  }

  // A static report is of the size of its part.
  lemma StaticSize(cs: seq<Ctx>, xs: seq<Sentence>, os: seq<Outcome>, i: nat)
    requires IsRun(cs, xs, os) && cs[0] == INITIAL && i < |xs|
    ensures os[i].StaticA? ==> |BitsOf(FragmentsAt(xs, i))| == 160
    ensures os[i].StaticB? ==> |BitsOf(FragmentsAt(xs, i))| == 168
  {
    hide BitsOf, BufferOf, Gathered, FieldOf, TextOf, PendingAfter;
    assert IsStep(cs[i], xs[i], cs[i + 1], os[i]);
    Buffer(cs, xs, os, i);
    if Accepted(cs[i].frags, xs[i]) {
      GatheredIs(cs[i], PendingAfter(xs[..i]), xs[i]);
    }
  }

  //////////////////////////////////////////////////////////////////////////////
  // Splitting a message into fragments
  //////////////////////////////////////////////////////////////////////////////

  function Whole(pieces: seq<seq<bit>>): seq<bit>
  {
    if pieces == [] then [] else Whole(pieces[..|pieces| - 1]) + pieces[|pieces| - 1]
  }

  // Pieces of whole characters, the last one with fill bits behind it.
  predicate Splits(pieces: seq<seq<bit>>, fill: seq<bit>)
  {
    && pieces != [] && |fill| < 6
    && (|pieces[|pieces| - 1]| + |fill|) % 6 == 0
    && forall j :: 0 <= j < |pieces| - 1 ==> |pieces[j]| % 6 == 0
  }

  function Fragment(channel: char, pieces: seq<seq<bit>>, fill: seq<bit>, j: nat): Sentence
    requires Splits(pieces, fill) && j < |pieces|
  {
    var n := |pieces|;
    if j == n - 1 then Sentence(channel, n, n, Armor(pieces[j] + fill), "012345"[|fill|])
    else Sentence(channel, n, j + 1, Armor(pieces[j]), '0')
  }

  function Split(channel: char, pieces: seq<seq<bit>>, fill: seq<bit>): (xs: seq<Sentence>)
    requires Splits(pieces, fill)
    ensures |xs| == |pieces|
  {
    seq(|pieces|, j requires 0 <= j < |pieces| => Fragment(channel, pieces, fill, j))
  }

  // A fragment keeps its piece, and pads with nothing unless it is the last.
  lemma FragmentKeeps(channel: char, pieces: seq<seq<bit>>, fill: seq<bit>, j: nat)
    requires Splits(pieces, fill) && j < |pieces|
    ensures var s := Fragment(channel, pieces, fill, j);
      && s.ifrag == j + 1 && s.nfrags == |pieces| && s.channel == channel
      && PadBits(s.pad) <= 6 * |s.data| && Kept(s) == pieces[j] && ZeroPadded(s)
  {
    hide Payload;
    var s := Fragment(channel, pieces, fill, j);
    var bits := if j == |pieces| - 1 then pieces[j] + fill else pieces[j];
    hide Armor;
    ArmorPayload(bits);
    ArmorLength(bits);
    PadDigits(|fill|, '0');
    assert PadBits('0') == 0;
    assert bits[..|pieces[j]|] == pieces[j];
  }

  lemma ArmorLength(s: seq<bit>)
    requires |s| % 6 == 0
    ensures 6 * |Armor(s)| == |s|
  {
  }

  lemma PiecesTaken(ys: seq<Sentence>, channel: char, pieces: seq<seq<bit>>, fill: seq<bit>, j: nat)
    requires Splits(pieces, fill) && ys == Split(channel, pieces, fill) && 0 < j <= |pieces|
    ensures ys[..j] == ys[..j - 1] + [ys[j - 1]] && pieces[..j] == pieces[..j - 1] + [pieces[j - 1]]
    ensures ys[j - 1] == Fragment(channel, pieces, fill, j - 1)
  {
    hide Fragment;
  }

  // Fragment by fragment the pieces come together,
  lemma {:induction false} SplitBits(ys: seq<Sentence>, channel: char, pieces: seq<seq<bit>>, fill: seq<bit>, j: nat)
    requires Splits(pieces, fill) && ys == Split(channel, pieces, fill) && j <= |pieces|
    ensures BitsOf(ys[..j]) == Whole(pieces[..j])
  {
    if j == 0 {
      NoFragments();
    } else {
      hide BitsOf, Fragment, Kept, Whole, Split, Splits;
      SplitBits(ys, channel, pieces, fill, j - 1);
      PiecesTaken(ys, channel, pieces, fill, j);
      FragmentKeeps(channel, pieces, fill, j - 1);
      BitsOfNext(ys[..j - 1], ys[j - 1]);
      WholeNext(pieces[..j - 1], pieces[j - 1]);
    }
  }

  // and after whatever else they are what is pending.
  lemma {:induction false} SplitPending(xs: seq<Sentence>, ys: seq<Sentence>, channel: char,
                                        pieces: seq<seq<bit>>, fill: seq<bit>, j: nat)
    requires Splits(pieces, fill) && ys == Split(channel, pieces, fill) && 0 < j < |pieces|
    ensures PendingAfter(xs + ys[..j]) == ys[..j]
  {
    var p, s := ys[..j - 1], ys[j - 1];
    hide PendingAfter, Fragment, Kept, Split, Splits;
    PiecesTaken(ys, channel, pieces, fill, j);
    FragmentKeeps(channel, pieces, fill, j - 1);
    assert xs + ys[..j] == xs + p + [s];
    PendingNext(xs + p, s);
    if j == 1 {
      assert p == [] && xs + p == xs;
    } else {
      SplitPending(xs, ys, channel, pieces, fill, j - 1);
    }
  }

  lemma WholeNext(pieces: seq<seq<bit>>, p: seq<bit>)
    ensures Whole(pieces + [p]) == Whole(pieces) + p
  {
    assert (pieces + [p])[..|pieces|] == pieces;
  }

  // The last fragment completes the message.
  lemma SplitCarries(xs: seq<Sentence>, ys: seq<Sentence>, zs: seq<Sentence>, channel: char,
                     pieces: seq<seq<bit>>, fill: seq<bit>)
    requires Splits(pieces, fill) && ys == Split(channel, pieces, fill)
    ensures Carries(xs + ys + zs, |xs| + |ys| - 1, Whole(pieces))
  {
    hide BitsOf, PendingAfter, Fragment, Whole;
    var n := |pieces|;
    var all, i := xs + ys + zs, |xs| + n - 1;
    SplitBits(ys, channel, pieces, fill, n);
    if n > 1 {
      SplitPending(xs, ys, channel, pieces, fill, n - 1);
    }
    FragmentKeeps(channel, pieces, fill, n - 1);
    assert all[..i] == xs + ys[..n - 1] && all[i] == ys[n - 1];
    assert ys[..n] == ys && ys == ys[..n - 1] + [ys[n - 1]] && pieces[..n] == pieces;
    if n == 1 {
      assert ys[..0] == [];
    }
  }

  lemma {:induction false} LatestName(os: seq<Outcome>, j: nat, n: nat, mmsi: nat, name: string)
    requires LatestA(os, j, n, mmsi, name)
    ensures Name24(os[..n]) == name
  {
    assert os[..n][..n - 1] == os[..n - 1];
    if j < n - 1 {
      LatestName(os, j, n - 1, mmsi, name);
    }
  }

  // After whatever else has been received on a channel, both parts of a static report of a
  // ship, one after the other, each split in any way: the last fragments return its MMSI
  // and its name.
  lemma ShipReported(cs: seq<Ctx>, xs: seq<Sentence>, ys: seq<Sentence>, zs: seq<Sentence>, os: seq<Outcome>,
                     channel: char, mmsi: nat, name: seq<sixbit>, fields: seq<bit>, repeat: nat,
                     piecesA: seq<seq<bit>>, fillA: seq<bit>, piecesB: seq<seq<bit>>, fillB: seq<bit>)
    requires IsRun(cs, xs + ys + zs, os) && cs[0] == INITIAL && forall s :: s in xs ==> ZeroPadded(s)
    requires repeat < 4 && mmsi < 0x4000_0000 && |name| == 20 && |fields| == 128
    requires Splits(piecesA, fillA) && Whole(piecesA) == PartA(repeat, mmsi, name)
    requires Splits(piecesB, fillB) && Whole(piecesB) == PartB(repeat, mmsi, fields)
    requires ys == Split(channel, piecesA, fillA) && zs == Split(channel, piecesB, fillB)
    ensures |os| == |xs| + |ys| + |zs|
    ensures os[|xs| + |ys| - 1] == StaticA(mmsi, NameText(name))
    ensures os[|os| - 1] == StaticB(mmsi, NameText(name))
  {
    hide BitsOf, PendingAfter, Fragment, Whole, PartA, PartB, NameText, Carries, ZeroPadded, IsStep, Name24, Report;
    var all := xs + ys + zs;
    RunSize(cs, all, os);
    AllPadded(xs, ys, zs, channel, piecesA, fillA, piecesB, fillB);
    SplitCarries(xs, ys, zs, channel, piecesA, fillA);
    var a, b := |xs| + |ys| - 1, |all| - 1;
    SentA(cs, all, os, a, repeat, mmsi, name);
    SplitCarries(xs + ys, zs, [], channel, piecesB, fillB);
    assert xs + ys + zs + [] == all;
    SentB(cs, all, os, b, repeat, mmsi, fields);
    forall k | a < k < b ensures !IsStatic(os[k]) {
      FragmentKeeps(channel, piecesB, fillB, k - a - 1);
      assert all[k] == zs[k - a - 1];
      OutcomeAt(cs, all, os, k);
    }
    assert LatestA(os, a, b, mmsi, NameText(name));
    LatestName(os, a, b, mmsi, NameText(name));
  }

  lemma AllPadded(xs: seq<Sentence>, ys: seq<Sentence>, zs: seq<Sentence>, channel: char,
                  piecesA: seq<seq<bit>>, fillA: seq<bit>, piecesB: seq<seq<bit>>, fillB: seq<bit>)
    requires forall s :: s in xs ==> ZeroPadded(s)
    requires Splits(piecesA, fillA) && ys == Split(channel, piecesA, fillA)
    requires Splits(piecesB, fillB) && zs == Split(channel, piecesB, fillB)
    ensures forall s :: s in xs + ys + zs ==> ZeroPadded(s)
  {
    hide Fragment, ZeroPadded;
    forall j | 0 <= j < |ys| ensures ZeroPadded(ys[j]) {
      FragmentKeeps(channel, piecesA, fillA, j);
    }
    forall j | 0 <= j < |zs| ensures ZeroPadded(zs[j]) {
      FragmentKeeps(channel, piecesB, fillB, j);
    }
  }
}
