/**
 The satellite lists of driver_oncore.c.  A Bb message says where the satellites are; an
 Ea message says which of them are received, and publishes the merged list.
 */
module Oncore {
  import opened Bitwise

  const BB_MAX: nat := 12
  const EA_CHANNELS: nat := 8
  const MAXCHANNELS: nat := 72

  datatype Entry = Entry(prn: int, elevation: int, azimuth: int)
  datatype Sat = Sat(prn: int, elevation: int, azimuth: int, ss: int)
  datatype Channel = Channel(sv: int, mode: int, sn: int, status: int)

  // The driver's own list, the published list, and the PRNs used for the position.
  datatype Lists = Lists(bb: seq<Entry>, sats: seq<Sat>, used: seq<int>)

  //////////////////////////////////////////////////////////////////////////////
  // What the messages say
  //////////////////////////////////////////////////////////////////////////////

  function BbRecord(buf: seq<byte>, i: nat): Entry
    requires |buf| == 92 && i < BB_MAX
  {
    Entry(buf[5 + 7 * i], buf[8 + 7 * i], (buf[9 + 7 * i] as int) * 256 + buf[10 + 7 * i])
  }

  function BbCount(buf: seq<byte>): nat
    requires |buf| == 92
  {
    if buf[4] > 12 then 12 else buf[4]
  }

  function BbRecords(buf: seq<byte>): seq<Entry>
    requires |buf| == 92
  {
    seq(BbCount(buf), i requires 0 <= i < BB_MAX => BbRecord(buf, i))
  }

  function EaChannel(buf: seq<byte>, i: nat): Channel
    requires |buf| == 76 && i < EA_CHANNELS
  {
    Channel(buf[40 + 4 * i], buf[41 + 4 * i], buf[42 + 4 * i], buf[43 + 4 * i])
  }

  // The received ones among the first n channels.
  function Active(buf: seq<byte>, n: nat): (r: seq<Channel>)
    requires |buf| == 76 && n <= EA_CHANNELS
    ensures |r| <= n
  {
    if n == 0 then [] else
      Active(buf, n - 1) + (if EaChannel(buf, n - 1).sn != 0 then [EaChannel(buf, n - 1)] else [])
  }

  // Bit 7 of the status.
  predicate Used(c: Channel)
  {
    c.status >= 0 && c.status / 128 % 2 == 1
  }

  //////////////////////////////////////////////////////////////////////////////
  // What they do
  //////////////////////////////////////////////////////////////////////////////

  function Moved(s: Sat, e: Entry): Sat
  {
    if s.prn == e.prn then s.(elevation := e.elevation, azimuth := e.azimuth) else s
  }

  function MovedEach(ss: seq<Sat>, e: Entry): (r: seq<Sat>)
    ensures |r| == |ss|
  {
    seq(|ss|, k requires 0 <= k < |ss| => Moved(ss[k], e))
  }

  // A published satellite after all records of a Bb message.
  function MovedAll(s: Sat, es: seq<Entry>): (r: Sat)
    ensures r.prn == s.prn && r.ss == s.ss
  {
    if es == [] then s else Moved(MovedAll(s, es[..|es| - 1]), es[|es| - 1])
  }

  function MovedBy(ss: seq<Sat>, es: seq<Entry>): (r: seq<Sat>)
    ensures |r| == |ss|
  {
    seq(|ss|, k requires 0 <= k < |ss| => MovedAll(ss[k], es))
  }

  lemma MovedByNext(ss: seq<Sat>, es: seq<Entry>, i: nat)
    requires i < |es|
    ensures MovedBy(ss, es[..i + 1]) == MovedEach(MovedBy(ss, es[..i]), es[i])
  {
    assert es[..i + 1][..i] == es[..i] && es[..i + 1][i] == es[i];
  }

  // Where a PRN stands in the Bb list; its length if it is not there.
  function Find(bb: seq<Entry>, sv: int): (i: nat)
    ensures i <= |bb| && (i < |bb| ==> bb[i].prn == sv)
    ensures forall k :: 0 <= k < i ==> bb[k].prn != sv
  {
    if bb == [] || bb[0].prn == sv then 0 else 1 + Find(bb[1..], sv)
  }

  function Placed(bb: seq<Entry>, c: Channel): Sat
  {
    var i := Find(bb, c.sv);
    if i < |bb| then Sat(c.sv, bb[i].elevation, bb[i].azimuth, c.sn) else Sat(c.sv, 0, 0, c.sn)
  }

  function PlacedAll(bb: seq<Entry>, cs: seq<Channel>): seq<Sat>
  {
    seq(|cs|, k requires 0 <= k < |cs| => Placed(bb, cs[k]))
  }

  // Whether a received satellite has taken over entry j.
  predicate Taken(bb: seq<Entry>, cs: seq<Channel>, j: nat)
  {
    exists k :: 0 <= k < |cs| && Find(bb, cs[k].sv) == j
  }

  // The entries left over among the first n.
  function LeftOver(bb: seq<Entry>, cs: seq<Channel>, n: nat): (r: seq<Sat>)
    requires n <= |bb|
    ensures |r| <= n
  {
    if n == 0 then [] else
      var e := bb[n - 1];
      LeftOver(bb, cs, n - 1) + (if Taken(bb, cs, n - 1) then [] else [Sat(e.prn, e.elevation, e.azimuth, 0)])
  }

  lemma MergedNone(bb: seq<Entry>)
    ensures PlacedAll(bb, []) == [] && UsedPrns([]) == [] && forall j: nat :: !Taken(bb, [], j)
  {
  }

  // One more received satellite.
  lemma MergedOne(bb: seq<Entry>, cs: seq<Channel>, c: Channel)
    ensures PlacedAll(bb, cs + [c]) == PlacedAll(bb, cs) + [Placed(bb, c)]
    ensures forall j: nat :: Taken(bb, cs + [c], j) <==> Taken(bb, cs, j) || j == Find(bb, c.sv)
    ensures UsedPrns(cs + [c]) == UsedPrns(cs) + (if Used(c) then [c.sv] else [])
  {
    hide Find, Placed, Used;
    var ds := cs + [c];
    assert ds[..|ds| - 1] == cs && ds[|cs|] == c;
    forall j: nat | Taken(bb, cs, j) || j == Find(bb, c.sv) ensures Taken(bb, ds, j) {
      if Taken(bb, cs, j) {
        var k :| 0 <= k < |cs| && Find(bb, cs[k].sv) == j;
        assert ds[k] == cs[k];
      } else {
        assert Find(bb, ds[|cs|].sv) == j;
      }
    }
  }

  function UsedPrns(cs: seq<Channel>): seq<int>
  {
    if cs == [] then [] else
      UsedPrns(cs[..|cs| - 1]) + (if Used(cs[|cs| - 1]) then [cs[|cs| - 1].sv] else [])
  }

  datatype Message = Bb(buf: seq<byte>) | Ea(buf: seq<byte>)

  // Messages of the wrong length change nothing.
  function Step(l: Lists, m: Message): Lists
  {
    match m
    case Bb(buf) =>
      if |buf| != 92 then l else
        Lists(BbRecords(buf), MovedBy(l.sats, BbRecords(buf)), l.used)
    case Ea(buf) =>
      if |buf| != 76 then l else
        var cs := Active(buf, EA_CHANNELS);
        Lists(l.bb, PlacedAll(l.bb, cs) + LeftOver(l.bb, cs, |l.bb|), UsedPrns(cs))
  }

  function Run(ms: seq<Message>): Lists
  {
    if ms == [] then Lists([], [], []) else Step(Run(ms[..|ms| - 1]), ms[|ms| - 1])
  }

  //////////////////////////////////////////////////////////////////////////////
  // Both lists put a satellite at the same place
  //////////////////////////////////////////////////////////////////////////////

  predicate DistinctEntries(es: seq<Entry>)
  {
    forall i, j :: 0 <= i < j < |es| ==> es[i].prn != es[j].prn
  }

  predicate DistinctChannels(cs: seq<Channel>)
  {
    forall i, j :: 0 <= i < j < |cs| ==> cs[i].sv != cs[j].sv
  }

  predicate DistinctSats(ss: seq<Sat>)
  {
    forall i, j :: 0 <= i < j < |ss| ==> ss[i].prn != ss[j].prn
  }

  predicate Coherent(l: Lists)
  {
    forall i, j :: 0 <= i < |l.bb| && 0 <= j < |l.sats| && l.bb[i].prn == l.sats[j].prn ==>
      l.bb[i].elevation == l.sats[j].elevation && l.bb[i].azimuth == l.sats[j].azimuth
  }

  // A Bb message that names no satellite twice.
  predicate BbDistinct(m: Message)
  {
    m.Bb? && |m.buf| == 92 ==> DistinctEntries(BbRecords(m.buf))
  }

  lemma {:induction false} MovedTo(s: Sat, es: seq<Entry>, i: nat)
    requires DistinctEntries(es) && i < |es| && es[i].prn == s.prn
    ensures MovedAll(s, es).elevation == es[i].elevation && MovedAll(s, es).azimuth == es[i].azimuth
  {
    if i < |es| - 1 {
      MovedTo(s, es[..|es| - 1], i);
    }
  }

  lemma {:induction false} LeftOverEntry(bb: seq<Entry>, cs: seq<Channel>, n: nat, k: nat) returns (j: nat)
    requires n <= |bb| && k < |LeftOver(bb, cs, n)|
    ensures j < n && !Taken(bb, cs, j)
    ensures LeftOver(bb, cs, n)[k] == Sat(bb[j].prn, bb[j].elevation, bb[j].azimuth, 0)
  {
    if k < |LeftOver(bb, cs, n - 1)| {
      j := LeftOverEntry(bb, cs, n - 1, k);
    } else {
      j := n - 1;
    }
  }

  lemma {:induction false} LeftOverHas(bb: seq<Entry>, cs: seq<Channel>, n: nat, j: nat) returns (k: nat)
    requires j < n <= |bb| && !Taken(bb, cs, j)
    ensures k < |LeftOver(bb, cs, n)| && LeftOver(bb, cs, n)[k].prn == bb[j].prn
  {
    if j < n - 1 {
      k := LeftOverHas(bb, cs, n - 1, j);
    } else {
      k := |LeftOver(bb, cs, n - 1)|;
    }
  }

  lemma CoherentStep(l: Lists, m: Message)
    requires DistinctEntries(l.bb) && Coherent(l) && BbDistinct(m)
    ensures DistinctEntries(Step(l, m).bb) && Coherent(Step(l, m))
  {
    var n := Step(l, m);
    forall i, j | 0 <= i < |n.bb| && 0 <= j < |n.sats| && n.bb[i].prn == n.sats[j].prn
      ensures n.bb[i].elevation == n.sats[j].elevation && n.bb[i].azimuth == n.sats[j].azimuth
    {
      if m.Bb? && |m.buf| == 92 {
        MovedTo(l.sats[j], n.bb, i);
      } else if m.Ea? && |m.buf| == 76 {
        EaCoherent(l.bb, Active(m.buf, EA_CHANNELS), i, j);
      }
    }
  }

  lemma EaCoherent(bb: seq<Entry>, cs: seq<Channel>, i: nat, j: nat)
    requires DistinctEntries(bb) && i < |bb|
    requires var sats := PlacedAll(bb, cs) + LeftOver(bb, cs, |bb|); j < |sats| && bb[i].prn == sats[j].prn
    ensures var sats := PlacedAll(bb, cs) + LeftOver(bb, cs, |bb|);
      bb[i].elevation == sats[j].elevation && bb[i].azimuth == sats[j].azimuth
  {
    if j >= |cs| {
      var k := LeftOverEntry(bb, cs, |bb|, j - |cs|);
      assert k == i;
    } else {
      assert Find(bb, cs[j].sv) == i;
    }
  }

  // Whatever arrives in whatever order: if no Bb message names a satellite twice, the two
  // lists never disagree.
  lemma {:induction false} AlwaysCoherent(ms: seq<Message>)
    requires forall m :: m in ms ==> BbDistinct(m)
    ensures DistinctEntries(Run(ms).bb) && Coherent(Run(ms))
  {
    if ms != [] {
      AlwaysCoherent(ms[..|ms| - 1]);
      CoherentStep(Run(ms[..|ms| - 1]), ms[|ms| - 1]);
    }
  }

  //////////////////////////////////////////////////////////////////////////////
  // What an Ea message publishes
  //////////////////////////////////////////////////////////////////////////////

  function Prns(ss: seq<Sat>): set<int>
  {
    set k | 0 <= k < |ss| :: ss[k].prn
  }

  function BbPrns(bb: seq<Entry>): set<int>
  {
    set k | 0 <= k < |bb| :: bb[k].prn
  }

  function ActivePrns(cs: seq<Channel>): set<int>
  {
    set k | 0 <= k < |cs| :: cs[k].sv
  }

  // The received satellites come first, in order.
  lemma PlacedPart(bb: seq<Entry>, cs: seq<Channel>)
    ensures var sats := PlacedAll(bb, cs) + LeftOver(bb, cs, |bb|);
      && |sats| == |cs| + |LeftOver(bb, cs, |bb|)|
      && (forall k :: 0 <= k < |cs| ==> sats[k].prn == cs[k].sv)
      && sats[|cs|..] == LeftOver(bb, cs, |bb|)
  {
  }

  lemma TakenHas(bb: seq<Entry>, cs: seq<Channel>, j: nat) returns (k: nat)
    requires j < |bb| && Taken(bb, cs, j)
    ensures k < |cs| && cs[k].sv == bb[j].prn
  {
    k :| k < |cs| && Find(bb, cs[k].sv) == j;
  }

  lemma UnionPrns(bb: seq<Entry>, cs: seq<Channel>)
    ensures Prns(PlacedAll(bb, cs) + LeftOver(bb, cs, |bb|)) == ActivePrns(cs) + BbPrns(bb)
  {
    hide LeftOver, PlacedAll, Taken;
    var sats := PlacedAll(bb, cs) + LeftOver(bb, cs, |bb|);
    PlacedPart(bb, cs);
    forall j | 0 <= j < |bb| ensures bb[j].prn in Prns(sats) {
      if Taken(bb, cs, j) {
        var k := TakenHas(bb, cs, j);
        assert sats[k].prn == bb[j].prn;
      } else {
        var k := LeftOverHas(bb, cs, |bb|, j);
        assert sats[|cs| + k] == sats[|cs|..][k];
      }
    }
    forall k | 0 <= k < |cs| ensures cs[k].sv in Prns(sats) {
      assert sats[k].prn == cs[k].sv;
    }
    forall k | |cs| <= k < |sats| ensures sats[k].prn in BbPrns(bb) {
      assert sats[k] == sats[|cs|..][k - |cs|];
      var j := LeftOverEntry(bb, cs, |bb|, k - |cs|);
      assert sats[k].prn == bb[j].prn;
    }
  }

  // The union of the received satellites and the Bb list.
  lemma EaUnion(l: Lists, buf: seq<byte>)
    requires |buf| == 76 && |l.bb| <= BB_MAX
    ensures var n := Step(l, Ea(buf));
      Prns(n.sats) == ActivePrns(Active(buf, EA_CHANNELS)) + BbPrns(l.bb) && |n.sats| <= 20
  {
    hide LeftOver, PlacedAll, Active;
    UnionPrns(l.bb, Active(buf, EA_CHANNELS));
    PlacedPart(l.bb, Active(buf, EA_CHANNELS));
  }

  // The published list never holds more than 20 satellites.
  lemma {:induction false} AlwaysShort(ms: seq<Message>)
    ensures |Run(ms).bb| <= BB_MAX && |Run(ms).sats| <= 20
  {
    if ms != [] {
      var l, m := Run(ms[..|ms| - 1]), ms[|ms| - 1];
      AlwaysShort(ms[..|ms| - 1]);
      if m.Ea? && |m.buf| == 76 {
        EaUnion(l, m.buf);
      }
    }
  }

  lemma {:induction false} LeftOverDistinct(bb: seq<Entry>, cs: seq<Channel>, n: nat)
    requires n <= |bb| && DistinctEntries(bb)
    ensures DistinctSats(LeftOver(bb, cs, n))
  {
    if n > 0 {
      LeftOverDistinct(bb, cs, n - 1);
      var rest := LeftOver(bb, cs, n - 1);
      forall k | 0 <= k < |rest| ensures rest[k].prn != bb[n - 1].prn {
        var j := LeftOverEntry(bb, cs, n - 1, k);
      }
    }
  }

  lemma {:induction false} LeftOverDistinctBack(bb: seq<Entry>, cs: seq<Channel>, n: nat, i: nat, j: nat)
    requires i < j < n <= |bb| && !Taken(bb, cs, i) && !Taken(bb, cs, j) && DistinctSats(LeftOver(bb, cs, n))
    ensures bb[i].prn != bb[j].prn
  {
    var rest := LeftOver(bb, cs, n - 1);
    assert LeftOver(bb, cs, n)[..|rest|] == rest;
    if j < n - 1 {
      LeftOverDistinctBack(bb, cs, n - 1, i, j);
    } else {
      var k := LeftOverHas(bb, cs, n - 1, i);
      assert LeftOver(bb, cs, n)[k] == rest[k] && LeftOver(bb, cs, n)[|rest|].prn == bb[j].prn;
    }
  }

  lemma FindOnly(bb: seq<Entry>, sv: int, k: nat)
    requires DistinctEntries(bb) && k < |bb| && bb[k].prn == sv
    ensures Find(bb, sv) == k
  {
    var i := Find(bb, sv);
    assert i <= k && bb[i].prn == sv;
  }

  lemma UnionDistinct(bb: seq<Entry>, cs: seq<Channel>)
    requires DistinctEntries(bb) && DistinctChannels(cs)
    ensures DistinctSats(PlacedAll(bb, cs) + LeftOver(bb, cs, |bb|))
  {
    var sats := PlacedAll(bb, cs) + LeftOver(bb, cs, |bb|);
    PlacedPart(bb, cs);
    LeftOverDistinct(bb, cs, |bb|);
    forall i, j | 0 <= i < j < |sats| ensures sats[i].prn != sats[j].prn {
      if i < |cs| <= j {
        assert sats[j] == sats[|cs|..][j - |cs|];
        var k := LeftOverEntry(bb, cs, |bb|, j - |cs|);
        if cs[i].sv == bb[k].prn {
          FindOnly(bb, cs[i].sv, k);
        }
      } else if |cs| <= i {
        assert sats[i] == sats[|cs|..][i - |cs|] && sats[j] == sats[|cs|..][j - |cs|];
      }
    }
  }

  lemma DistinctPart(ss: seq<Sat>, n: nat)
    requires n <= |ss| && DistinctSats(ss)
    ensures DistinctSats(ss[n..])
  {
  }

  lemma UnionDistinctBack(bb: seq<Entry>, cs: seq<Channel>, i: nat, j: nat)
    requires i < j < |bb| && DistinctSats(PlacedAll(bb, cs) + LeftOver(bb, cs, |bb|))
    ensures bb[i].prn != bb[j].prn
  {
    hide LeftOver, PlacedAll;
    var sats := PlacedAll(bb, cs) + LeftOver(bb, cs, |bb|);
    PlacedPart(bb, cs);
    if bb[i].prn == bb[j].prn {
      if Taken(bb, cs, i) {
        var k := TakenHas(bb, cs, i);
        assert !Taken(bb, cs, j);
        hide Taken;
        var m := LeftOverHas(bb, cs, |bb|, j);
        assert false;
      } else {
        DistinctPart(sats, |cs|);
        LeftOverDistinctBack(bb, cs, |bb|, i, j);
      }
    }
  }

  // No satellite is published twice exactly if none is received or listed twice.
  lemma EaDistinct(l: Lists, buf: seq<byte>)
    requires |buf| == 76
    ensures DistinctSats(Step(l, Ea(buf)).sats) <==>
      DistinctEntries(l.bb) && DistinctChannels(Active(buf, EA_CHANNELS))
  {
    var cs := Active(buf, EA_CHANNELS);
    hide LeftOver, PlacedAll, Active;
    PlacedPart(l.bb, cs);
    if DistinctEntries(l.bb) && DistinctChannels(cs) {
      UnionDistinct(l.bb, cs);
    }
    if DistinctSats(Step(l, Ea(buf)).sats) {
      forall i, j | 0 <= i < j < |l.bb| ensures l.bb[i].prn != l.bb[j].prn {
        UnionDistinctBack(l.bb, cs, i, j);
      }
    }
  }

  //////////////////////////////////////////////////////////////////////////////
  // What a receiver sends is what the lists hold
  //////////////////////////////////////////////////////////////////////////////

  // A satellite of a Bb message, seven bytes: PRN, two of Doppler shift, elevation, two of
  // azimuth with the high byte first, and one of health.
  datatype Sighting = Sighting(entry: Entry, dopplerHigh: byte, dopplerLow: byte, health: byte)

  predicate Sendable(e: Entry)
  {
    0 <= e.prn < 256 && 0 <= e.elevation < 256 && 0 <= e.azimuth < 65536
  }

  function SightingBytes(s: Sighting): (r: seq<byte>)
    requires Sendable(s.entry)
    ensures |r| == 7
  {
    [s.entry.prn, s.dopplerHigh, s.dopplerLow, s.entry.elevation, s.entry.azimuth / 256, s.entry.azimuth % 256, s.health]
  }

  function SightingsBytes(ss: seq<Sighting>): (r: seq<byte>)
    requires forall s :: s in ss ==> Sendable(s.entry)
    ensures |r| == 7 * |ss|
  {
    if ss == [] then [] else SightingsBytes(ss[..|ss| - 1]) + SightingBytes(ss[|ss| - 1])
  }

  function Entries(ss: seq<Sighting>): (es: seq<Entry>)
    ensures |es| == |ss|
  {
    seq(|ss|, i requires 0 <= i < |ss| => ss[i].entry)
  }

  lemma {:induction false} SightingAt(ss: seq<Sighting>, i: nat)
    requires i < |ss| && forall s :: s in ss ==> Sendable(s.entry)
    ensures var r, e := SightingsBytes(ss), ss[i].entry;
      r[7 * i] == e.prn && r[7 * i + 3] == e.elevation && (r[7 * i + 4] as int) * 256 + r[7 * i + 5] == e.azimuth
  {
    var n := |ss| - 1;
    assert ss[n] in ss;
    if i < n {
      SightingAt(ss[..n], i);
    }
  }

  // Up to twelve satellites behind a header and their number, and something behind them:
  // the driver's list is then what was sent, and a published satellite is where its entry
  // says, or where it was if it has none.
  lemma BbSent(l: Lists, head: seq<byte>, ss: seq<Sighting>, rest: seq<byte>)
    requires |head| == 4 && |ss| <= 12 && forall s :: s in ss ==> Sendable(s.entry)
    requires |head + [|ss|] + SightingsBytes(ss) + rest| == 92
    ensures var n := Step(l, Bb(head + [|ss|] + SightingsBytes(ss) + rest));
      && n.bb == Entries(ss) && n.used == l.used && |n.sats| == |l.sats|
      && forall k :: 0 <= k < |l.sats| ==>
           && n.sats[k].prn == l.sats[k].prn && n.sats[k].ss == l.sats[k].ss
           && ((forall i :: 0 <= i < |ss| ==> ss[i].entry.prn != l.sats[k].prn) ==> n.sats[k] == l.sats[k])
           && (DistinctEntries(Entries(ss)) ==>
                 forall i :: 0 <= i < |ss| && ss[i].entry.prn == l.sats[k].prn ==>
                   n.sats[k].elevation == ss[i].entry.elevation && n.sats[k].azimuth == ss[i].entry.azimuth)
  {
    var buf := head + [|ss|] + SightingsBytes(ss) + rest;
    assert buf[4] == |ss|;
    forall i | 0 <= i < |ss| ensures BbRecord(buf, i) == ss[i].entry {
      SightingAt(ss, i);
      BbRecordAt(head, SightingsBytes(ss), rest, |ss|, i);
    }
    assert BbRecords(buf) == Entries(ss);
    hide BbRecords, SightingsBytes, MovedAll;
    forall k | 0 <= k < |l.sats|
      ensures (forall i :: 0 <= i < |ss| ==> ss[i].entry.prn != l.sats[k].prn) ==> MovedAll(l.sats[k], Entries(ss)) == l.sats[k]
      ensures DistinctEntries(Entries(ss)) ==>
                forall i :: 0 <= i < |ss| && ss[i].entry.prn == l.sats[k].prn ==>
                  && MovedAll(l.sats[k], Entries(ss)).elevation == ss[i].entry.elevation
                  && MovedAll(l.sats[k], Entries(ss)).azimuth == ss[i].entry.azimuth
    {
      MovedSighted(l.sats[k], ss);
    }
  }

  lemma BbRecordAt(head: seq<byte>, r: seq<byte>, rest: seq<byte>, count: byte, i: nat)
    requires |head| == 4 && |head + [count] + r + rest| == 92 && i < BB_MAX && 7 * i + 7 <= |r|
    ensures BbRecord(head + [count] + r + rest, i)
         == Entry(r[7 * i], r[7 * i + 3], (r[7 * i + 4] as int) * 256 + r[7 * i + 5])
  {
  }

  lemma MovedSighted(s: Sat, ss: seq<Sighting>)
    ensures (forall i :: 0 <= i < |ss| ==> ss[i].entry.prn != s.prn) ==> MovedAll(s, Entries(ss)) == s
    ensures DistinctEntries(Entries(ss)) ==>
              forall i :: 0 <= i < |ss| && ss[i].entry.prn == s.prn ==>
                && MovedAll(s, Entries(ss)).elevation == ss[i].entry.elevation
                && MovedAll(s, Entries(ss)).azimuth == ss[i].entry.azimuth
  {
    hide MovedAll;
    var es := Entries(ss);
    if forall i :: 0 <= i < |ss| ==> ss[i].entry.prn != s.prn {
      NotMoved(s, es);
    }
    if DistinctEntries(es) {
      forall i | 0 <= i < |ss| && ss[i].entry.prn == s.prn
        ensures MovedAll(s, es).elevation == ss[i].entry.elevation && MovedAll(s, es).azimuth == ss[i].entry.azimuth
      {
        MovedTo(s, es, i);
      }
    }
  }

  lemma {:induction false} NotMoved(s: Sat, es: seq<Entry>)
    requires forall i :: 0 <= i < |es| ==> es[i].prn != s.prn
    ensures MovedAll(s, es) == s
  {
    if es != [] {
      NotMoved(s, es[..|es| - 1]);
    }
  }

  // A number above twelve is taken for twelve, whatever follows; a message of another length
  // is ignored.
  lemma BbCounted(l: Lists, buf: seq<byte>)
    ensures |buf| == 92 ==> |Step(l, Bb(buf)).bb| == if buf[4] <= 12 then buf[4] else 12
    ensures |buf| != 92 ==> Step(l, Bb(buf)) == l
    ensures |buf| != 76 ==> Step(l, Ea(buf)) == l
  {
  }

  // A channel of an Ea message, four bytes.
  predicate SendableChannel(c: Channel)
  {
    0 <= c.sv < 256 && 0 <= c.mode < 256 && 0 <= c.sn < 256 && 0 <= c.status < 256
  }

  function ChannelBytes(c: Channel): (r: seq<byte>)
    requires SendableChannel(c)
    ensures |r| == 4
  {
    [c.sv, c.mode, c.sn, c.status]
  }

  function ChannelsBytes(cs: seq<Channel>): (r: seq<byte>)
    requires forall c :: c in cs ==> SendableChannel(c)
    ensures |r| == 4 * |cs|
  {
    if cs == [] then [] else ChannelsBytes(cs[..|cs| - 1]) + ChannelBytes(cs[|cs| - 1])
  }

  // The channels with a signal, and those of them whose status has bit 7 set.
  function Received(cs: seq<Channel>): seq<Channel>
  {
    if cs == [] then []
    else Received(cs[..|cs| - 1]) + (if cs[|cs| - 1].sn > 0 then [cs[|cs| - 1]] else [])
  }

  function InFix(cs: seq<Channel>): seq<int>
  {
    if cs == [] then []
    else InFix(cs[..|cs| - 1]) + (if cs[|cs| - 1].status >= 128 then [cs[|cs| - 1].sv] else [])
  }

  lemma {:induction false} ChannelAt(cs: seq<Channel>, i: nat)
    requires i < |cs| && forall c :: c in cs ==> SendableChannel(c)
    ensures var r, c := ChannelsBytes(cs), cs[i];
      r[4 * i] == c.sv && r[4 * i + 1] == c.mode && r[4 * i + 2] == c.sn && r[4 * i + 3] == c.status
  {
    var n := |cs| - 1;
    assert cs[n] in cs;
    if i < n {
      ChannelAt(cs[..n], i);
    }
  }

  lemma {:induction false} ActiveSent(buf: seq<byte>, cs: seq<Channel>, n: nat)
    requires |buf| == 76 && n <= |cs| == 8
    requires forall c :: c in cs ==> SendableChannel(c)
    requires forall i :: 0 <= i < 8 ==> EaChannel(buf, i) == cs[i]
    ensures Active(buf, n) == Received(cs[..n])
  {
    hide EaChannel;
    if n > 0 {
      ActiveSent(buf, cs, n - 1);
      assert cs[..n][..n - 1] == cs[..n - 1];
      assert cs[n - 1] in cs;
    }
  }

  lemma EaChannelAt(head: seq<byte>, r: seq<byte>, rest: seq<byte>, i: nat)
    requires |head| == 40 && |r| == 32 && |rest| == 4 && i < 8
    ensures EaChannel(head + r + rest, i) == Channel(r[4 * i], r[4 * i + 1], r[4 * i + 2], r[4 * i + 3])
  {
  }

  lemma {:induction false} InFixUsed(cs: seq<Channel>)
    requires forall i :: 0 <= i < |cs| ==> SendableChannel(cs[i])
    ensures UsedPrns(cs) == InFix(cs)
  {
    if cs != [] {
      InFixUsed(cs[..|cs| - 1]);
    }
  }

  lemma {:induction false} ReceivedSendable(cs: seq<Channel>)
    requires forall i :: 0 <= i < |cs| ==> SendableChannel(cs[i])
    ensures forall i :: 0 <= i < |Received(cs)| ==> SendableChannel(Received(cs)[i])
  {
    hide SendableChannel;
    if cs != [] {
      ReceivedSendable(cs[..|cs| - 1]);
    }
  }

  // Satellite sv at strength sn, where the list has it first, or at 0, 0 if it does not.
  ghost predicate ShownAs(s: Sat, sv: int, sn: int, bb: seq<Entry>)
  {
    && s.prn == sv && s.ss == sn
    && ((forall i :: 0 <= i < |bb| ==> bb[i].prn != sv) ==> s.elevation == 0 && s.azimuth == 0)
    && forall i :: 0 <= i < |bb| && bb[i].prn == sv && (forall j :: 0 <= j < i ==> bb[j].prn != sv) ==>
         s.elevation == bb[i].elevation && s.azimuth == bb[i].azimuth
  }

  lemma PlacedShown(bb: seq<Entry>, c: Channel)
    ensures ShownAs(Placed(bb, c), c.sv, c.sn, bb)
  {
    var f := Find(bb, c.sv);
    forall i | 0 <= i < |bb| && bb[i].prn == c.sv && (forall j :: 0 <= j < i ==> bb[j].prn != c.sv) ensures i == f {
    }
  }

  // An entry of the list without a signal, if no received satellite has its PRN or an entry
  // before it has that too.
  ghost predicate ListedOnly(s: Sat, bb: seq<Entry>, cs: seq<Channel>)
  {
    exists j :: 0 <= j < |bb| && IsEntry(s, bb[j])
      && ((forall k :: 0 <= k < |cs| ==> cs[k].sv != s.prn) || exists i :: 0 <= i < j && bb[i].prn == s.prn)
  }

  predicate IsEntry(s: Sat, e: Entry)
  {
    s == Sat(e.prn, e.elevation, e.azimuth, 0)
  }

  lemma LeftOverListed(bb: seq<Entry>, cs: seq<Channel>, k: nat)
    requires k < |LeftOver(bb, cs, |bb|)|
    ensures ListedOnly(LeftOver(bb, cs, |bb|)[k], bb, cs)
  {
    var s := LeftOver(bb, cs, |bb|)[k];
    var j := LeftOverEntry(bb, cs, |bb|, k);
    hide LeftOver;
    assert IsEntry(s, bb[j]);
    if q :| 0 <= q < |cs| && cs[q].sv == s.prn {
      var i := Find(bb, cs[q].sv);
      assert i != j;
      assert i < j && bb[i].prn == s.prn;
    }
  }

  // Eight channels behind 40 bytes: published are the ones with a signal, in their order
  // and with their strength, then entries of the list without; the PRNs used are those of
  // the received satellites with bit 7 in their status.
  lemma EaSent(l: Lists, head: seq<byte>, cs: seq<Channel>, rest: seq<byte>)
    requires |head| == 40 && |cs| == 8 && |rest| == 4 && forall c :: c in cs ==> SendableChannel(c)
    ensures var n, rs := Step(l, Ea(head + ChannelsBytes(cs) + rest)), Received(cs);
      && n.bb == l.bb && n.used == InFix(rs) && |n.sats| >= |rs|
      && (forall k :: 0 <= k < |rs| ==> ShownAs(n.sats[k], rs[k].sv, rs[k].sn, l.bb))
      && forall k :: |rs| <= k < |n.sats| ==> ListedOnly(n.sats[k], l.bb, rs)
  {
    var buf, rs := head + ChannelsBytes(cs) + rest, Received(cs);
    forall i | 0 <= i < 8 ensures EaChannel(buf, i) == cs[i] {
      ChannelAt(cs, i);
      EaChannelAt(head, ChannelsBytes(cs), rest, i);
    }
    ActiveSent(buf, cs, 8);
    assert cs[..8] == cs;
    forall i | 0 <= i < |cs| ensures SendableChannel(cs[i]) {
      assert cs[i] in cs;
    }
    ReceivedSendable(cs);
    InFixUsed(rs);
    PublishedShown(l.bb, rs);
    hide *;
    EaStep(l, buf, rs);
  }

  lemma EaStep(l: Lists, buf: seq<byte>, rs: seq<Channel>)
    requires |buf| == 76 && Active(buf, 8) == rs
    ensures Step(l, Ea(buf)) == Lists(l.bb, PlacedAll(l.bb, rs) + LeftOver(l.bb, rs, |l.bb|), UsedPrns(rs))
  {
    hide Active, PlacedAll, LeftOver, UsedPrns;
  }

  lemma PublishedShown(bb: seq<Entry>, rs: seq<Channel>)
    ensures var sats := PlacedAll(bb, rs) + LeftOver(bb, rs, |bb|);
      && |sats| >= |rs|
      && (forall k :: 0 <= k < |rs| ==> ShownAs(sats[k], rs[k].sv, rs[k].sn, bb))
      && forall k :: |rs| <= k < |sats| ==> ListedOnly(sats[k], bb, rs)
  {
    hide LeftOver, Placed, ShownAs, ListedOnly;
    var sats := PlacedAll(bb, rs) + LeftOver(bb, rs, |bb|);
    forall k | 0 <= k < |rs| ensures ShownAs(sats[k], rs[k].sv, rs[k].sn, bb) {
      PlacedShown(bb, rs[k]);
    }
    forall k | |rs| <= k < |sats| ensures ListedOnly(sats[k], bb, rs) {
      LeftOverListed(bb, rs, k - |rs|);
    }
  }

  //////////////////////////////////////////////////////////////////////////////
  // The driver
  //////////////////////////////////////////////////////////////////////////////

  class Session {
    const bb: array<Entry>
    var bbVisible: nat
    const sats: array<Sat>
    var visible: nat
    const used: array<int>
    var satellitesUsed: nat

    // No message makes the published list longer than 20.
    ghost predicate Valid()
      reads this
    {
      && bb.Length == BB_MAX && sats.Length == used.Length == MAXCHANNELS
      && bbVisible <= BB_MAX && visible <= EA_CHANNELS + BB_MAX && satellitesUsed <= EA_CHANNELS
    }

    ghost function Value(): Lists
      requires Valid()
      reads this, bb, sats, used
    {
      Lists(bb[..bbVisible], sats[..visible], used[..satellitesUsed])
    }

    constructor ()
      ensures Valid() && fresh(bb) && fresh(sats) && fresh(used)
      ensures Value() == Run([])
    {
      bb := new Entry[BB_MAX](_ => Entry(0, 0, 0));
      sats := new Sat[MAXCHANNELS](_ => Sat(0, 0, 0, 0));
      used := new int[MAXCHANNELS](_ => 0);
      bbVisible, visible, satellitesUsed := 0, 0, 0;
      new;
      assert bb[..0] == [] && sats[..0] == [] && used[..0] == [];
    }

    // Moves every published satellite of one PRN.
    method Move(e: Entry)
      requires Valid()
      modifies sats
      ensures sats[..visible] == MovedEach(old(sats[..visible]), e)
    {
      for j := 0 to visible
        invariant forall k :: 0 <= k < j ==> sats[k] == Moved(old(sats[k]), e)
        invariant forall k :: j <= k < visible ==> sats[k] == old(sats[k])
      {
        if sats[j].prn == e.prn {
          sats[j] := sats[j].(elevation := e.elevation, azimuth := e.azimuth);
        }
      }
    }

    // oncore_msg_svinfo
    method Svinfo(buf: seq<byte>) returns (done: bool)
      requires Valid()
      modifies this`bbVisible, bb, sats
      ensures Valid() && visible == old(visible)
      ensures done <==> |buf| == 92
      ensures Value() == Step(old(Value()), Bb(buf))
    {
      if |buf| != 92 {
        return false;
      }
      var nchan: nat := buf[4];
      if nchan > 12 {
        nchan := 12;
      }
      bbVisible := nchan;
      ghost var es, was := BbRecords(buf), sats[..visible];
      assert sats[..visible] == MovedBy(was, es[..0]);
      for i := 0 to nchan
        invariant bbVisible == nchan && bb[..i] == es[..i]
        invariant sats[..visible] == MovedBy(was, es[..i])
      {
        var off := 5 + 7 * i;
        var sv, el: int, az := buf[off], buf[off + 3], (buf[off + 4] as int) * 256 + buf[off + 5];
        bb[i] := Entry(sv, el, az);
        Move(Entry(sv, el, az));
        MovedByNext(was, es, i);
        assert bb[..i + 1] == bb[..i] + [es[i]] && es[..i + 1] == es[..i] + [es[i]];
      }
      assert es[..nchan] == es;
      done := true;
    }

    // gpsd_zero_satellites
    method ZeroSatellites()
      requires Valid()
      modifies this`visible, sats
      ensures Valid() && visible == 0 && forall k :: 0 <= k < MAXCHANNELS ==> sats[k] == Sat(0, 0, 0, 0)
    {
      forall i | 0 <= i < MAXCHANNELS { sats[i] := Sat(0, 0, 0, 0); }
      visible := 0;
    }

    // Puts a received satellite where the Bb list has it, and marks the entry.
    method Place(st: nat, c: Channel, claimed: set<nat>) returns (now: set<nat>)
      requires Valid() && st < MAXCHANNELS && sats[st] == Sat(0, 0, 0, 0)
      modifies sats
      ensures sats[st] == Placed(bb[..bbVisible], c) && forall k :: 0 <= k < MAXCHANNELS && k != st ==> sats[k] == old(sats[k])
      ensures var i := Find(bb[..bbVisible], c.sv); now == if i < bbVisible then claimed + {i} else claimed
    {
      now := claimed;
      sats[st] := sats[st].(prn := c.sv, ss := c.sn);
      for j := 0 to bbVisible
        invariant forall k :: 0 <= k < j ==> bb[k].prn != c.sv
        invariant sats[st] == Sat(c.sv, 0, 0, c.sn)
        invariant forall k :: 0 <= k < MAXCHANNELS && k != st ==> sats[k] == old(sats[k])
      {
        if bb[j].prn == c.sv {
          sats[st] := sats[st].(elevation := bb[j].elevation, azimuth := bb[j].azimuth);
          now := now + {j};
          break;
        }
      }
    }

    // The received satellites, in the order of their channels.
    method MergeReceived(buf: seq<byte>) returns (st: nat, bbUsed: set<nat>, nsv: nat)
      requires Valid() && |buf| == 76
      requires forall k :: 0 <= k < MAXCHANNELS ==> sats[k] == Sat(0, 0, 0, 0)
      modifies sats, used
      ensures var cs, list := Active(buf, EA_CHANNELS), bb[..bbVisible];
        && st == |cs| && sats[..st] == PlacedAll(list, cs)
        && nsv <= EA_CHANNELS && used[..nsv] == UsedPrns(cs)
        && forall j: nat :: j in bbUsed <==> j < bbVisible && Taken(list, cs, j)
      ensures forall k :: st <= k < MAXCHANNELS ==> sats[k] == Sat(0, 0, 0, 0)
    {
      hide Find, Placed, PlacedAll, Used, UsedPrns, Taken, EaChannel;
      st, bbUsed, nsv := 0, {}, 0;
      ghost var list := bb[..bbVisible];
      MergedNone(list);
      ghost var cs := [];
      for i := 0 to EA_CHANNELS
        invariant cs == Active(buf, i) && st == |cs| <= i && nsv <= i
        invariant sats[..st] == PlacedAll(list, cs) && used[..nsv] == UsedPrns(cs)
        invariant forall j: nat :: j in bbUsed <==> j < bbVisible && Taken(list, cs, j)
        invariant forall k :: st <= k < MAXCHANNELS ==> sats[k] == Sat(0, 0, 0, 0)
      {
        var c := EaChannel(buf, i);
        if c.sn != 0 {
          ghost var before := sats[..st];
          bbUsed := Place(st, c, bbUsed);
          MergedOne(list, cs, c);
          st := st + 1;
          assert sats[..st] == before + [Placed(list, c)];
          if Used(c) {
            used[nsv] := c.sv;
            nsv := nsv + 1;
            assert used[..nsv] == UsedPrns(cs) + [c.sv];
          }
          cs := cs + [c];
        }
      }
    }

    // The entries of the Bb list that no received satellite has taken over.
    method AppendLeftOver(start: nat, bbUsed: set<nat>, ghost cs: seq<Channel>) returns (st: nat)
      requires Valid() && start <= EA_CHANNELS
      requires forall j: nat :: j < bbVisible ==> (j in bbUsed <==> Taken(bb[..bbVisible], cs, j))
      requires forall k :: start <= k < MAXCHANNELS ==> sats[k] == Sat(0, 0, 0, 0)
      modifies sats
      ensures st <= start + bbVisible
      ensures sats[..st] == old(sats[..start]) + LeftOver(bb[..bbVisible], cs, bbVisible)
    {
      hide Taken;
      st := start;
      ghost var list := bb[..bbVisible];
      for j := 0 to bbVisible
        invariant start <= st <= start + j
        invariant sats[..st] == old(sats[..start]) + LeftOver(list, cs, j)
        invariant forall k :: st <= k < MAXCHANNELS ==> sats[k] == Sat(0, 0, 0, 0)
      {
        if j !in bbUsed {
          ghost var before := sats[..st];
          sats[st] := sats[st].(prn := bb[j].prn, elevation := bb[j].elevation, azimuth := bb[j].azimuth);
          st := st + 1;
          assert sats[..st] == before + [Sat(list[j].prn, list[j].elevation, list[j].azimuth, 0)];
        }
      }
    }

    // The satellites in oncore_msg_navsol
    method Navsol(buf: seq<byte>) returns (done: bool)
      requires Valid()
      modifies this`visible, this`satellitesUsed, sats, used
      ensures Valid()
      ensures done <==> |buf| == 76
      ensures Value() == Step(old(Value()), Ea(buf))
    {
      hide LeftOver, PlacedAll, Active, UsedPrns, Taken;
      if |buf| != 76 {
        return false;
      }
      ZeroSatellites();
      var st, bbUsed, nsv := MergeReceived(buf);
      st := AppendLeftOver(st, bbUsed, Active(buf, EA_CHANNELS));
      satellitesUsed := nsv;
      visible := st;
      done := true;
    }
  }
}
