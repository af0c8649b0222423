/**
 Assembly of the satellite list from GSV sentences (processGPGSV in driver_nmea.c).  A
 receiver spreads its list over parts 1..N; the list is published with the sentence whose
 part number reaches N, whether or not the others have come.
 */
module Gsv {

  const MAXCHANNELS: nat := 72

  datatype Sat = Sat(prn: int, elevation: int, azimuth: int, ss: int)

  // A sentence: the number of fields, the numeric value of each (field 1 is the number of
  // parts), and the part number, None if field 2 does not start with a number.
  datatype Message = Message(fields: seq<int>, part: Part)
  datatype Part = Malformed | Number(value: int)

  // The published list, and the part counters.
  datatype View = View(sats: seq<Sat>, await: int, part: int)

  //////////////////////////////////////////////////////////////////////////////
  // What a sentence does
  //////////////////////////////////////////////////////////////////////////////

  function Records(fields: seq<int>): seq<Sat>
  {
    if |fields| < 4 then [] else [Sat(fields[0], fields[1], fields[2], fields[3])] + Records(fields[4..])
  }

  // Empty records, with PRN 0, are passed over.
  function NonZero(rs: seq<Sat>): seq<Sat>
  {
    if rs == [] then [] else NonZero(rs[..|rs| - 1]) + (if rs[|rs| - 1].prn != 0 then [rs[|rs| - 1]] else [])
  }

  // There is a channel left for every record, empty or not.
  predicate Fits(sats: seq<Sat>, rs: seq<Sat>)
  {
    FitsUpTo(sats, rs, |rs|)
  }

  predicate FitsUpTo(sats: seq<Sat>, rs: seq<Sat>, n: nat)
    requires n <= |rs|
  {
    forall r :: 0 <= r < n ==> |sats| + |NonZero(rs[..r])| < MAXCHANNELS
  }

  // Adds the records of one sentence; the list is dropped if they do not fit.
  function Added(sats: seq<Sat>, rs: seq<Sat>): seq<Sat>
  {
    if Fits(sats, rs) then sats + NonZero(rs) else []
  }

  predicate Sane(sats: seq<Sat>)
  {
    exists i :: 0 <= i < |sats| && sats[i].azimuth != 0
  }

  predicate WellFormed(m: Message)
  {
    |m.fields| > 3 && |m.fields| % 4 == 0 && m.part.Number?
  }

  // The new view, and whether SATELLITE_SET is returned.
  function Process(v: View, m: Message): (View, bool)
  {
    if |m.fields| <= 3 || |m.fields| % 4 != 0 then (v.(sats := []), false)
    else if m.part.Malformed? then (v.(sats := [], await := m.fields[1]), false)
    else
      var sats := Added(if m.part.value == 1 then [] else v.sats, Records(m.fields[4..]));
      var complete := m.part.value >= m.fields[1];
      (View(if complete && !Sane(sats) then [] else sats, m.fields[1], m.part.value), complete && Sane(sats))
  }

  lemma {:induction false} NonZeroAppend(rs: seq<Sat>, ts: seq<Sat>)
    ensures NonZero(rs + ts) == NonZero(rs) + NonZero(ts)
  {
    if ts == [] {
      assert rs + ts == rs;
    } else {
      NonZeroAppend(rs, ts[..|ts| - 1]);
      assert (rs + ts)[..|rs + ts| - 1] == rs + ts[..|ts| - 1];
    }
  }

  // Records fit in two batches when they fit in one.
  lemma FitsAppend(sats: seq<Sat>, rs: seq<Sat>, ts: seq<Sat>)
    ensures Fits(sats, rs + ts) <==> Fits(sats, rs) && Fits(sats + NonZero(rs), ts)
  {
    forall r | 0 <= r <= |rs| ensures (rs + ts)[..r] == rs[..r] {
    }
    forall r | 0 <= r <= |ts| ensures NonZero((rs + ts)[..|rs| + r]) == NonZero(rs) + NonZero(ts[..r]) {
      assert (rs + ts)[..|rs| + r] == rs + ts[..r];
      NonZeroAppend(rs, ts[..r]);
    }
    if Fits(sats, rs) && Fits(sats + NonZero(rs), ts) {
      forall r | 0 <= r < |rs + ts| ensures |sats| + |NonZero((rs + ts)[..r])| < MAXCHANNELS {
        if r >= |rs| {
          var q := r - |rs|;
          assert |sats + NonZero(rs)| + |NonZero(ts[..q])| < MAXCHANNELS;
          assert (rs + ts)[..|rs| + q] == (rs + ts)[..r];
        }
      }
    }
    if Fits(sats, rs + ts) {
      forall r | 0 <= r < |rs| ensures |sats| + |NonZero(rs[..r])| < MAXCHANNELS {
        assert (rs + ts)[..r] == rs[..r];
      }
      forall q | 0 <= q < |ts| ensures |sats + NonZero(rs)| + |NonZero(ts[..q])| < MAXCHANNELS {
        assert |sats| + |NonZero((rs + ts)[..|rs| + q])| < MAXCHANNELS;
      }
    }
  }

  // The records are added one by one; one that finds no channel drops the list.
  lemma AddedFirst(sats: seq<Sat>, r: Sat, rest: seq<Sat>)
    ensures Added(sats, [r] + rest) ==
      if |sats| >= MAXCHANNELS then [] else Added(sats + (if r.prn != 0 then [r] else []), rest)
  {
    NonZeroAppend([r], rest);
    FitsAppend(sats, [r], rest);
    OneRecord(sats, r);
    hide Fits, NonZero;
    var one := if r.prn != 0 then [r] else [];
    assert sats + (one + NonZero(rest)) == sats + one + NonZero(rest);
  }

  lemma OneRecord(sats: seq<Sat>, r: Sat)
    ensures NonZero([r]) == if r.prn != 0 then [r] else []
    ensures Fits(sats, [r]) <==> |sats| < MAXCHANNELS
  {
    assert [r][..0] == [];
    assert NonZero([r][..0]) == [];
  }

  lemma AddedNone(sats: seq<Sat>)
    ensures Added(sats, []) == sats
  {
  }

  lemma NextRecord(fields: seq<int>, k: nat)
    requires k + 4 <= |fields|
    ensures Records(fields[k..]) ==
      [Sat(fields[k], fields[k + 1], fields[k + 2], fields[k + 3])] + Records(fields[k + 4..])
  {
    assert fields[k..][4..] == fields[k + 4..];
  }

  lemma NoRecords(fields: seq<int>)
    ensures Records(fields[|fields|..]) == []
  {
  }

  class Skyview {
    var await: int
    var part: int
    var visible: nat
    const prn: array<int>
    const elevation: array<int>
    const azimuth: array<int>
    const ss: array<int>
    ghost const Repr: set<object>

    ghost predicate Valid()
      reads this
    {
      && prn.Length == elevation.Length == azimuth.Length == ss.Length == MAXCHANNELS
      && prn != elevation && prn != azimuth && prn != ss
      && elevation != azimuth && elevation != ss && azimuth != ss
      && Repr == {this, prn, elevation, azimuth, ss}
      && visible <= MAXCHANNELS
    }

    ghost function Published(): (s: seq<Sat>)
      requires Valid()
      reads this, Repr
      ensures |s| == visible
    {
      seq(visible, i requires Valid() && 0 <= i < visible reads this, Repr => Sat(prn[i], elevation[i], azimuth[i], ss[i]))
    }

    ghost function Value(): View
      requires Valid()
      reads this, Repr
    {
      View(Published(), await, part)
    }

    constructor ()
      ensures Valid() && fresh(Repr) && Value() == View([], 0, 0)
    {
      var p, e := new int[MAXCHANNELS](_ => 0), new int[MAXCHANNELS](_ => 0);
      var a, n := new int[MAXCHANNELS](_ => 0), new int[MAXCHANNELS](_ => 0);
      await, part, visible := 0, 0, 0;
      prn, elevation, azimuth, ss := p, e, a, n;
      Repr := {this, p, e, a, n};
    }

    // gpsd_zero_satellites
    method ZeroSatellites()
      requires Valid()
      modifies Repr
      ensures Valid() && Published() == [] && await == old(await) && part == old(part)
    {
      forall i | 0 <= i < MAXCHANNELS { prn[i] := 0; }
      forall i | 0 <= i < MAXCHANNELS { elevation[i] := 0; }
      forall i | 0 <= i < MAXCHANNELS { azimuth[i] := 0; }
      forall i | 0 <= i < MAXCHANNELS { ss[i] := 0; }
      visible := 0;
    }

    // Stores one record behind the list, and counts it unless its PRN is 0.
    method Store(r: Sat)
      requires Valid() && visible < MAXCHANNELS
      modifies Repr
      ensures Valid() && await == old(await) && part == old(part)
      ensures Published() == old(Published()) + (if r.prn != 0 then [r] else [])
    {
      prn[visible] := r.prn;
      elevation[visible] := r.elevation;
      azimuth[visible] := r.azimuth;
      ss[visible] := r.ss;
      if prn[visible] != 0 {
        visible := visible + 1;
      }
    }

    method AddRecords(fields: seq<int>)
      requires Valid() && |fields| % 4 == 0 && |fields| > 3
      modifies Repr
      ensures Valid() && await == old(await) && part == old(part)
      ensures Published() == Added(old(Published()), Records(fields[4..]))
    {
      hide Added, Records;
      ghost var all := Added(Published(), Records(fields[4..]));
      var fldnum := 4;
      while fldnum < |fields|
        invariant 4 <= fldnum <= |fields| && fldnum % 4 == 0
        invariant Valid() && await == old(await) && part == old(part)
        invariant Added(Published(), Records(fields[fldnum..])) == all
      {
        var r := Sat(fields[fldnum], fields[fldnum + 1], fields[fldnum + 2], fields[fldnum + 3]);
        NextRecord(fields, fldnum);
        AddedFirst(Published(), r, Records(fields[fldnum + 4..]));
        if visible >= MAXCHANNELS {
          ZeroSatellites();
          return;
        }
        Store(r);
        fldnum := fldnum + 4;
      }
      NoRecords(fields);
      AddedNone(Published());
    }

    method SanityCheck() returns (sane: bool)
      requires Valid()
      ensures sane <==> exists i :: 0 <= i < visible && azimuth[i] != 0
      ensures sane <==> Sane(Published())
    {
      forall i | 0 <= i < visible ensures Published()[i].azimuth == azimuth[i] {
      }
      hide Published;
      for n := 0 to visible
        invariant forall i :: 0 <= i < n ==> azimuth[i] == 0
      {
        if azimuth[n] != 0 {
          assert Published()[n].azimuth != 0;
          return true;
        }
      }
      return false;
    }

    // processGPGSV
    method Parse(m: Message) returns (satelliteSet: bool)
      requires Valid()
      modifies Repr
      ensures Valid() && (Value(), satelliteSet) == Process(old(Value()), m)
    {
      hide Added, Records, Sane;
      satelliteSet := false;
      if |m.fields| <= 3 {
        ZeroSatellites();
        return;
      }
      if |m.fields| % 4 != 0 {
        ZeroSatellites();
        return;
      }
      await := m.fields[1];
      if m.part.Malformed? {
        ZeroSatellites();
        return;
      }
      part := m.part.value;
      assert Published() == old(Published());
      if part == 1 {
        ZeroSatellites();
      }
      AddRecords(m.fields);
      if part < await {
        return;
      }
      satelliteSet := SanityCheck();
      if !satelliteSet {
        ZeroSatellites();
      }
    }
  }

  //////////////////////////////////////////////////////////////////////////////
  // Over runs of sentences
  //////////////////////////////////////////////////////////////////////////////

  // The view after a run of sentences, and what each of them returned.
  function Run(v: View, ms: seq<Message>): (View, seq<bool>)
  {
    if ms == [] then (v, [])
    else
      var (u, flags) := Run(v, ms[..|ms| - 1]);
      var (w, flag) := Process(u, ms[|ms| - 1]);
      (w, flags + [flag])
  }

  ghost predicate Publishable(sats: seq<Sat>)
  {
    |sats| <= MAXCHANNELS && forall i :: 0 <= i < |sats| ==> sats[i].prn != 0
  }

  lemma {:induction false} NonZeroSats(rs: seq<Sat>)
    ensures forall i :: 0 <= i < |NonZero(rs)| ==> NonZero(rs)[i].prn != 0
  {
    if rs != [] {
      NonZeroSats(rs[..|rs| - 1]);
    }
  }

  lemma AddedPublishable(sats: seq<Sat>, rs: seq<Sat>)
    requires Publishable(sats)
    ensures Publishable(Added(sats, rs))
  {
    NonZeroSats(rs);
    if Fits(sats, rs) && rs != [] {
      assert |sats| + |NonZero(rs[..|rs| - 1])| < MAXCHANNELS;
    }
  }

  // On any sentences whatever: at most MAXCHANNELS satellites, none with PRN 0.
  lemma {:induction false} AlwaysPublishable(v: View, ms: seq<Message>)
    requires Publishable(v.sats)
    ensures Publishable(Run(v, ms).0.sats) && |Run(v, ms).1| == |ms|
  {
    if ms != [] {
      var u := Run(v, ms[..|ms| - 1]).0;
      var m := ms[|ms| - 1];
      AlwaysPublishable(v, ms[..|ms| - 1]);
      if WellFormed(m) {
        AddedPublishable(if m.part.value == 1 then [] else u.sats, Records(m.fields[4..]));
      }
    }
  }

  // The records a sentence contributes.
  function Carried(m: Message): seq<Sat>
  {
    if WellFormed(m) then Records(m.fields[4..]) else []
  }

  function AllRecords(ms: seq<Message>): seq<Sat>
  {
    if ms == [] then [] else AllRecords(ms[..|ms| - 1]) + Carried(ms[|ms| - 1])
  }

  // A well-formed sentence with a record whose PRN and azimuth are not 0.
  predicate Plausible(m: Message)
  {
    WellFormed(m) &&
    exists r :: 0 <= r < |m.fields| / 4 - 1 && m.fields[4 + 4 * r] != 0 && m.fields[4 + 4 * r + 2] != 0
  }

  predicate AnyPlausible(ms: seq<Message>)
  {
    exists i :: 0 <= i < |ms| && Plausible(ms[i])
  }

  lemma AnyPlausibleNext(ms: seq<Message>)
    requires ms != []
    ensures AnyPlausible(ms) <==> AnyPlausible(ms[..|ms| - 1]) || Plausible(ms[|ms| - 1])
  {
    hide Plausible;
    var n := |ms| - 1;
    if i :| 0 <= i < |ms| && Plausible(ms[i]) {
      assert i < n ==> Plausible(ms[..n][i]);
    }
    if i :| 0 <= i < n && Plausible(ms[..n][i]) {
      assert Plausible(ms[i]);
    }
  }

  // Four fields make a record: PRN, elevation, azimuth, signal-to-noise ratio.
  lemma {:induction false} RecordAt(fields: seq<int>, r: nat)
    requires 4 * r + 3 < |fields|
    ensures r < |Records(fields)| == |fields| / 4
    ensures Records(fields)[r] == Sat(fields[4 * r], fields[4 * r + 1], fields[4 * r + 2], fields[4 * r + 3])
    decreases |fields|
  {
    RecordCount(fields);
    if r > 0 {
      RecordAt(fields[4..], r - 1);
    }
  }

  lemma {:induction false} RecordCount(fields: seq<int>)
    ensures |Records(fields)| == |fields| / 4
    decreases |fields|
  {
    if |fields| >= 4 {
      RecordCount(fields[4..]);
    }
  }

  predicate Shown(r: Sat)
  {
    r.prn != 0 && r.azimuth != 0
  }

  // A list has an azimuth that is not 0 exactly if one of its records has.
  lemma {:induction false} SaneRecords(rs: seq<Sat>)
    ensures Sane(NonZero(rs)) <==> exists i :: 0 <= i < |rs| && Shown(rs[i])
  {
    if rs != [] {
      var n := |rs| - 1;
      SaneRecords(rs[..n]);
      SaneNext(NonZero(rs[..n]), rs[n]);
      hide Sane, NonZero, Shown;
      if i :| 0 <= i < |rs| && Shown(rs[i]) {
        assert i < n ==> Shown(rs[..n][i]);
      }
      if i :| 0 <= i < n && Shown(rs[..n][i]) {
        assert Shown(rs[i]);
      }
      assert Shown(rs[n]) ==> exists i :: 0 <= i < |rs| && Shown(rs[i]);
      NonZeroNext(rs);
    }
  }

  lemma NonZeroNext(rs: seq<Sat>)
    requires rs != []
    ensures NonZero(rs) == NonZero(rs[..|rs| - 1]) + (if rs[|rs| - 1].prn != 0 then [rs[|rs| - 1]] else [])
  {
  }

  lemma SaneNext(ss: seq<Sat>, r: Sat)
    ensures Sane(ss + (if r.prn != 0 then [r] else [])) <==> Sane(ss) || Shown(r)
  {
    if r.prn == 0 {
      assert ss + [] == ss;
    } else {
      var ts := ss + [r];
      forall i | 0 <= i < |ss| ensures ts[i] == ss[i] {
      }
      assert ts[|ss|] == r;
    }
  }

  lemma PlausibleRecords(m: Message)
    requires WellFormed(m)
    ensures Plausible(m) <==> exists i :: 0 <= i < |Carried(m)| && Shown(Carried(m)[i])
  {
    var fs := m.fields[4..];
    RecordCount(fs);
    assert |fs| / 4 == |m.fields| / 4 - 1;
    forall r | 0 <= r < |m.fields| / 4 - 1
      ensures Carried(m)[r].prn == m.fields[4 + 4 * r] && Carried(m)[r].azimuth == m.fields[4 + 4 * r + 2]
    {
      RecordAt(fs, r);
    }
    hide Records;
    if r :| 0 <= r < |m.fields| / 4 - 1 && m.fields[4 + 4 * r] != 0 && m.fields[4 + 4 * r + 2] != 0 {
      assert Shown(Carried(m)[r]);
    }
  }

  lemma {:induction false} SaneIff(ms: seq<Message>)
    ensures Sane(NonZero(AllRecords(ms))) <==> AnyPlausible(ms)
  {
    if ms == [] {
      NonZeroNone();
      NotSane();
    } else {
      var n := |ms| - 1;
      SaneIff(ms[..n]);
      var a, b := AllRecords(ms[..n]), Carried(ms[n]);
      SaneAppend(a, b);
      SaneCarried(ms[n]);
      AnyPlausibleNext(ms);
      hide *;
    }
  }

  lemma SaneAppend(rs: seq<Sat>, ts: seq<Sat>)
    ensures Sane(NonZero(rs + ts)) <==> Sane(NonZero(rs)) || Sane(NonZero(ts))
  {
    hide *;
    NonZeroAppend(rs, ts);
    SaneEither(NonZero(rs), NonZero(ts));
  }

  lemma SaneEither(a: seq<Sat>, b: seq<Sat>)
    ensures Sane(a + b) <==> Sane(a) || Sane(b)
  {
    var c := a + b;
    forall i | 0 <= i < |a| ensures c[i] == a[i] {
    }
    forall i | 0 <= i < |b| ensures c[|a| + i] == b[i] {
    }
    if i :| 0 <= i < |c| && c[i].azimuth != 0 {
      assert i >= |a| ==> b[i - |a|].azimuth != 0;
    }
  }

  lemma SaneCarried(m: Message)
    ensures Sane(NonZero(Carried(m))) <==> Plausible(m)
  {
    if WellFormed(m) {
      SaneRecords(Carried(m));
      PlausibleRecords(m);
    } else {
      NonZeroNone();
      NotSane();
    }
  }

  // The parts 1, 2, ... of a set of `total` parts.
  predicate InOrder(ms: seq<Message>, total: int)
  {
    && |ms| <= total
    && (forall k {:trigger ms[k]} :: 0 <= k < |ms| ==> WellFormed(ms[k]))
    && forall k :: 0 <= k < |ms| ==> ms[k].part.value == k + 1 && ms[k].fields[1] == total
  }

  // Records added to records.
  lemma AddedAll(all: seq<Sat>, rs: seq<Sat>)
    requires Fits([], all)
    ensures Added(NonZero(all), rs) == if Fits([], all + rs) then NonZero(all + rs) else []
  {
    hide Fits, NonZero;
    FitsAppend([], all, rs);
    NonZeroAppend(all, rs);
    assert [] + NonZero(all) == NonZero(all);
  }

  // What one sentence adds to the records collected so far.
  lemma CollectStep(u: View, m: Message, all: seq<Sat>)
    requires WellFormed(m) && (if m.part.value == 1 then all == [] else u.sats == NonZero(all))
    requires Fits([], all)
    ensures var (w, flag) := Process(u, m);
      var now := NonZero(all + Carried(m));
      var last := m.part.value >= m.fields[1];
      if !Fits([], all + Carried(m)) || (last && !Sane(now)) then w.sats == [] && !flag
      else w.sats == now && flag == last
  {
    AddedAll(all, Carried(m));
    NonZeroNone();
    NotSane();
    hide Records, Fits, Sane, NonZero, Added;
  }

  lemma NonZeroNone()
    ensures NonZero([]) == []
  {
  }

  lemma NotSane()
    ensures !Sane([])
  {
  }

  //////////////////////////////////////////////////////////////////////////////
  // What is published when
  //////////////////////////////////////////////////////////////////////////////

  // A complete set in order, with a channel for each of its records, publishes exactly its
  // nonempty records, in order, if any of them is plausible, and nothing otherwise; only
  // its last part returns SATELLITE_SET, and only then.
  lemma CompleteSet(v: View, ms: seq<Message>)
    requires ms != [] && InOrder(ms, |ms|) && |AllRecords(ms)| <= MAXCHANNELS
    ensures var (w, flags) := Run(v, ms);
            var all := NonZero(AllRecords(ms));
            && w.sats == (if AnyPlausible(ms) then all else [])
            && |flags| == |ms|
            && forall k :: 0 <= k < |ms| ==> (flags[k] <==> k == |ms| - 1 && AnyPlausible(ms))
  {
    FewFit(AllRecords(ms));
    Collecting(v, ms, |ms|);
  }

  lemma FewFit(rs: seq<Sat>)
    requires |rs| <= MAXCHANNELS
    ensures Fits([], rs)
  {
    forall r | 0 <= r < |rs| ensures |NonZero(rs[..r])| < MAXCHANNELS {
      NonZeroLength(rs[..r]);
    }
  }

  // Until the set is complete the list is what has arrived so far, and nothing is returned.
  lemma {:induction false} Collecting(v: View, ms: seq<Message>, total: nat)
    requires ms != [] && InOrder(ms, total) && Fits([], AllRecords(ms))
    ensures |Run(v, ms).1| == |ms|
    ensures forall k :: 0 <= k < |ms| - 1 ==> !Run(v, ms).1[k]
    ensures var all := NonZero(AllRecords(ms));
            if |ms| < total then Run(v, ms).0.sats == all && !Run(v, ms).1[|ms| - 1]
            else Run(v, ms).1[|ms| - 1] == AnyPlausible(ms) && Run(v, ms).0.sats == if AnyPlausible(ms) then all else []
  {
    SaneIff(ms);
    hide Fits, Sane, NonZero, Process, WellFormed, Carried;
    var n := |ms| - 1;
    var all := AllRecords(ms[..n]);
    FitsAppend([], all, Carried(ms[n]));
    if n > 0 {
      Collecting(v, ms[..n], total);
    }
    CollectStep(Run(v, ms[..n]).0, ms[n], all);
  }

  lemma {:induction false} NonZeroLength(rs: seq<Sat>)
    ensures |NonZero(rs)| <= |rs|
  {
    if rs != [] {
      NonZeroLength(rs[..|rs| - 1]);
    }
  }

  // What a sentence returns is settled when it comes.
  lemma {:induction false} FlagAt(v: View, ms: seq<Message>, k: nat)
    requires k < |ms|
    ensures |Run(v, ms).1| == |ms| && |Run(v, ms[..k + 1]).1| == k + 1
    ensures Run(v, ms).1[k] == Run(v, ms[..k + 1]).1[k]
  {
    hide Process;
    if k + 1 < |ms| {
      FlagAt(v, ms[..|ms| - 1], k);
      assert ms[..|ms| - 1][..k + 1] == ms[..k + 1];
    } else {
      assert ms[..k + 1] == ms;
      RunLength(v, ms);
    }
  }

  lemma {:induction false} RunLength(v: View, ms: seq<Message>)
    ensures |Run(v, ms).1| == |ms|
  {
    if ms != [] {
      RunLength(v, ms[..|ms| - 1]);
    }
  }

  // The last sentence of a run leaves the list empty, when those from p on have gone into
  // it: it is malformed, it overflows the channels, or it completes nothing plausible.
  predicate Clears(ms: seq<Message>, p: nat)
    requires p < |ms|
  {
    var m := ms[|ms| - 1];
    || !WellFormed(m)
    || !Fits([], AllRecords(ms[p..]))
    || (m.part.value >= m.fields[1] && !AnyPlausible(ms[p..]))
  }

  // Where the sentences begin that have gone into the list: behind the last one that
  // cleared it, or with the last part 1.
  function Start(ms: seq<Message>): (p: nat)
    ensures p <= |ms|
  {
    if ms == [] then 0
    else
      var n := |ms| - 1;
      var p := if WellFormed(ms[n]) && ms[n].part.value == 1 then n else Start(ms[..n]);
      if Clears(ms, p) then n + 1 else p
  }

  // Those sentences.
  function Since(ms: seq<Message>): seq<Message>
  {
    ms[Start(ms)..]
  }

  // Three fields or fewer, a number of fields that is no multiple of four, or no part
  // number: the list is dropped.
  lemma Dropped(v: View, m: Message)
    requires |m.fields| <= 3 || |m.fields| % 4 != 0 || m.part.Malformed?
    ensures Process(v, m).0.sats == [] && !Process(v, m).1
  {
  }

  lemma AllRecordsNext(ms: seq<Message>, p: nat)
    requires p < |ms|
    ensures AllRecords(ms[p..]) == AllRecords(ms[p..|ms| - 1]) + Carried(ms[|ms| - 1])
  {
    hide Carried;
    assert ms[p..][..|ms[p..]| - 1] == ms[p..|ms| - 1];
  }

  // One sentence moves the list and the position on together.
  lemma ListStep(ms: seq<Message>, u: View)
    requires ms != []
    requires var before := AllRecords(Since(ms[..|ms| - 1])); u.sats == NonZero(before) && Fits([], before)
    ensures var m, all := ms[|ms| - 1], AllRecords(Since(ms));
      && Process(u, m).0.sats == NonZero(all) && Fits([], all)
      && (Process(u, m).1 <==> Since(ms) != [] && m.part.Number? && m.part.value >= m.fields[1])
      && (Process(u, m).1 ==> Sane(Process(u, m).0.sats))
  {
    hide Fits, Sane, NonZero, Records, Process, Carried;
    FewFit([]);
    NonZeroNone();
    var n := |ms| - 1;
    if !WellFormed(ms[n]) {
      Dropped(u, ms[n]);
    } else {
      var p := if ms[n].part.value == 1 then n else Start(ms[..n]);
      assert ms[..n][p..] == ms[p..n];
      AllRecordsNext(ms, p);
      SaneIff(ms[p..]);
      CollectStep(u, ms[n], AllRecords(ms[p..n]));
    }
  }

  // On any sentences whatever: the list is the nonempty records of the sentences since it
  // was last cleared, and SATELLITE_SET is returned exactly by a sentence that has not
  // cleared it and whose part number reaches its total; some azimuth is then nonzero.
  lemma {:induction false} ListSince(v: View, ms: seq<Message>)
    requires v.sats == []
    ensures Fits([], AllRecords(Since(ms)))
    ensures Run(v, ms).0.sats == NonZero(AllRecords(Since(ms))) && |Run(v, ms).1| == |ms|
    ensures ms != [] ==> var m := ms[|ms| - 1];
      && (Run(v, ms).1[|ms| - 1] <==> Since(ms) != [] && m.part.Number? && m.part.value >= m.fields[1])
      && (Run(v, ms).1[|ms| - 1] ==> AnyPlausible(Since(ms)))
  {
    NonZeroNone();
    SaneIff(Since(ms));
    if ms == [] {
      FewFit([]);
    } else {
      hide Fits, NonZero, Since, Process;
      var n := |ms| - 1;
      ListSince(v, ms[..n]);
      ListStep(ms, Run(v, ms[..n]).0);
    }
  }

  // The parts 1..N of a set of N, each once and in order, that fit and have a plausible
  // entry: the last N sentences, N being the number the last one gives.
  predicate EndsWithSet(ms: seq<Message>)
  {
    && ms != [] && WellFormed(ms[|ms| - 1])
    && var total := ms[|ms| - 1].fields[1];
    && 1 <= total <= |ms|
    && var parts := ms[|ms| - total..];
    && InOrder(parts, total) && Fits([], AllRecords(parts)) && AnyPlausible(parts)
  }

  // The sentences in the list are such a set.
  predicate IsWhole(ms: seq<Message>)
  {
    ms != [] && WellFormed(ms[|ms| - 1]) && InOrder(ms, |ms|)
  }

  // Sentence k returns SATELLITE_SET for a list that is made of the parts 1..N, each once
  // and in order, if and only if the sentences up to it end with such a set.
  lemma WholeSet(v: View, ms: seq<Message>, k: nat)
    requires v.sats == [] && k < |ms|
    ensures |Run(v, ms).1| == |ms|
    ensures Run(v, ms).1[k] && IsWhole(Since(ms[..k + 1])) <==> EndsWithSet(ms[..k + 1])
  {
    var xs := ms[..k + 1];
    FlagAt(v, ms, k);
    ListSince(v, xs);
    hide Fits, Sane, NonZero, Records, Run, Since, IsWhole, EndsWithSet;
    if Run(v, ms).1[k] && IsWhole(Since(xs)) {
      WholeEnds(xs);
    }
    if EndsWithSet(xs) {
      EndsWhole(xs);
    }
  }

  lemma WholeEnds(ms: seq<Message>)
    requires ms != [] && IsWhole(Since(ms))
    requires var m := ms[|ms| - 1]; m.part.Number? && m.part.value >= m.fields[1]
    ensures EndsWithSet(ms)
  {
    hide Fits, Sane, NonZero, Records, AllRecords;
    var p := Start(ms);
    assert !Clears(ms, p);
    hide Start;
    assert Since(ms)[|ms| - p - 1] == ms[|ms| - 1];
    assert ms[|ms| - 1].fields[1] == |ms| - p;
  }

  lemma EndsWhole(ms: seq<Message>)
    requires EndsWithSet(ms)
    ensures var m := ms[|ms| - 1];
      IsWhole(Since(ms)) && Since(ms) != [] && m.part.Number? && m.part.value >= m.fields[1]
  {
    hide Fits, Sane, NonZero, Records, AllRecords, Start, Clears;
    var total := ms[|ms| - 1].fields[1];
    StartOfSet(ms, total, total);
    assert ms[..|ms|] == ms;
    var parts := ms[|ms| - total..];
    assert parts[total - 1] == ms[|ms| - 1];
  }

  // The position stays at part 1 while the parts of a set arrive.
  lemma {:induction false} StartOfSet(ms: seq<Message>, total: nat, j: nat)
    requires 1 <= j <= total <= |ms|
    requires var parts := ms[|ms| - total..];
      InOrder(parts, total) && Fits([], AllRecords(parts)) && AnyPlausible(parts)
    ensures Start(ms[..|ms| - total + j]) == |ms| - total
  {
    hide *;
    var p := |ms| - total;
    var parts, xs := ms[p..], ms[..p + j];
    InOrderAt(parts, total, j - 1);
    assert xs[|xs| - 1] == parts[j - 1] && xs[p..] == parts[..j] && xs[..|xs| - 1] == ms[..p + j - 1];
    FitsPrefix(parts, j);
    assert j == total ==> parts[..j] == parts;
    Stays(xs, p);
    if j > 1 {
      StartOfSet(ms, total, j - 1);
    }
    StartStep(xs);
  }

  lemma InOrderAt(parts: seq<Message>, total: int, k: nat)
    requires InOrder(parts, total) && k < |parts|
    ensures WellFormed(parts[k]) && parts[k].part == Number(k + 1)
    ensures |parts[k].fields| > 3 && parts[k].fields[1] == total
  {
  }

  lemma Stays(ms: seq<Message>, p: nat)
    requires p < |ms| && WellFormed(ms[|ms| - 1]) && Fits([], AllRecords(ms[p..]))
    requires |ms[|ms| - 1].fields| > 3 && ms[|ms| - 1].part.Number?
    requires ms[|ms| - 1].part.value >= ms[|ms| - 1].fields[1] ==> AnyPlausible(ms[p..])
    ensures !Clears(ms, p)
  {
    hide Fits, Sane, NonZero, AllRecords;
  }

  lemma StartStep(ms: seq<Message>)
    requires ms != [] && WellFormed(ms[|ms| - 1]) && ms[|ms| - 1].part.Number?
    ensures var n := |ms| - 1;
      var p := if ms[n].part.value == 1 then n else Start(ms[..n]);
      p <= n && Start(ms) == if Clears(ms, p) then n + 1 else p
  {
    hide Clears;
  }

  lemma {:induction false} FitsPrefix(ms: seq<Message>, j: nat)
    requires j <= |ms| && Fits([], AllRecords(ms))
    ensures Fits([], AllRecords(ms[..j]))
    decreases |ms|
  {
    hide Fits, Records, Carried;
    if j == |ms| {
      assert ms[..j] == ms;
    } else {
      var n := |ms| - 1;
      FitsAppend([], AllRecords(ms[..n]), Carried(ms[n]));
      FitsPrefix(ms[..n], j);
      assert ms[..n][..j] == ms[..j];
    }
  }

  //////////////////////////////////////////////////////////////////////////////
  // A list sent is the list published
  //////////////////////////////////////////////////////////////////////////////

  // The fields a receiver sends for a list of satellites.
  function FieldsOf(ss: seq<Sat>): (fields: seq<int>)
    ensures |fields| == 4 * |ss|
  {
    if ss == [] then []
    else FieldsOf(ss[..|ss| - 1]) + [ss[|ss| - 1].prn, ss[|ss| - 1].elevation, ss[|ss| - 1].azimuth, ss[|ss| - 1].ss]
  }

  // Part k of `total`, with a share of the list.
  function PartOf(tag: int, total: int, k: int, count: int, share: seq<Sat>): Message
  {
    Message([tag, total, k, count] + FieldsOf(share), Number(k))
  }

  function Parts(tag: int, count: int, shares: seq<seq<Sat>>): seq<Message>
  {
    seq(|shares|, i requires 0 <= i < |shares| => PartOf(tag, |shares|, i + 1, count, shares[i]))
  }

  function Joined(shares: seq<seq<Sat>>): seq<Sat>
  {
    if shares == [] then [] else Joined(shares[..|shares| - 1]) + shares[|shares| - 1]
  }

  lemma {:induction false} FieldAt(ss: seq<Sat>, r: nat)
    requires r < |ss|
    ensures var f := FieldsOf(ss);
      f[4 * r] == ss[r].prn && f[4 * r + 1] == ss[r].elevation && f[4 * r + 2] == ss[r].azimuth && f[4 * r + 3] == ss[r].ss
  {
    if r < |ss| - 1 {
      FieldAt(ss[..|ss| - 1], r);
    }
  }

  lemma RecordsOfFields(ss: seq<Sat>)
    ensures Records(FieldsOf(ss)) == ss
  {
    RecordCount(FieldsOf(ss));
    forall r | 0 <= r < |ss| ensures Records(FieldsOf(ss))[r] == ss[r] {
      RecordAt(FieldsOf(ss), r);
      FieldAt(ss, r);
    }
  }

  lemma CarriedPart(tag: int, total: int, k: int, count: int, share: seq<Sat>)
    ensures WellFormed(PartOf(tag, total, k, count, share)) && Carried(PartOf(tag, total, k, count, share)) == share
  {
    var m := PartOf(tag, total, k, count, share);
    assert m.fields[4..] == FieldsOf(share);
    RecordsOfFields(share);
  }

  // The records of parts sent from somewhere in the list on.
  lemma {:induction false} AllRecordsParts(ms: seq<Message>, shares: seq<seq<Sat>>)
    requires |ms| == |shares| && forall i :: 0 <= i < |ms| ==> Carried(ms[i]) == shares[i]
    ensures AllRecords(ms) == Joined(shares)
  {
    if ms != [] {
      AllRecordsParts(ms[..|ms| - 1], shares[..|ms| - 1]);
    }
  }

  lemma {:induction false} AllKept(rs: seq<Sat>)
    requires forall i :: 0 <= i < |rs| ==> rs[i].prn != 0
    ensures NonZero(rs) == rs
  {
    if rs != [] {
      AllKept(rs[..|rs| - 1]);
    }
  }

  lemma PartHeader(tag: int, total: int, k: int, count: int, share: seq<Sat>)
    ensures var m := PartOf(tag, total, k, count, share);
      m.part == Number(k) && |m.fields| > 1 && m.fields[1] == total
  {
  }

  lemma PartFacts(tag: int, count: int, shares: seq<seq<Sat>>, i: nat)
    requires i < |shares|
    ensures |Parts(tag, count, shares)| == |shares|
    ensures var m := Parts(tag, count, shares)[i];
      WellFormed(m) && Carried(m) == shares[i] && m.part == Number(i + 1) && |m.fields| > 1 && m.fields[1] == |shares|
  {
    hide PartOf, Carried, WellFormed;
    CarriedPart(tag, |shares|, i + 1, count, shares[i]);
    PartHeader(tag, |shares|, i + 1, count, shares[i]);
  }

  lemma PartsInOrder(tag: int, count: int, shares: seq<seq<Sat>>)
    ensures InOrder(Parts(tag, count, shares), |shares|) && AllRecords(Parts(tag, count, shares)) == Joined(shares)
  {
    var ms := Parts(tag, count, shares);
    assert |ms| == |shares|;
    hide Parts, Carried, WellFormed, AllRecords, Joined;
    forall i | 0 <= i < |ms|
      ensures WellFormed(ms[i]) && Carried(ms[i]) == shares[i]
      ensures ms[i].part == Number(i + 1) && |ms[i].fields| > 1 && ms[i].fields[1] == |shares|
    {
      PartFacts(tag, count, shares, i);
    }
    AllRecordsParts(ms, shares);
  }

  // However a list of at most 72 satellites is shared out over the parts of a set: it is
  // published as it was sent if an azimuth is not 0, and otherwise nothing is; the last
  // part alone returns SATELLITE_SET, and does so in the first case.
  lemma SentSet(v: View, tag: int, count: int, shares: seq<seq<Sat>>)
    requires shares != [] && |Joined(shares)| <= 72
    requires forall i :: 0 <= i < |Joined(shares)| ==> Joined(shares)[i].prn != 0
    ensures var (w, flags) := Run(v, Parts(tag, count, shares));
      var good := exists i :: 0 <= i < |Joined(shares)| && Joined(shares)[i].azimuth != 0;
      && w.sats == (if good then Joined(shares) else [])
      && |flags| == |shares| && forall k :: 0 <= k < |shares| ==> (flags[k] <==> k == |shares| - 1 && good)
  {
    var ms, all := Parts(tag, count, shares), Joined(shares);
    PartsInOrder(tag, count, shares);
    SaneIff(ms);
    SaneRecords(all);
    AllKept(all);
    CompleteSet(v, ms);
    hide Run, Parts, Joined, AnyPlausible;
    forall i | 0 <= i < |all| ensures Shown(all[i]) <==> all[i].azimuth != 0 {
    }
  }

  // A list of more than 72 in one sentence is dropped.
  lemma TooMany(v: View, tag: int, count: int, ss: seq<Sat>)
    requires |ss| > 72 && forall i :: 0 <= i < |ss| ==> ss[i].prn != 0
    ensures Process(v, PartOf(tag, 1, 1, count, ss)) == (View([], 1, 1), false)
  {
    var m := PartOf(tag, 1, 1, count, ss);
    CarriedPart(tag, 1, 1, count, ss);
    PartHeader(tag, 1, 1, count, ss);
    assert Records(m.fields[4..]) == ss;
    AllKept(ss[..72]);
    assert !Fits([], ss);
    NotSane();
    hide Records, Fits, Sane;
  }

  // A sentence with one satellite, which is plausible.
  function OneSat(prn: int, part: int, total: int): Message
  {
    Message([0, total, part, total, prn, 40, 83, 46], Number(part))
  }

  lemma OneSatCarried(prn: int, part: int, total: int)
    ensures WellFormed(OneSat(prn, part, total)) && OneSat(prn, part, total).part == Number(part)
    ensures OneSat(prn, part, total).fields[1] == total
    ensures Carried(OneSat(prn, part, total)) == [Sat(prn, 40, 83, 46)]
  {
    var f := OneSat(prn, part, total).fields[4..];
    assert f == [prn, 40, 83, 46];
    RecordAt(f, 0);
    assert Records(f) == [Sat(prn, 40, 83, 46)];
  }

  lemma AddedOne(sats: seq<Sat>, r: Sat)
    requires Shown(r) && |sats| < MAXCHANNELS
    ensures Added(sats, [r]) == sats + [r] && Sane(sats + [r])
  {
    OneRecord(sats, r);
    assert (sats + [r])[|sats|] == r;
  }

  lemma Completed(u: View, m: Message, sats: seq<Sat>)
    requires WellFormed(m) && m.part.value >= m.fields[1] && Sane(sats)
    requires Added(if m.part.value == 1 then [] else u.sats, Records(m.fields[4..])) == sats
    ensures Process(u, m) == (View(sats, m.fields[1], m.part.value), true)
  {
    hide Added, Records, Sane;
  }

  lemma OneSatStep(u: View, prn: int, part: int, total: int)
    requires prn != 0 && part >= total && |u.sats| < MAXCHANNELS
    ensures var sats := if part == 1 then [] else u.sats;
      Process(u, OneSat(prn, part, total)) == (View(sats + [Sat(prn, 40, 83, 46)], total, part), true)
  {
    var m, sats, r := OneSat(prn, part, total), if part == 1 then [] else u.sats, Sat(prn, 40, 83, 46);
    OneSatCarried(prn, part, total);
    AddedOne(sats, r);
    Completed(u, m, sats + [r]);
  }

  // Nothing checks that the other parts have come.  Part 2 of 2 alone is published, and if
  // a list is still there from before, so is that.
  lemma LastPartAlone(v: View)
    requires v.sats == []
    ensures var alone := [OneSat(5, 2, 2)];
      Run(v, alone).0.sats == [Sat(5, 40, 83, 46)] && Run(v, alone).1 == [true] && !EndsWithSet(alone)
    ensures var stale := [OneSat(9, 1, 1), OneSat(5, 2, 2)];
      && Run(v, stale).0.sats == [Sat(9, 40, 83, 46), Sat(5, 40, 83, 46)] && Run(v, stale).1 == [true, true]
      && !EndsWithSet(stale)
  {
    hide Run, Process, EndsWithSet;
    var m, n := OneSat(9, 1, 1), OneSat(5, 2, 2);
    RunNext(v, [], n);
    RunNext(v, [], m);
    RunNext(v, [m], n);
    assert [] + [n] == [n] && [] + [m] == [m] && [m] + [n] == [m, n];
    OneSatStep(v, 5, 2, 2);
    OneSatStep(v, 9, 1, 1);
    OneSatStep(Run(v, [m]).0, 5, 2, 2);
    NotASet([n], n);
    NotASet([m, n], n);
  }

  lemma RunNext(v: View, ms: seq<Message>, m: Message)
    ensures Run(v, ms + [m]) == (Process(Run(v, ms).0, m).0, Run(v, ms).1 + [Process(Run(v, ms).0, m).1])
    ensures Run(v, []) == (v, [])
  {
    hide Process;
    assert (ms + [m])[..|ms|] == ms;
  }

  // A set of two has a part 1 before its part 2.
  lemma NotASet(ms: seq<Message>, n: Message)
    requires ms != [] && ms[|ms| - 1] == n == OneSat(5, 2, 2) && (|ms| == 1 || ms[|ms| - 2] == OneSat(9, 1, 1))
    ensures !EndsWithSet(ms)
  {
    hide Fits, Sane, AllRecords, NonZero;
    if |ms| >= 2 {
      assert ms[|ms| - 2..][0] == ms[|ms| - 2];
    }
  }
}
