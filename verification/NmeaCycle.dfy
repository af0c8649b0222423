/**
 The end-of-cycle detector of driver_nmea.c.  A receiver repeats a cycle of sentences, one
 cycle per reporting time, and does not say which sentence is the last.  The detector
 learns it: a sentence that carried the last timestamp before the time changed is taken
 for an end-of-cycle mark from then on.
 */
module NmeaCycle {
  import opened Wrappers

  // A sentence as the detector sees it: its 1-based place in the sentence table, 0 for one
  // that is not decoded, and the timestamp its handler registered, if any.
  datatype Sentence = Sentence(tag: nat, time: Option<real>)

  // Sentences with a timestamp are decoded ones, listed in the table.
  ghost predicate WellTagged(xs: seq<Sentence>, tableSize: nat)
  {
    forall i :: 0 <= i < |xs| && xs[i].time.Some? ==> 1 <= xs[i].tag <= tableSize
  }

  // The CLEAR and REPORT bits of the returned mask.
  datatype Flags = Flags(clear: bool, report: bool)

  // Timestamps have a granularity of 1/100 second.
  predicate TimeEqual(a: real, b: real)
  {
    -0.01 < a - b < 0.01
  }

  //////////////////////////////////////////////////////////////////////////////
  // The detector
  //////////////////////////////////////////////////////////////////////////////

  datatype State = State(thisTime: real, lastTime: real, lastTag: nat, enders: set<nat>, reliable: bool)

  const ZERO := State(0.0, 0.0, 0, {}, false)

  // What one sentence does.
  function Step(s: State, x: Sentence): (State, Flags)
  {
    if x.time.None? then (s, Flags(false, false))
    else
      var changed := !TimeEqual(x.time.value, s.thisTime);
      var enders := if changed && s.lastTag > 0 then s.enders + {s.lastTag} else s.enders;
      (State(x.time.value, s.thisTime, x.tag, enders, s.reliable || enders != {}),
       Flags(changed, x.tag in enders))
  }

  // The session fields the detector keeps, updated in place.  The bit mask cycle_enders is
  // the set of the tags whose bit is on.
  class Session {
    var thisFracTime: real
    var lastFracTime: real
    var latchFracTime: bool
    var lastTag: nat
    var cycleEnders: set<nat>
    var cycleEndReliable: bool

    ghost predicate Valid()
      reads this
    {
      cycleEndReliable <==> cycleEnders != {}
    }

    ghost function Value(): State
      reads this
    {
      State(thisFracTime, lastFracTime, lastTag, cycleEnders, cycleEndReliable)
    }

    constructor ()
      ensures Valid() && Value() == ZERO
    {
      thisFracTime, lastFracTime, latchFracTime := 0.0, 0.0, false;
      lastTag, cycleEnders, cycleEndReliable := 0, {}, false;
    }

    method RegisterFractionalTime(time: Option<real>)
      modifies this`thisFracTime, this`lastFracTime, this`latchFracTime
      ensures time.None? ==> thisFracTime == old(thisFracTime) && lastFracTime == old(lastFracTime)
      ensures time.None? ==> latchFracTime == old(latchFracTime)
      ensures time.Some? ==> thisFracTime == time.value && lastFracTime == old(thisFracTime) && latchFracTime
    {
      if time.Some? {
        lastFracTime := thisFracTime;
        thisFracTime := time.value;
        latchFracTime := true;
      }
    }

    // The part of nmea_parse that concerns the detector.
    method Parse(x: Sentence) returns (flags: Flags)
      requires Valid() && (x.time.Some? ==> x.tag > 0)
      modifies this
      ensures Valid() && (Value(), flags) == Step(old(Value()), x)
    {
      flags := Flags(false, false);
      latchFracTime := false;
      RegisterFractionalTime(x.time);
      if latchFracTime {
        if !TimeEqual(thisFracTime, lastFracTime) {
          flags := flags.(clear := true);
          assert lastTag in cycleEnders ==> cycleEnders + {lastTag} == cycleEnders;
          if lastTag > 0 && lastTag !in cycleEnders {
            cycleEnders := cycleEnders + {lastTag};
          }
        }
        if x.tag in cycleEnders {
          flags := flags.(report := true);
        }
        lastTag := x.tag;
      }
      if cycleEnders != {} {
        cycleEndReliable := true;
      }
    }
  }

  //////////////////////////////////////////////////////////////////////////////
  // Runs
  //////////////////////////////////////////////////////////////////////////////

  // The state after a run of sentences.
  function After(s: State, xs: seq<Sentence>): State
  {
    if xs == [] then s else Step(After(s, xs[..|xs| - 1]), xs[|xs| - 1]).0
  }

  // What the sentence at position k of a run returns.
  function Output(s: State, xs: seq<Sentence>, k: nat): Flags
    requires k < |xs|
  {
    Step(After(s, xs[..k]), xs[k]).1
  }

  lemma {:induction false} AfterAppend(s: State, xs: seq<Sentence>, ys: seq<Sentence>)
    ensures After(s, xs + ys) == After(After(s, xs), ys)
  {
    if ys == [] {
      assert xs + ys == xs;
    } else {
      AfterAppend(s, xs, ys[..|ys| - 1]);
      assert (xs + ys)[..|xs + ys| - 1] == xs + ys[..|ys| - 1];
    }
  }

  lemma OutputAppend(s: State, xs: seq<Sentence>, ys: seq<Sentence>, k: nat)
    requires k < |ys|
    ensures Output(s, xs + ys, |xs| + k) == Output(After(s, xs), ys, k)
  {
    assert (xs + ys)[..|xs| + k] == xs + ys[..k];
    AfterAppend(s, xs, ys[..k]);
  }

  // The last sentence with a timestamp before position k, or -1.
  ghost function PrevStamped(xs: seq<Sentence>, k: nat): (j: int)
    requires k <= |xs|
    ensures -1 <= j < k && (j >= 0 ==> xs[j].time.Some?)
    ensures forall i :: j < i < k ==> xs[i].time.None?
  {
    if k == 0 then -1 else if xs[k - 1].time.Some? then k - 1 else PrevStamped(xs, k - 1)
  }

  // Position k carries a time at least 1/100 second before or after the one before it.
  ghost predicate TimeChange(xs: seq<Sentence>, k: nat)
    requires k < |xs|
  {
    xs[k].time.Some? &&
    var j := PrevStamped(xs, k);
    var before := if j >= 0 then xs[j].time.value else 0.0;
    xs[k].time.value >= before + 0.01 || xs[k].time.value <= before - 0.01
  }

  // Position j is the last with a timestamp before the time change at position k.
  ghost predicate EndsCycle(xs: seq<Sentence>, j: nat, k: nat)
    requires k < |xs|
  {
    TimeChange(xs, k) && PrevStamped(xs, k) == j
  }

  // The set of end-of-cycle marks learnt from a run.
  ghost function Learnt(xs: seq<Sentence>): set<nat>
  {
    set j: nat, k: nat | j < |xs| && k < |xs| && EndsCycle(xs, j, k) :: xs[j].tag
  }

  lemma {:induction false} PrevStampedPrefix(xs: seq<Sentence>, n: nat, k: nat)
    requires k <= n <= |xs|
    ensures PrevStamped(xs[..n], k) == PrevStamped(xs, k)
  {
    if k > 0 {
      PrevStampedPrefix(xs, n, k - 1);
    }
  }

  lemma EndsCyclePrefix(xs: seq<Sentence>, n: nat, j: nat, k: nat)
    requires k < n <= |xs|
    ensures EndsCycle(xs[..n], j, k) == EndsCycle(xs, j, k)
    ensures TimeChange(xs[..n], k) == TimeChange(xs, k)
  {
    PrevStampedPrefix(xs, n, k);
  }

  // One more sentence adds at most one mark.
  lemma LearntNext(xs: seq<Sentence>, n: nat)
    requires |xs| == n + 1
    ensures var j := PrevStamped(xs, n);
      Learnt(xs) == Learnt(xs[..n]) + (if TimeChange(xs, n) && j >= 0 then {xs[j].tag} else {})
  {
    hide TimeChange, PrevStamped;
    var ys := xs[..n];
    forall i: nat, k: nat | i < n && k < n ensures EndsCycle(ys, i, k) == EndsCycle(xs, i, k) {
      EndsCyclePrefix(xs, n, i, k);
    }
    PrevStampedBound(xs, n);
    var j := PrevStamped(xs, n);
    if TimeChange(xs, n) && j >= 0 {
      assert EndsCycle(xs, j, n);
    }
    forall i: nat, k: nat | i < |xs| && k < |xs| && EndsCycle(xs, i, k)
      ensures (i < n && k < n && EndsCycle(ys, i, k)) || (k == n && i == j && TimeChange(xs, n))
    {
      PrevStampedBound(xs, k);
    }
  }

  lemma PrevStampedBound(xs: seq<Sentence>, k: nat)
    requires k <= |xs|
    ensures -1 <= PrevStamped(xs, k) < k
  {
  }

  // The time of a sentence, and the zero the detector starts from.
  ghost function TimeAt(xs: seq<Sentence>, j: int): real
    requires -1 <= j < |xs| && (j >= 0 ==> xs[j].time.Some?)
  {
    if j >= 0 then xs[j].time.value else 0.0
  }

  ghost function TagAt(xs: seq<Sentence>, j: int): nat
    requires -1 <= j < |xs|
  {
    if j >= 0 then xs[j].tag else 0
  }

  // The two timestamps kept are those of the last two sentences with one.
  lemma {:induction false} DetectorTimes(xs: seq<Sentence>)
    ensures var s, j := After(ZERO, xs), PrevStamped(xs, |xs|);
            && s.thisTime == TimeAt(xs, j) && s.lastTag == TagAt(xs, j)
            && s.lastTime == TimeAt(xs, if j >= 0 then PrevStamped(xs, j) else -1)
  {
    if xs != [] {
      var n := |xs| - 1;
      DetectorTimes(xs[..n]);
      PrevStampedPrefix(xs, n, n);
      var j := PrevStamped(xs, n);
      if j >= 0 {
        PrevStampedPrefix(xs, n, j);
      }
    }
  }

  // The state of the detector, on any sentences whatever, in terms of its input alone.
  lemma {:induction false} DetectorState(xs: seq<Sentence>, tableSize: nat)
    requires WellTagged(xs, tableSize)
    ensures var s, j := After(ZERO, xs), PrevStamped(xs, |xs|);
            && s.enders == Learnt(xs) && (s.reliable <==> Learnt(xs) != {})
            && s.thisTime == TimeAt(xs, j) && s.lastTag == TagAt(xs, j)
            && s.lastTime == TimeAt(xs, if j >= 0 then PrevStamped(xs, j) else -1)
  {
    DetectorTimes(xs);
    if xs == [] {
      assert Learnt(xs) == {};
    } else {
      var n := |xs| - 1;
      DetectorState(xs[..n], tableSize);
      PrevStampedPrefix(xs, n, n);
      LearntNext(xs, n);
      hide Learnt;
      MarksStep(After(ZERO, xs[..n]), xs, n);
    }
  }

  lemma MarksStep(s: State, xs: seq<Sentence>, n: nat)
    requires |xs| == n + 1 && (s.reliable <==> s.enders != {})
    requires s.thisTime == TimeAt(xs, PrevStamped(xs, n)) && s.lastTag == TagAt(xs, PrevStamped(xs, n))
    requires PrevStamped(xs, n) >= 0 ==> xs[PrevStamped(xs, n)].tag > 0
    ensures var t, j := Step(s, xs[n]).0, PrevStamped(xs, n);
      && t.enders == s.enders + (if TimeChange(xs, n) && j >= 0 then {xs[j].tag} else {})
      && (t.reliable <==> t.enders != {})
  {
    hide PrevStamped;
    PrevStampedBound(xs, n);
  }

  // CLEAR and REPORT in the same terms: CLEAR at time changes, REPORT at sentences whose
  // tag is a mark already, or has just become one.
  lemma DetectorOutput(xs: seq<Sentence>, tableSize: nat, k: nat)
    requires WellTagged(xs, tableSize) && k < |xs|
    ensures Output(ZERO, xs, k).clear <==> TimeChange(xs, k)
    ensures Output(ZERO, xs, k).report <==> xs[k].time.Some? && xs[k].tag in Learnt(xs[..k + 1])
  {
    DetectorState(xs[..k], tableSize);
    DetectorState(xs[..k + 1], tableSize);
    assert xs[..k + 1][..k] == xs[..k];
    PrevStampedPrefix(xs, k, k);
  }

  // Two timestamps in a row: the second starts a cycle if and only if it is at least 1/100
  // second away, and the first is then an end-of-cycle mark.
  lemma TwoTimes(xs: seq<Sentence>, tableSize: nat, a: real, b: real, t: nat, u: nat)
    requires 1 <= t <= tableSize && 1 <= u <= tableSize && WellTagged(xs, tableSize)
    ensures var ys := xs + [Sentence(t, Some(a)), Sentence(u, Some(b))];
      && (Output(ZERO, ys, |xs| + 1).clear <==> b - a >= 0.01 || a - b >= 0.01)
      && (Output(ZERO, ys, |xs| + 1).clear ==> t in After(ZERO, ys).enders)
  {
    var ys := xs + [Sentence(t, Some(a)), Sentence(u, Some(b))];
    var k := |xs| + 1;
    assert ys[..k][..|xs|] == xs && ys[..k + 1] == ys && ys[..k] == xs + [Sentence(t, Some(a))];
    assert WellTagged(ys, tableSize);
    DetectorOutput(ys, tableSize, k);
    DetectorState(ys, tableSize);
    assert PrevStamped(ys, k) == k - 1;
    assert TimeChange(ys, k) ==> EndsCycle(ys, k - 1, k);
  }

  // Marks are never forgotten.
  lemma {:induction false} MarksGrow(s: State, xs: seq<Sentence>)
    ensures s.enders <= After(s, xs).enders
  {
    if xs != [] {
      MarksGrow(s, xs[..|xs| - 1]);
    }
  }

  // How often a run changes the set of marks.
  ghost function Changes(s: State, xs: seq<Sentence>): nat
  {
    if xs == [] then 0
    else
      var n := |xs| - 1;
      Changes(s, xs[..n]) + (if After(s, xs).enders != After(s, xs[..n]).enders then 1 else 0)
  }

  // On any run at all the set of marks holds table entries only, never bit 0, and changes
  // at most once for each entry of the table.
  lemma {:induction false} MarksBounded(xs: seq<Sentence>, tableSize: nat)
    requires WellTagged(xs, tableSize)
    ensures After(ZERO, xs).lastTag <= tableSize
    ensures forall t :: t in After(ZERO, xs).enders ==> 1 <= t <= tableSize
    ensures Changes(ZERO, xs) == |After(ZERO, xs).enders| <= tableSize
  {
    if xs != [] {
      MarksBounded(xs[..|xs| - 1], tableSize);
    }
    BoundedSet(After(ZERO, xs).enders, tableSize);
  }

  lemma {:induction false} BoundedSet(s: set<nat>, n: nat)
    requires forall t :: t in s ==> 1 <= t <= n
    ensures |s| <= n
  {
    if n == 0 {
      assert s == {};
    } else {
      BoundedSet(s - {n}, n - 1);
    }
  }

  //////////////////////////////////////////////////////////////////////////////
  // Cycles
  //////////////////////////////////////////////////////////////////////////////

  // One reporting cycle: its time, and its sentences, stamped with that time or not.
  datatype Item = Item(tag: nat, stamped: bool)
  datatype Cycle = Cycle(time: real, items: seq<Item>)

  ghost function Sentences(c: Cycle): seq<Sentence>
  {
    seq(|c.items|, i requires 0 <= i < |c.items| =>
      Sentence(c.items[i].tag, if c.items[i].stamped then Some(c.time) else None))
  }

  ghost function Flatten(cs: seq<Cycle>): seq<Sentence>
  {
    if cs == [] then [] else Flatten(cs[..|cs| - 1]) + Sentences(cs[|cs| - 1])
  }

  // The first and the last sentence of a cycle with a timestamp.
  ghost predicate IsFirst(c: Cycle, p: nat)
  {
    p < |c.items| && c.items[p].stamped && forall q :: 0 <= q < p ==> !c.items[q].stamped
  }

  ghost predicate IsLast(c: Cycle, p: nat)
  {
    p < |c.items| && c.items[p].stamped && forall q :: p < q < |c.items| ==> !c.items[q].stamped
  }

  ghost predicate IsEndTag(c: Cycle, t: nat)
  {
    exists p: nat :: IsLast(c, p) && c.items[p].tag == t
  }

  // A cycle has a timestamp, and its timestamped sentences are in the table.
  ghost predicate Stamped(c: Cycle)
  {
    (exists p: nat :: IsLast(c, p)) &&
    forall p :: 0 <= p < |c.items| && c.items[p].stamped ==> c.items[p].tag > 0
  }

  // Its time is at least 1/100 second from that of its predecessor; the first time is not
  // taken for the zero the detector starts from.
  ghost predicate Apart(cs: seq<Cycle>, i: nat)
    requires i < |cs|
  {
    var before := if i > 0 then cs[i - 1].time else 0.0;
    cs[i].time >= before + 0.01 || cs[i].time <= before - 0.01
  }

  ghost predicate WellTimed(cs: seq<Cycle>)
  {
    forall i: nat :: i < |cs| ==> Stamped(cs[i]) && Apart(cs, i)
  }

  lemma WellTimedPrefix(cs: seq<Cycle>, n: nat)
    requires WellTimed(cs) && n <= |cs|
    ensures WellTimed(cs[..n])
  {
    forall i: nat | i < n ensures Stamped(cs[..n][i]) && Apart(cs[..n], i) {
      assert Stamped(cs[i]) && Apart(cs, i);
    }
  }

  // The marks once the time has moved on from state s.
  ghost function Marks(s: State): set<nat>
  {
    if s.lastTag > 0 then s.enders + {s.lastTag} else s.enders
  }

  // Part-way through a cycle: untouched until its first timestamp, settled from then on.
  lemma {:induction false} WithinCycle(s: State, c: Cycle, n: nat)
    requires n <= |c.items| && !TimeEqual(c.time, s.thisTime)
    ensures var t := After(s, Sentences(c)[..n]);
            if forall q :: 0 <= q < n ==> !c.items[q].stamped then t == s
            else t.thisTime == c.time && t.enders == Marks(s) &&
                 forall p: nat :: p < n && c.items[p].stamped && (forall q :: p < q < n ==> !c.items[q].stamped)
                   ==> t.lastTag == c.items[p].tag
  {
    if n > 0 {
      WithinCycle(s, c, n - 1);
      assert Sentences(c)[..n][..n - 1] == Sentences(c)[..n - 1];
    }
  }

  lemma CycleOutput(s: State, c: Cycle, p: nat)
    requires p < |c.items| && !TimeEqual(c.time, s.thisTime)
    ensures Output(s, Sentences(c), p).clear <==> IsFirst(c, p)
    ensures Output(s, Sentences(c), p).report <==> c.items[p].stamped && c.items[p].tag in Marks(s)
  {
    WithinCycle(s, c, p);
  }

  lemma CycleAfter(s: State, c: Cycle)
    requires Stamped(c) && !TimeEqual(c.time, s.thisTime)
    ensures var t := After(s, Sentences(c));
            t.thisTime == c.time && t.enders == Marks(s) && t.lastTag > 0 && IsEndTag(c, t.lastTag)
  {
    WithinCycle(s, c, |c.items|);
    assert Sentences(c)[..|c.items|] == Sentences(c);
    var p: nat :| IsLast(c, p);
  }

  // One of the first n cycles ended with tag t.
  ghost predicate EndedBefore(cs: seq<Cycle>, n: nat, t: nat)
    requires n <= |cs|
  {
    exists k: nat :: k < n && IsEndTag(cs[k], t)
  }

  lemma EndedBeforePrefix(cs: seq<Cycle>, n: nat, t: nat)
    requires n <= |cs|
    ensures EndedBefore(cs[..n], n, t) <==> EndedBefore(cs, n, t)
  {
    hide IsEndTag;
    forall k: nat | k < n ensures IsEndTag(cs[..n][k], t) == IsEndTag(cs[k], t) {
    }
  }

  // The detector between cycles: the marks are the end tags of all cycles but the last,
  // whose end tag is remembered.
  ghost predicate Between(cs: seq<Cycle>, s: State)
  {
    && s.thisTime == (if cs == [] then 0.0 else cs[|cs| - 1].time)
    && (cs == [] ==> s.lastTag == 0)
    && (cs != [] ==> s.lastTag > 0 && IsEndTag(cs[|cs| - 1], s.lastTag))
    && forall t :: t in Marks(s) <==> EndedBefore(cs, |cs|, t)
  }

  lemma EndTagUnique(c: Cycle, t: nat, u: nat)
    requires IsEndTag(c, t) && IsEndTag(c, u)
    ensures t == u
  {
  }

  lemma {:induction false} CyclesState(cs: seq<Cycle>)
    requires WellTimed(cs)
    ensures Between(cs, After(ZERO, Flatten(cs)))
  {
    if cs != [] {
      var n := |cs| - 1;
      WellTimedPrefix(cs, n);
      CyclesState(cs[..n]);
      assert Stamped(cs[n]) && Apart(cs, n);
      var s := After(ZERO, Flatten(cs[..n]));
      CycleAfter(s, cs[n]);
      AfterAppend(ZERO, Flatten(cs[..n]), Sentences(cs[n]));
      NextCycle(cs, s, After(s, Sentences(cs[n])));
    }
  }

  lemma NextCycle(cs: seq<Cycle>, s: State, t: State)
    requires cs != [] && Between(cs[..|cs| - 1], s)
    requires t.thisTime == cs[|cs| - 1].time && t.enders == Marks(s) && t.lastTag > 0 && IsEndTag(cs[|cs| - 1], t.lastTag)
    ensures Between(cs, t)
  {
    hide IsEndTag;
    var n := |cs| - 1;
    forall u ensures u in Marks(t) <==> EndedBefore(cs, |cs|, u) {
      EndedBeforePrefix(cs, n, u);
      if IsEndTag(cs[n], u) {
        EndTagUnique(cs[n], u, t.lastTag);
      }
    }
  }

  // Where cycle i starts in the run.
  ghost function Offset(cs: seq<Cycle>, i: nat): nat
    requires i <= |cs|
  {
    |Flatten(cs[..i])|
  }

  lemma {:induction false} FlattenPrefix(cs: seq<Cycle>, i: nat) returns (rest: seq<Sentence>)
    requires i <= |cs|
    ensures Flatten(cs) == Flatten(cs[..i]) + rest
  {
    if i == |cs| {
      assert cs[..i] == cs;
      rest := [];
    } else {
      rest := FlattenPrefix(cs[..|cs| - 1], i);
      assert cs[..|cs| - 1][..i] == cs[..i];
      rest := rest + Sentences(cs[|cs| - 1]);
    }
  }

  // What the sentence at position p of cycle i returns, in a run of all the cycles.
  ghost function CycleFlags(cs: seq<Cycle>, i: nat, p: nat): Flags
    requires i < |cs| && p < |cs[i].items|
  {
    InRun(cs, i, p);
    Output(ZERO, Flatten(cs), Offset(cs, i) + p)
  }

  lemma InRun(cs: seq<Cycle>, i: nat, p: nat)
    requires i < |cs| && p < |cs[i].items|
    ensures Offset(cs, i) + p < |Flatten(cs)|
    ensures Output(ZERO, Flatten(cs), Offset(cs, i) + p) == Output(After(ZERO, Flatten(cs[..i])), Sentences(cs[i]), p)
  {
    hide Output, Step, Sentences, TimeEqual;
    var rest := FlattenPrefix(cs, i + 1);
    FlattenNext(cs, i);
    SentencesLength(cs[i]);
    var init, xs := Flatten(cs[..i]), Flatten(cs[..i]) + Sentences(cs[i]);
    OutputAppend(ZERO, init, Sentences(cs[i]), p);
    OutputPrefix(ZERO, xs, rest, |init| + p);
  }

  lemma FlattenNext(cs: seq<Cycle>, i: nat)
    requires i < |cs|
    ensures Flatten(cs[..i + 1]) == Flatten(cs[..i]) + Sentences(cs[i])
  {
    hide Sentences;
    assert cs[..i + 1][..i] == cs[..i];
  }

  lemma SentencesLength(c: Cycle)
    ensures |Sentences(c)| == |c.items|
  {
  }

  lemma OutputPrefix(s: State, xs: seq<Sentence>, rest: seq<Sentence>, k: nat)
    requires k < |xs|
    ensures Output(s, xs + rest, k) == Output(s, xs, k)
  {
    assert (xs + rest)[..k] == xs[..k];
  }

  // Every cycle raises CLEAR on its first timestamp and nowhere else, and REPORT exactly on
  // the timestamped sentences that have ended an earlier cycle.
  lemma CycleBehaviour(cs: seq<Cycle>, i: nat, p: nat)
    requires WellTimed(cs) && i < |cs| && p < |cs[i].items|
    ensures CycleFlags(cs, i, p).clear <==> IsFirst(cs[i], p)
    ensures CycleFlags(cs, i, p).report <==>
            cs[i].items[p].stamped && EndedBefore(cs, i, cs[i].items[p].tag)
  {
    InRun(cs, i, p);
    WellTimedPrefix(cs, i);
    CyclesState(cs[..i]);
    assert Apart(cs, i);
    var s := After(ZERO, Flatten(cs[..i]));
    CycleOutput(s, cs[i], p);
    EndedBeforePrefix(cs, i, cs[i].items[p].tag);
    hide *;
  }

  // Lock-in after one cycle.  When all cycles end with the same tag, the first reports
  // nothing, and a later one reports exactly at its last timestamp if and only if it has
  // that tag nowhere else.
  lemma LockIn(cs: seq<Cycle>, e: nat, i: nat)
    requires WellTimed(cs) && i < |cs| && forall k :: 0 <= k < |cs| ==> IsEndTag(cs[k], e)
    ensures i == 0 ==> forall p :: 0 <= p < |cs[i].items| ==> !CycleFlags(cs, i, p).report
    ensures i > 0 ==>
            ((forall p :: 0 <= p < |cs[i].items| ==> (CycleFlags(cs, i, p).report <==> IsLast(cs[i], p))) <==>
             (forall p :: 0 <= p < |cs[i].items| && cs[i].items[p].stamped && cs[i].items[p].tag == e ==> IsLast(cs[i], p)))
  {
    forall p: nat | p < |cs[i].items|
      ensures CycleFlags(cs, i, p).report <==> i > 0 && cs[i].items[p].stamped && cs[i].items[p].tag == e
    {
      CycleBehaviour(cs, i, p);
      if k: nat :| k < i && IsEndTag(cs[k], cs[i].items[p].tag) {
        EndTagUnique(cs[k], e, cs[i].items[p].tag);
      }
      assert i > 0 ==> IsEndTag(cs[0], e);
    }
    var last: nat :| IsLast(cs[i], last) && cs[i].items[last].tag == e;
    hide CycleFlags;
  }
}
