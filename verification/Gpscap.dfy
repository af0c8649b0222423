/**
 Resolution of the uses= members in gpscap.py.  A section may name another section to
 inherit from; passes over the sections copy the missing options down until a pass
 inherits nothing.
 */
module Gpscap {
  import opened Wrappers

  type Options = map<string, string>
  type Config = map<string, Options>

  predicate Inherits(c: Config, s: string)
  {
    s in c && "uses" in c[s]
  }

  function Parent(c: Config, s: string): string
    requires Inherits(c, s)
  {
    c[s]["uses"]
  }

  ghost predicate ParentsExist(c: Config)
  {
    forall s :: Inherits(c, s) ==> Parent(c, s) in c
  }

  predicate Distinct(names: seq<string>)
  {
    forall i, j :: 0 <= i < j < |names| ==> names[i] != names[j]
  }

  // The sections of c, in the order in which they are passed over.
  ghost predicate Lists(names: seq<string>, c: Config)
  {
    Distinct(names) && forall s :: s in names <==> s in c
  }

  function Index(names: seq<string>, s: string): nat
  {
    if names == [] || names[0] == s then 0 else 1 + Index(names[1..], s)
  }

  lemma {:induction false} IndexFound(names: seq<string>, i: nat)
    requires i < |names| && Distinct(names)
    ensures Index(names, names[i]) == i
  {
    if i > 0 {
      assert names[1..][i - 1] == names[i] && names[0] != names[i];
      IndexFound(names[1..], i - 1);
    }
  }

  //////////////////////////////////////////////////////////////////////////////
  // What inheritance means
  //////////////////////////////////////////////////////////////////////////////

  // r ranks the sections from which a chain of parents comes to an end, each above its
  // parent; the chains of all others go round in a circle or to a section that is not there.
  ghost predicate IsRanking(c: Config, r: map<string, nat>)
  {
    forall s :: Ranked(c, r, s)
  }

  ghost predicate Ranked(c: Config, r: map<string, nat>, s: string)
  {
    if s in r then s in c && (Inherits(c, s) ==> Parent(c, s) in r && r[Parent(c, s)] < r[s])
    else s in c ==> Inherits(c, s) && Parent(c, s) !in r
  }

  // A ranking of some sections, with a height above all of them.
  ghost predicate RanksSome(c: Config, r: map<string, nat>, height: nat)
  {
    && r.Keys <= c.Keys
    && (forall s :: s in r ==> r[s] < height)
    && forall s {:trigger Ranked(c, r, s)} :: s in r ==> Ranked(c, r, s)
  }

  lemma RankOne(c: Config, r: map<string, nat>, height: nat, s: string)
    requires RanksSome(c, r, height) && s in c && s !in r && (Inherits(c, s) ==> Parent(c, s) in r)
    ensures RanksSome(c, r[s := height], height + 1)
  {
    var more := r[s := height];
    forall t {:trigger Ranked(c, more, t)} | t in more ensures Ranked(c, more, t) {
      assert t in r ==> Ranked(c, r, t);
    }
  }

  lemma {:induction false} RankingExtends(c: Config, r: map<string, nat>, height: nat)
    requires RanksSome(c, r, height)
    ensures exists q: map<string, nat> :: IsRanking(c, q)
    decreases |c.Keys - r.Keys|
  {
    if s :| s in c && s !in r && (Inherits(c, s) ==> Parent(c, s) in r) {
      assert s in c.Keys - r.Keys;
      Smaller(c.Keys - r[s := height].Keys, c.Keys - r.Keys);
      hide RanksSome;
      RankOne(c, r, height, s);
      RankingExtends(c, r[s := height], height + 1);
    } else {
      forall s ensures Ranked(c, r, s) {
      }
      assert IsRanking(c, r);
    }
  }

  // Every configuration has such a ranking.
  lemma RankingExists(c: Config)
    ensures exists r: map<string, nat> :: IsRanking(c, r)
  {
    RankingExtends(c, map[], 0);
  }

  lemma {:induction false} Smaller<T>(a: set<T>, b: set<T>)
    requires a < b
    ensures |a| < |b|
  {
    var x :| x in b && x !in a;
    if a == {} {
      assert b == {x} + (b - {x});
    } else {
      var y :| y in a;
      Smaller(a - {y}, b - {y});
    }
  }

  // An option is a section's own, or else its parent's.
  ghost function Lookup(c: Config, r: map<string, nat>, s: string, o: string): Option<string>
    requires IsRanking(c, r) && s in r
    decreases r[s]
  {
    assert Ranked(c, r, s);
    if o in c[s] then Some(c[s][o])
    else if Inherits(c, s) then Lookup(c, r, Parent(c, s), o)
    else None
  }

  // A section with everything it inherits, and nothing left to inherit.
  ghost function Flat(c: Config, r: map<string, nat>, s: string): (f: Options)
    requires IsRanking(c, r) && s in r
    ensures "uses" !in f
    decreases r[s]
  {
    assert Ranked(c, r, s);
    if Inherits(c, s) then (Flat(c, r, Parent(c, s)) + c[s]) - {"uses"} else c[s]
  }

  ghost function Get(f: Options, o: string): Option<string>
  {
    if o in f then Some(f[o]) else None
  }

  lemma {:induction false} FlatLookup(c: Config, r: map<string, nat>, s: string, o: string)
    requires IsRanking(c, r) && s in r && o != "uses"
    ensures Get(Flat(c, r, s), o) == Lookup(c, r, s, o)
    decreases r[s]
  {
    assert Ranked(c, r, s);
    if Inherits(c, s) {
      FlatLookup(c, r, Parent(c, s), o);
    }
  }

  //////////////////////////////////////////////////////////////////////////////
  // What the passes do
  //////////////////////////////////////////////////////////////////////////////

  // The pass that resolves a section: its parent's, if that one comes first in it,
  // or the next.
  ghost function Round(c: Config, r: map<string, nat>, names: seq<string>, s: string): nat
    requires IsRanking(c, r) && s in r
    decreases r[s]
  {
    assert Ranked(c, r, s);
    if !Inherits(c, s) then 0
    else
      var n := Round(c, r, names, Parent(c, s));
      if n > 0 && Index(names, Parent(c, s)) < Index(names, s) then n else n + 1
  }

  // Whether a section is resolved when pass k has been over i sections.
  ghost predicate Done(c: Config, r: map<string, nat>, names: seq<string>, k: nat, i: nat, s: string)
    requires IsRanking(c, r)
  {
    s in r && (Round(c, r, names, s) < k || (Round(c, r, names, s) == k && Index(names, s) < i))
  }

  // The configuration then.
  ghost function After(c: Config, r: map<string, nat>, names: seq<string>, k: nat, i: nat): Config
    requires IsRanking(c, r)
  {
    map s | s in c :: if Done(c, r, names, k, i, s) then Flat(c, r, s) else c[s]
  }

  // Whether a section inherits something.
  ghost predicate Gains(c: Config, r: map<string, nat>, s: string)
    requires IsRanking(c, r)
  {
    assert Ranked(c, r, s);
    s in r && Inherits(c, s) && exists o :: o in Flat(c, r, Parent(c, s)) && o !in c[s]
  }

  // Whether any of the first i sections inherits something in pass k.
  ghost predicate PassGains(c: Config, r: map<string, nat>, names: seq<string>, k: nat, i: nat)
    requires IsRanking(c, r)
  {
    exists s :: Gains(c, r, s) && Round(c, r, names, s) == k && Index(names, s) < i
  }

  // The loop ends after the first pass that inherits nothing.
  ghost predicate IsLastPass(c: Config, r: map<string, nat>, names: seq<string>, m: nat)
    requires IsRanking(c, r)
  {
    && m >= 1 && !PassGains(c, r, names, m, |names|)
    && forall k :: 1 <= k < m ==> PassGains(c, r, names, k, |names|)
  }

  //////////////////////////////////////////////////////////////////////////////
  // The passes keep every lookup
  //////////////////////////////////////////////////////////////////////////////

  lemma AfterRanked(c: Config, r: map<string, nat>, names: seq<string>, k: nat, i: nat)
    requires IsRanking(c, r)
    ensures IsRanking(After(c, r, names, k, i), r)
  {
    var d := After(c, r, names, k, i);
    forall s ensures Ranked(d, r, s) {
      assert Ranked(c, r, s);
    }
  }

  // At every step of every pass, every section gives every option the value it gave before.
  lemma {:induction false} LookupKept(c: Config, r: map<string, nat>, names: seq<string>, k: nat, i: nat, s: string,
                                      o: string)
    requires IsRanking(c, r) && s in r && o != "uses"
    ensures IsRanking(After(c, r, names, k, i), r)
    ensures Lookup(After(c, r, names, k, i), r, s, o) == Lookup(c, r, s, o)
    decreases r[s]
  {
    AfterRanked(c, r, names, k, i);
    assert Ranked(c, r, s) && Ranked(After(c, r, names, k, i), r, s);
    FlatLookup(c, r, s, o);
    if !Done(c, r, names, k, i, s) && Inherits(c, s) {
      LookupKept(c, r, names, k, i, Parent(c, s), o);
    }
  }

  //////////////////////////////////////////////////////////////////////////////
  // When nothing is left to resolve
  //////////////////////////////////////////////////////////////////////////////

  // Every chain of parents ends, and no pass before the one a section waits for
  // goes by without inheriting something.
  ghost predicate Resolvable(c: Config, r: map<string, nat>, names: seq<string>)
    requires IsRanking(c, r)
  {
    forall s :: s in c ==>
      s in r && forall k :: 1 <= k < Round(c, r, names, s) ==> PassGains(c, r, names, k, |names|)
  }

  lemma IndexBound(names: seq<string>, s: string)
    requires s in names
    ensures Index(names, s) < |names|
  {
  }

  // The passes remove every uses= exactly when the configuration is resolvable.
  lemma ResolvedIff(c: Config, r: map<string, nat>, names: seq<string>, m: nat)
    requires IsRanking(c, r) && Lists(names, c) && IsLastPass(c, r, names, m)
    ensures (forall s :: !Inherits(After(c, r, names, m, |names|), s)) <==> Resolvable(c, r, names)
  {
    var d := After(c, r, names, m, |names|);
    if Resolvable(c, r, names) {
      forall s ensures !Inherits(d, s) {
        if s in c {
          IndexBound(names, s);
          assert Round(c, r, names, s) <= m;
          assert Done(c, r, names, m, |names|, s);
        }
      }
    }
    if forall s :: !Inherits(d, s) {
      forall s | s in c
        ensures s in r && forall k :: 1 <= k < Round(c, r, names, s) ==> PassGains(c, r, names, k, |names|)
      {
        assert !Inherits(d, s) && Ranked(c, r, s);
        assert s in r && Round(c, r, names, s) <= m;
      }
    }
  }

  // Then every section is left with exactly the options its lookups gave to begin with.
  lemma Flattened(c: Config, r: map<string, nat>, names: seq<string>, m: nat, s: string, o: string)
    requires IsRanking(c, r) && Lists(names, c) && IsLastPass(c, r, names, m) && Resolvable(c, r, names)
    requires s in c && o != "uses"
    ensures s in r && Get(After(c, r, names, m, |names|)[s], o) == Lookup(c, r, s, o)
  {
    hide Flat, Lookup;
    IndexBound(names, s);
    assert Round(c, r, names, s) <= m;
    FlatLookup(c, r, s, o);
  }

  // Some section is resolved in every pass up to the one a section waits for.
  lemma {:induction false} EveryRound(c: Config, r: map<string, nat>, names: seq<string>, s: string, k: nat)
      returns (t: string)
    requires IsRanking(c, r) && s in r && 1 <= k <= Round(c, r, names, s)
    ensures t in r && Inherits(c, t) && Round(c, r, names, t) == k
    decreases r[s]
  {
    assert Ranked(c, r, s);
    if k == Round(c, r, names, s) {
      t := s;
    } else {
      t := EveryRound(c, r, names, Parent(c, s), k);
    }
  }

  // It is enough that all chains end and every section with a parent inherits something.
  lemma AllGainResolvable(c: Config, r: map<string, nat>, names: seq<string>)
    requires IsRanking(c, r) && Lists(names, c) && c.Keys == r.Keys
    requires forall s :: Inherits(c, s) ==> Gains(c, r, s)
    ensures Resolvable(c, r, names)
  {
    forall s, k | s in c && 1 <= k < Round(c, r, names, s) ensures PassGains(c, r, names, k, |names|) {
      var t := EveryRound(c, r, names, s, k);
      IndexBound(names, t);
    }
  }

  function EarlyConfig(): Config
  {
    map["device" := map["type" := "device", "uses" := "chipset"],
        "chipset" := map["type" := "engine", "uses" := "engine", "rating" := "good"],
        "engine" := map["type" := "engine"]]
  }

  function EarlyRanks(): map<string, nat>
  {
    map["device" := 2, "chipset" := 1, "engine" := 0]
  }

  function EarlyNames(): seq<string>
  {
    ["device", "chipset", "engine"]
  }

  lemma EarlyRounds()
    ensures var c, r, names := EarlyConfig(), EarlyRanks(), EarlyNames();
      && IsRanking(c, r) && Round(c, r, names, "chipset") == 1 && Round(c, r, names, "device") == 2
      && Round(c, r, names, "engine") == 0
  {
    var c, r, names := EarlyConfig(), EarlyRanks(), EarlyNames();
    forall s ensures Ranked(c, r, s) {
    }
    assert Index(names, "device") == 0;
    IndexFound(names, 1);
  }

  lemma EarlyGains()
    requires IsRanking(EarlyConfig(), EarlyRanks())
    ensures Gains(EarlyConfig(), EarlyRanks(), "device") && !Gains(EarlyConfig(), EarlyRanks(), "chipset")
  {
    var c, r := EarlyConfig(), EarlyRanks();
    assert Flat(c, r, "engine") == c["engine"];
    assert "rating" in Flat(c, r, "chipset") && "rating" !in c["device"];
  }

  // It is not enough that all chains end: here the first pass inherits nothing, and the
  // loop ends while device still has its uses=, and something to inherit.
  lemma StopsEarly()
    ensures var c, r, names := EarlyConfig(), EarlyRanks(), EarlyNames();
      && IsRanking(c, r) && Lists(names, c) && c.Keys == r.Keys && ParentsExist(c)
      && IsLastPass(c, r, names, 1)
      && Inherits(After(c, r, names, 1, |names|), "device") && Gains(c, r, "device")
  {
    EarlyRounds();
    EarlyGains();
    var c, r, names := EarlyConfig(), EarlyRanks(), EarlyNames();
    hide Flat, Round, Index, Gains;
    GainsGrounded(c, r);
    EarlyKeys();
  }

  lemma EarlyKeys()
    ensures Lists(EarlyNames(), EarlyConfig()) && EarlyConfig().Keys == EarlyRanks().Keys
    ensures EarlyRanks().Keys == {"device", "chipset", "engine"}
  {
  }

  lemma GainsGrounded(c: Config, r: map<string, nat>)
    requires IsRanking(c, r)
    ensures forall s :: Gains(c, r, s) ==> s in r
  {
  }

  //////////////////////////////////////////////////////////////////////////////
  // The loop
  //////////////////////////////////////////////////////////////////////////////

  lemma IndexOnly(names: seq<string>, i: nat, s: string)
    requires i < |names| && Distinct(names) && s in names && Index(names, s) == i
    ensures s == names[i]
  {
    var j :| 0 <= j < |names| && names[j] == s;
    IndexFound(names, j);
  }

  lemma DoneStep(c: Config, r: map<string, nat>, names: seq<string>, k: nat, i: nat, s: string)
    requires IsRanking(c, r) && Lists(names, c) && i < |names| && s in c
    ensures Done(c, r, names, k, i + 1, s) <==>
      Done(c, r, names, k, i, s) || (s == names[i] && s in r && Round(c, r, names, s) == k)
  {
    hide IsRanking, Round, Index;
    IndexFound(names, i);
    if Index(names, s) == i {
      IndexOnly(names, i, s);
    }
  }

  // A section is up in a pass with its parent resolved exactly if this is its pass.
  lemma StepRound(c: Config, r: map<string, nat>, names: seq<string>, k: nat, i: nat)
    requires IsRanking(c, r) && Lists(names, c) && i < |names| && k >= 1
    requires Inherits(c, names[i]) && Parent(c, names[i]) in c
    requires !Done(c, r, names, k, i, names[i])
    requires Parent(c, names[i]) in r ==>
      Done(c, r, names, k, i, Parent(c, names[i])) || !Inherits(c, Parent(c, names[i]))
    ensures names[i] in r <==> Parent(c, names[i]) in r
    ensures names[i] in r ==> Round(c, r, names, names[i]) == k
  {
    IndexFound(names, i);
    assert Ranked(c, r, names[i]) && Ranked(c, r, Parent(c, names[i]));
  }

  // One section resolved, and the state of the pass after it.
  lemma StepResolved(c: Config, r: map<string, nat>, names: seq<string>, k: nat, i: nat)
    requires IsRanking(c, r) && Lists(names, c) && i < |names| && k >= 1
    requires var d := After(c, r, names, k, i); Inherits(d, names[i]) && !Inherits(d, Parent(d, names[i]))
    requires Inherits(c, names[i]) ==> Parent(c, names[i]) in c
    ensures var s, d := names[i], After(c, r, names, k, i);
      && s in r && Inherits(c, s) && Parent(c, s) in r
      && Round(c, r, names, s) == k && d[s] == c[s] && d[Parent(c, s)] == Flat(c, r, Parent(c, s))
      && After(c, r, names, k, i + 1) == d[s := Flat(c, r, s)]
  {
    hide Flat, Round, Done, Index;
    var s, d := names[i], After(c, r, names, k, i);
    assert !Done(c, r, names, k, i, s) && d[s] == c[s];
    var p := Parent(c, s);
    assert Ranked(c, r, s) && Ranked(c, r, p);
    DoneUngrounded(c, r, names, k, i, p);
    assert p in r;
    StepRound(c, r, names, k, i);
    FlatParentless(c, r, p);
    DoneParentless(c, r, names, k, i, p);
    var e := After(c, r, names, k, i + 1);
    forall t | t in c ensures e[t] == d[s := Flat(c, r, s)][t] {
      DoneStep(c, r, names, k, i, t);
    }
  }

  lemma DoneUngrounded(c: Config, r: map<string, nat>, names: seq<string>, k: nat, i: nat, s: string)
    requires IsRanking(c, r)
    ensures Done(c, r, names, k, i, s) ==> s in r
  {
  }

  lemma DoneParentless(c: Config, r: map<string, nat>, names: seq<string>, k: nat, i: nat, s: string)
    requires IsRanking(c, r) && s in r && k >= 1
    ensures !Inherits(c, s) ==> Done(c, r, names, k, i, s)
  {
  }

  lemma FlatParentless(c: Config, r: map<string, nat>, s: string)
    requires IsRanking(c, r) && s in r
    ensures s in c && (!Inherits(c, s) ==> Flat(c, r, s) == c[s])
  {
    assert Ranked(c, r, s);
  }

  // One section passed over: it has no parent left, or its parent still has one.
  lemma StepSkipped(c: Config, r: map<string, nat>, names: seq<string>, k: nat, i: nat)
    requires IsRanking(c, r) && Lists(names, c) && i < |names| && k >= 1
    requires var d := After(c, r, names, k, i);
      Inherits(d, names[i]) ==> Inherits(d, Parent(d, names[i]))
    ensures After(c, r, names, k, i + 1) == After(c, r, names, k, i)
    ensures PassGains(c, r, names, k, i + 1) == PassGains(c, r, names, k, i)
  {
    hide Flat, Round, Index;
    var s, d := names[i], After(c, r, names, k, i);
    NotYet(c, r, names, k, i);
    var e := After(c, r, names, k, i + 1);
    forall t | t in c ensures e[t] == d[t] {
      DoneStep(c, r, names, k, i, t);
    }
    GainsStep(c, r, names, k, i);
  }

  // A section passed over with its parent unresolved has a later pass to wait for.
  lemma NotYet(c: Config, r: map<string, nat>, names: seq<string>, k: nat, i: nat)
    requires IsRanking(c, r) && Lists(names, c) && i < |names| && k >= 1
    requires var d := After(c, r, names, k, i);
      Inherits(d, names[i]) ==> Inherits(d, Parent(d, names[i]))
    ensures names[i] in r && Round(c, r, names, names[i]) == k ==> Done(c, r, names, k, i, names[i])
  {
    var s, d := names[i], After(c, r, names, k, i);
    IndexFound(names, i);
    assert Ranked(c, r, s);
  }

  lemma GainsStep(c: Config, r: map<string, nat>, names: seq<string>, k: nat, i: nat)
    requires IsRanking(c, r) && Lists(names, c) && i < |names|
    ensures PassGains(c, r, names, k, i + 1) <==>
      PassGains(c, r, names, k, i) || (Gains(c, r, names[i]) && Round(c, r, names, names[i]) == k)
  {
    hide Flat, Round, Index, Inherits;
    IndexFound(names, i);
    forall s | Gains(c, r, s) && Index(names, s) == i ensures s == names[i] {
      assert Ranked(c, r, s);
      IndexOnly(names, i, s);
    }
  }

  lemma PassGainsNothing(c: Config, r: map<string, nat>, names: seq<string>, k: nat)
    requires IsRanking(c, r)
    ensures !PassGains(c, r, names, k, 0)
  {
  }

  lemma AfterKeys(c: Config, r: map<string, nat>, names: seq<string>, k: nat, i: nat)
    requires IsRanking(c, r)
    ensures After(c, r, names, k, i).Keys == c.Keys
  {
  }

  // How resolving one section moves a pass on.
  lemma StepPass(c: Config, r: map<string, nat>, names: seq<string>, k: nat, i: nat)
    requires IsRanking(c, r) && Lists(names, c) && i < |names| && k >= 1
    ensures var s, d, e := names[i], After(c, r, names, k, i), After(c, r, names, k, i + 1);
      if !Inherits(d, s) || Inherits(d, Parent(d, s)) then
        && e == d && PassGains(c, r, names, k, i + 1) == PassGains(c, r, names, k, i)
        && (Inherits(c, s) ==> Parent(c, s) in c)
      else if Parent(d, s) !in d then
        Inherits(c, s) && Parent(c, s) == Parent(d, s) && Parent(c, s) !in c
      else
        && s in d && e == d[s := (d[Parent(d, s)] + d[s]) - {"uses"}]
        && (PassGains(c, r, names, k, i + 1) <==>
            PassGains(c, r, names, k, i) || exists o :: o in d[Parent(d, s)] && o !in d[s])
        && Inherits(c, s) && Parent(c, s) in c
  {
    var s, d := names[i], After(c, r, names, k, i);
    if !Inherits(d, s) || Inherits(d, Parent(d, s)) {
      StepSkipped(c, r, names, k, i);
      ParentThere(c, r, names, k, i, s);
    } else {
      StepParent(c, r, names, k, i, s);
      if Parent(d, s) in d {
        StepResolved(c, r, names, k, i);
        GainsStep(c, r, names, k, i);
        StepFlat(c, r, s);
      }
    }
  }

  // Resolved or not, a section that is not up has the parent it names.
  lemma ParentThere(c: Config, r: map<string, nat>, names: seq<string>, k: nat, i: nat, s: string)
    requires IsRanking(c, r) && s in c
    requires var d := After(c, r, names, k, i); !Inherits(d, s) || Inherits(d, Parent(d, s))
    ensures Inherits(c, s) ==> Parent(c, s) in c
  {
    hide Flat, Round, Index;
    assert Ranked(c, r, s);
    if Inherits(c, s) && s in r {
      assert Ranked(c, r, Parent(c, s));
    }
  }

  lemma StepParent(c: Config, r: map<string, nat>, names: seq<string>, k: nat, i: nat, s: string)
    requires IsRanking(c, r) && Inherits(After(c, r, names, k, i), s)
    ensures Inherits(c, s) && Parent(After(c, r, names, k, i), s) == Parent(c, s)
  {
    hide Round, Index;
  }

  lemma StepFlat(c: Config, r: map<string, nat>, s: string)
    requires IsRanking(c, r) && s in r && Inherits(c, s) && Parent(c, s) in r
    ensures s in c && Flat(c, r, s) == (Flat(c, r, Parent(c, s)) + c[s]) - {"uses"}
    ensures Gains(c, r, s) <==> exists o :: o in Flat(c, r, Parent(c, s)) && o !in c[s]
  {
    assert Ranked(c, r, s);
  }

  // The sections that are not resolved before pass k.
  ghost function Waiting(c: Config, r: map<string, nat>, names: seq<string>, k: nat): set<string>
    requires IsRanking(c, r)
  {
    set s | s in r && Round(c, r, names, s) >= k
  }

  lemma FirstPass(c: Config, r: map<string, nat>, names: seq<string>)
    requires IsRanking(c, r) && Lists(names, c)
    ensures After(c, r, names, 1, 0) == c
  {
    forall s | s in c ensures After(c, r, names, 1, 0)[s] == c[s] {
      assert Ranked(c, r, s);
    }
  }

  lemma NextPass(c: Config, r: map<string, nat>, names: seq<string>, k: nat)
    requires IsRanking(c, r) && Lists(names, c)
    ensures After(c, r, names, k + 1, 0) == After(c, r, names, k, |names|)
    ensures PassGains(c, r, names, k, |names|) ==> Waiting(c, r, names, k + 1) < Waiting(c, r, names, k)
  {
    hide Flat, Round, Index;
    forall s | s in c ensures Index(names, s) < |names| {
      IndexBound(names, s);
    }
    if PassGains(c, r, names, k, |names|) {
      var s :| Gains(c, r, s) && Round(c, r, names, s) == k && Index(names, s) < |names|;
      assert s in Waiting(c, r, names, k) && s !in Waiting(c, r, names, k + 1);
    }
  }

  class GPSDictionary {
    const names: seq<string>
    var sections: Config

    constructor (names: seq<string>, sections: Config)
      ensures this.names == names && this.sections == sections
    {
      this.names := names;
      this.sections := sections;
    }

    // Copies down the options a section lacks.
    method Inherit(section: string, parent: string) returns (inherited: bool)
      requires section in sections && parent in sections && section != parent
      modifies this
      ensures inherited <==> exists o :: o in old(sections)[parent] && o !in old(sections)[section]
      ensures sections == old(sections)[section := old(sections)[parent] + old(sections)[section]]
    {
      inherited := false;
      var rest := sections[parent].Keys;
      ghost var c := sections;
      while rest != {}
        invariant rest <= c[parent].Keys
        invariant sections.Keys == c.Keys && forall s :: s in c && s != section ==> sections[s] == c[s]
        invariant sections[section].Keys == c[section].Keys + (c[parent].Keys - rest)
        invariant forall o :: o in sections[section] ==>
          sections[section][o] == if o in c[section] then c[section][o] else c[parent][o]
        invariant inherited <==> exists o :: o in c[parent].Keys - rest && o !in c[section]
      {
        var heritable :| heritable in rest;
        if heritable !in sections[section] {
          sections := sections[section := sections[section][heritable := sections[parent][heritable]]];
          inherited := true;
        }
        rest := rest - {heritable};
      }
      assert sections[section] == c[parent] + c[section];
    }

    // The body of the inner loop: whether a section inherits anything, or its parent
    // is not there.
    method ResolveSection(section: string) returns (missing: Option<string>, inherited: bool)
      requires section in sections
      modifies this
      ensures var d := old(sections);
        if !Inherits(d, section) || Inherits(d, Parent(d, section)) then
          missing == None && !inherited && sections == d
        else if Parent(d, section) !in d then
          missing == Some(Parent(d, section)) && sections == d
        else
          && missing == None
          && sections == d[section := (d[Parent(d, section)] + d[section]) - {"uses"}]
          && (inherited <==> exists o :: o in d[Parent(d, section)] && o !in d[section])
    {
      missing, inherited := None, false;
      if "uses" in sections[section] {
        var parent := sections[section]["uses"];
        if parent in sections && "uses" in sections[parent] {
          return;
        }
        if parent !in sections {
          return Some(parent), false;
        }
        inherited := Inherit(section, parent);
        sections := sections[section := sections[section] - {"uses"}];
      }
    }

    // One pass over the sections.
    method Pass(ghost c: Config, ghost r: map<string, nat>, ghost k: nat)
      returns (missing: Option<string>, keepgoing: bool)
      requires k >= 1 && IsRanking(c, r) && Lists(names, c) && sections == After(c, r, names, k, 0)
      modifies this
      ensures missing.Some? ==> missing.value !in c && exists s :: Inherits(c, s) && Parent(c, s) == missing.value
      ensures missing == None ==> ParentsExist(c)
      ensures missing == None ==> sections == After(c, r, names, k, |names|)
      ensures missing == None ==> keepgoing == PassGains(c, r, names, k, |names|)
    {
      hide Flat, Round, Index, After, Done, Gains;
      keepgoing := false;
      PassGainsNothing(c, r, names, k);
      for i := 0 to |names|
        invariant sections == After(c, r, names, k, i)
        invariant keepgoing == PassGains(c, r, names, k, i)
        invariant forall j :: 0 <= j < i && Inherits(c, names[j]) ==> Parent(c, names[j]) in c
      {
        AfterKeys(c, r, names, k, i);
        var inherited;
        missing, inherited := ResolveSection(names[i]);
        StepPass(c, r, names, k, i);
        if missing.Some? {
          return;
        }
        keepgoing := keepgoing || inherited;
      }
      missing := None;
    }

    // The resolution loop: None when it is through, or else a parent that is not there.
    method Resolve(ghost r: map<string, nat>) returns (missing: Option<string>, ghost m: nat)
      requires Lists(names, sections) && IsRanking(sections, r)
      modifies this
      ensures missing == None <==> ParentsExist(old(sections))
      ensures missing.Some? ==> missing.value !in old(sections)
      ensures missing.Some? ==> exists s :: Inherits(old(sections), s) && Parent(old(sections), s) == missing.value
      ensures missing == None ==> IsLastPass(old(sections), r, names, m)
      ensures missing == None ==> sections == After(old(sections), r, names, m, |names|)
    {
      hide Flat, Round, Index, After, Done, Gains;
      ghost var c := sections;
      m := 1;
      FirstPass(c, r, names);
      while true
        invariant IsRanking(c, r) && Lists(names, c)
        invariant m >= 1 && sections == After(c, r, names, m, 0)
        invariant forall k :: 1 <= k < m ==> PassGains(c, r, names, k, |names|)
        decreases Waiting(c, r, names, m)
      {
        var keepgoing;
        missing, keepgoing := Pass(c, r, m);
        if missing.Some? || !keepgoing {
          return;
        }
        NextPass(c, r, names, m);
        m := m + 1;
      }
    }
  }
}
