/**
 The sending cores of main_pkt_send.cpp on one shared pool of packet buffers, one allocation, burst,
 free or completion per step, with any number of cores, any number of buffers accepted by the driver
 and any order of completion.
 */
module Sender {
  import opened Words

  const BURST_SIZE: nat := 64

  type Buf = int   // its address

  // Fill: bufs[..i] are allocated. Drain: bufs[i..] are still to be freed after a burst that took nbTx.
  // Stopped: an allocation failed with bufs[..i] in hand.
  datatype Pc = Fill(i: nat) | Drain(i: nat, nbTx: nat) | Stopped(i: nat)

  // bufs keeps stale pointers; what a core owns is a part of it.
  datatype Core = Core(pc: Pc, bufs: seq<Buf>, total: u32, bursts: u32)

  datatype World = World(pool: set<Buf>, driver: set<Buf>, cores: seq<Core>)

  datatype Event =
    | Alloc(core: nat, b: Buf)
    | AllocFails(core: nat)
    | Burst(core: nat, nbTx: nat)
    | Free(core: nat)
    | Finish(core: nat)
    | Complete(b: Buf)

  predicate CoreOk(c: Core) {
    && |c.bufs| == BURST_SIZE
    && c.pc.i <= BURST_SIZE
    && (c.pc.Drain? ==> c.pc.nbTx <= c.pc.i)
    && (c.pc.Stopped? ==> c.pc.i < BURST_SIZE)
  }

  function Owned(c: Core): seq<Buf> {
    if !CoreOk(c) then [] else if c.pc.Drain? then c.bufs[c.pc.i..] else c.bufs[..c.pc.i]
  }

  ghost predicate CoreStep(s: World, ev: Event, n: World, c: Core)
    requires !ev.Complete? && ev.core < |s.cores| && c == s.cores[ev.core] && CoreOk(c)
  {
    match ev
    case Alloc(k, b) =>
      && c.pc.Fill? && c.pc.i < BURST_SIZE && b in s.pool
      && n == s.(pool := s.pool - {b},
                 cores := s.cores[k := c.(pc := Fill(c.pc.i + 1), bufs := c.bufs[c.pc.i := b])])
    case AllocFails(k) =>
      && c.pc.Fill? && c.pc.i < BURST_SIZE
      && n == s.(cores := s.cores[k := c.(pc := Stopped(c.pc.i))])
    case Burst(k, nbTx) =>
      && c.pc == Fill(BURST_SIZE) && nbTx <= BURST_SIZE
      && n == s.(driver := s.driver + (set b | b in c.bufs[..nbTx]),
                 cores := s.cores[k := c.(pc := Drain(nbTx, nbTx))])
    case Free(k) =>
      && c.pc.Drain? && c.pc.i < BURST_SIZE
      && n == s.(pool := s.pool + {c.bufs[c.pc.i]},
                 cores := s.cores[k := c.(pc := Drain(c.pc.i + 1, c.pc.nbTx))])
    case Finish(k) =>
      && c.pc.Drain? && c.pc.i == BURST_SIZE
      && n == s.(cores := s.cores[k := c.(pc := Fill(0), total := Plus32(c.total, c.pc.nbTx),
                                          bursts := Plus32(c.bursts, 1))])
  }

  ghost predicate Step(s: World, ev: Event, n: World) {
    match ev
    case Complete(b) => b in s.driver && n == s.(driver := s.driver - {b}, pool := s.pool + {b})
    case _ => ev.core < |s.cores| && CoreOk(s.cores[ev.core]) && CoreStep(s, ev, n, s.cores[ev.core])
  }

  /** Conservation */

  function Count(bs: seq<Buf>, b: Buf): nat
    decreases |bs|
  {
    if bs == [] then 0 else (if bs[0] == b then 1 else 0) + Count(bs[1..], b)
  }

  lemma {:induction false} CountConcat(x: seq<Buf>, y: seq<Buf>, b: Buf)
    ensures Count(x + y, b) == Count(x, b) + Count(y, b)
    decreases |x|
  {
    if x == [] {
      assert x + y == y;
    } else {
      assert (x + y)[1..] == x[1..] + y;
      CountConcat(x[1..], y, b);
    }
  }

  lemma {:induction false} CountIn(bs: seq<Buf>, b: Buf)
    ensures b in bs <==> Count(bs, b) > 0
    decreases |bs|
  {
    if bs != [] {
      CountIn(bs[1..], b);
    }
  }

  // How often a buffer is among what the cores own.
  function Held(cores: seq<Core>, b: Buf): nat
    decreases |cores|
  {
    if cores == [] then 0
    else Held(cores[..|cores| - 1], b) + Count(Owned(cores[|cores| - 1]), b)
  }

  lemma {:induction false} HeldAfter(cores: seq<Core>, k: nat, c: Core, b: Buf)
    requires k < |cores|
    ensures Held(cores[k := c], b) + Count(Owned(cores[k]), b) == Held(cores, b) + Count(Owned(c), b)
    decreases |cores|
  {
    hide Owned, Count;
    var n, m := cores[k := c], |cores| - 1;
    if k == m {
      assert n[..m] == cores[..m];
    } else {
      assert n[..m] == cores[..m][k := c];
      HeldAfter(cores[..m], k, c, b);
    }
  }

  lemma {:induction false} OwnedIsHeld(cores: seq<Core>, k: nat, b: Buf)
    requires k < |cores|
    ensures Count(Owned(cores[k]), b) <= Held(cores, b)
    decreases |cores|
  {
    hide Owned, Count;
    if k < |cores| - 1 {
      OwnedIsHeld(cores[..|cores| - 1], k, b);
    }
  }

  // How many places a buffer is in: the pool, the driver, and slots that cores own.
  function Places(s: World, b: Buf): nat {
    (if b in s.pool then 1 else 0) + (if b in s.driver then 1 else 0) + Held(s.cores, b)
  }

  // Every buffer is in exactly one place, and nothing else is anywhere.
  ghost predicate Conserved(s: World, all: set<Buf>) {
    forall b: Buf :: Places(s, b) == if b in all then 1 else 0
  }

  ghost predicate CoresOk(cores: seq<Core>) {
    forall k: nat :: k < |cores| ==> CoreOk(cores[k])
  }

  ghost predicate Inv(s: World, all: set<Buf>) {
    Conserved(s, all) && CoresOk(s.cores)
  }

  // What a step of core k changes about a buffer's places.
  lemma {:induction false} PlacesAfter(s: World, n: World, k: nat, c: Core, b: Buf)
    requires k < |s.cores| && n.cores == s.cores[k := c]
    ensures Held(n.cores, b) - Held(s.cores, b) == Count(Owned(c), b) - Count(Owned(s.cores[k]), b)
    ensures Count(Owned(s.cores[k]), b) <= Held(s.cores, b)
  {
    HeldAfter(s.cores, k, c, b);
    OwnedIsHeld(s.cores, k, b);
  }

  // How the step of a core changes what it owns.
  lemma {:induction false} OwnedAfter(s: World, ev: Event, n: World, b: Buf)
    requires !ev.Complete? && Step(s, ev, n)
    ensures var c, x, y := s.cores[ev.core], Count(Owned(s.cores[ev.core]), b), Count(Owned(n.cores[ev.core]), b);
            match ev
            case Alloc(_, a) => y == x + (if a == b then 1 else 0)
            case AllocFails(_) => y == x
            case Burst(_, nbTx) => x == Count(c.bufs[..nbTx], b) + y
            case Free(_) => x == y + (if c.bufs[c.pc.i] == b then 1 else 0)
            case Finish(_) => x == 0 && y == 0
  {
    var c, d := s.cores[ev.core], n.cores[ev.core];
    match ev
    case Alloc(_, a) =>
      assert Owned(d) == Owned(c) + [a];
      CountConcat(Owned(c), [a], b);
    case AllocFails(_) =>
    case Burst(_, nbTx) =>
      assert Owned(c) == c.bufs[..nbTx] + Owned(d);
      CountConcat(c.bufs[..nbTx], Owned(d), b);
    case Free(_) =>
      assert Owned(c) == [c.bufs[c.pc.i]] + Owned(d);
      CountConcat([c.bufs[c.pc.i]], Owned(d), b);
    case Finish(_) =>
  }

  lemma {:induction false} StepPlaces(s: World, ev: Event, n: World, all: set<Buf>, b: Buf)
    requires Inv(s, all) && Step(s, ev, n)
    ensures Places(n, b) == if b in all then 1 else 0
  {
    assert Places(s, b) == if b in all then 1 else 0;
    if !ev.Complete? {
      var c := s.cores[ev.core];
      OwnedAfter(s, ev, n, b);
      PlacesAfter(s, n, ev.core, n.cores[ev.core], b);
      if ev.Burst? {
        CountIn(c.bufs[..ev.nbTx], b);
      }
    }
  }

  lemma {:induction false} StepCoresOk(s: World, ev: Event, n: World)
    requires CoresOk(s.cores) && Step(s, ev, n)
    ensures CoresOk(n.cores) && |n.cores| == |s.cores|
  {
  }

  // No step of any core or of the driver loses, duplicates or shares a buffer.
  lemma {:induction false} StepKeeps(s: World, ev: Event, n: World, all: set<Buf>)
    requires Inv(s, all) && Step(s, ev, n)
    ensures Inv(n, all) && |n.cores| == |s.cores|
  {
    hide Step, Places;
    StepCoresOk(s, ev, n);
    forall b: Buf
      ensures Places(n, b) == if b in all then 1 else 0
    {
      StepPlaces(s, ev, n, all, b);
    }
  }

  // A step touches one core at most, and never one that has stopped.
  lemma {:induction false} CoresApart(s: World, ev: Event, n: World, k: nat)
    requires CoresOk(s.cores) && Step(s, ev, n) && k < |s.cores|
    ensures |n.cores| == |s.cores|
    ensures ev.Complete? || ev.core != k || s.cores[k].pc.Stopped? ==> n.cores[k] == s.cores[k]
  {
  }

  // A core that has not stopped can always go on: with any buffer of the pool or a failed allocation, with a
  // burst of any size once its array is full, and then with freeing the others one by one. The driver may
  // complete any buffer it has.
  lemma {:induction false} NeverStuck(s: World, k: nat, b: Buf, nbTx: nat)
    requires CoresOk(s.cores) && k < |s.cores|
    ensures var pc := s.cores[k].pc;
      && (pc.Fill? && pc.i < BURST_SIZE ==> (exists n :: Step(s, AllocFails(k), n)))
      && (pc.Fill? && pc.i < BURST_SIZE && b in s.pool ==> (exists n :: Step(s, Alloc(k, b), n)))
      && (pc == Fill(BURST_SIZE) && nbTx <= BURST_SIZE ==> (exists n :: Step(s, Burst(k, nbTx), n)))
      && (pc.Drain? && pc.i < BURST_SIZE ==> (exists n :: Step(s, Free(k), n)))
      && (pc.Drain? && pc.i == BURST_SIZE ==> (exists n :: Step(s, Finish(k), n)))
    ensures b in s.driver ==> exists n :: Step(s, Complete(b), n)
  {
    var c := s.cores[k];
    if b in s.driver {
      assert Step(s, Complete(b), s.(driver := s.driver - {b}, pool := s.pool + {b}));
    }
    if c.pc.Fill? && c.pc.i < BURST_SIZE {
      assert Step(s, AllocFails(k), s.(cores := s.cores[k := c.(pc := Stopped(c.pc.i))]));
      if b in s.pool {
        var d := c.(pc := Fill(c.pc.i + 1), bufs := c.bufs[c.pc.i := b]);
        assert Step(s, Alloc(k, b), s.(pool := s.pool - {b}, cores := s.cores[k := d]));
      }
    } else if c.pc.Fill? && nbTx <= BURST_SIZE {
      var sent := set x | x in c.bufs[..nbTx];
      assert Step(s, Burst(k, nbTx), s.(driver := s.driver + sent, cores := s.cores[k := c.(pc := Drain(nbTx, nbTx))]));
    } else if c.pc.Drain? && c.pc.i < BURST_SIZE {
      var d := c.(pc := Drain(c.pc.i + 1, c.pc.nbTx));
      assert Step(s, Free(k), s.(pool := s.pool + {c.bufs[c.pc.i]}, cores := s.cores[k := d]));
    } else if c.pc.Drain? {
      var d := c.(pc := Fill(0), total := Plus32(c.total, c.pc.nbTx), bursts := Plus32(c.bursts, 1));
      assert Step(s, Finish(k), s.(cores := s.cores[k := d]));
    }
  }

  /** Runs */

  ghost predicate StepAt(ss: seq<World>, evs: seq<Event>, k: nat)
    requires |ss| == |evs| + 1 && k < |evs|
  {
    Step(ss[k], evs[k], ss[k + 1])
  }

  // All buffers in the pool, every core about to allocate, all counters zero.
  ghost predicate Start(s: World, all: set<Buf>) {
    && s.pool == all && s.driver == {}
    && forall k: nat :: k < |s.cores| ==>
         CoreOk(s.cores[k]) && s.cores[k].pc == Fill(0) && s.cores[k].total == 0 && s.cores[k].bursts == 0
  }

  ghost predicate Run(ss: seq<World>, evs: seq<Event>, all: set<Buf>) {
    |ss| == |evs| + 1 && Start(ss[0], all) && forall k: nat :: k < |evs| ==> StepAt(ss, evs, k)
  }

  lemma {:induction false} NothingHeld(cores: seq<Core>, b: Buf)
    requires forall k: nat :: k < |cores| ==> Owned(cores[k]) == []
    ensures Held(cores, b) == 0
    decreases |cores|
  {
    if cores != [] {
      var m := |cores| - 1;
      assert forall k: nat :: k < m ==> cores[..m][k] == cores[k];
      NothingHeld(cores[..m], b);
      assert Owned(cores[m]) == [];
    }
  }

  // Conservation at every moment of every run.
  lemma {:induction false} RunConserves(ss: seq<World>, evs: seq<Event>, all: set<Buf>, k: nat)
    requires Run(ss, evs, all) && k < |ss|
    ensures Inv(ss[k], all) && |ss[k].cores| == |ss[0].cores|
  {
    if k == 0 {
      forall b: Buf
        ensures Places(ss[0], b) == if b in all then 1 else 0
      {
        NothingHeld(ss[0].cores, b);
      }
    } else {
      RunConserves(ss, evs, all, k - 1);
      assert StepAt(ss, evs, k - 1);
      StepKeeps(ss[k - 1], evs[k - 1], ss[k], all);
    }
  }

  lemma {:induction false} TwiceCounts(bs: seq<Buf>, i: nat, j: nat)
    requires i < j < |bs| && bs[i] == bs[j]
    ensures Count(bs, bs[i]) >= 2
    decreases |bs|
  {
    if i == 0 {
      assert bs[1..][j - 1] == bs[0];
      CountIn(bs[1..], bs[0]);
    } else {
      TwiceCounts(bs[1..], i - 1, j - 1);
    }
  }

  lemma {:induction false} TwoOwners(cores: seq<Core>, k: nat, m: nat, b: Buf)
    requires k < |cores| && m < |cores| && m != k
    ensures Count(Owned(cores[k]), b) + Count(Owned(cores[m]), b) <= Held(cores, b)
    decreases |cores|
  {
    hide Owned, Count;
    var l := |cores| - 1;
    if k == l {
      OwnedIsHeld(cores[..l], m, b);
    } else if m == l {
      OwnedIsHeld(cores[..l], k, b);
    } else {
      TwoOwners(cores[..l], k, m, b);
    }
  }

  // Exclusive ownership: a buffer that a core owns is in no other place, nor twice in its array.
  lemma {:induction false} OwnerIsUnique(s: World, all: set<Buf>, k: nat, i: nat)
    requires Inv(s, all) && k < |s.cores| && i < |Owned(s.cores[k])|
    ensures var b := Owned(s.cores[k])[i];
            && b in all && b !in s.pool && b !in s.driver
            && (forall j: nat :: j < |Owned(s.cores[k])| && Owned(s.cores[k])[j] == b ==> j == i)
            && (forall m: nat :: m < |s.cores| && m != k ==> b !in Owned(s.cores[m]))
  {
    var mine := Owned(s.cores[k]);
    var b := mine[i];
    CountIn(mine, b);
    OwnedIsHeld(s.cores, k, b);
    assert Places(s, b) == if b in all then 1 else 0;
    forall j: nat | j < |mine| && mine[j] == b
      ensures j == i
    {
      if j < i {
        TwiceCounts(mine, j, i);
      } else if i < j {
        TwiceCounts(mine, i, j);
      }
    }
    forall m: nat | m < |s.cores| && m != k
      ensures b !in Owned(s.cores[m])
    {
      TwoOwners(s.cores, k, m, b);
      CountIn(Owned(s.cores[m]), b);
    }
  }

  /** Abandoned buffers */

  function AbandonedBy(c: Core): nat {
    if c.pc.Stopped? then |Owned(c)| else 0
  }

  function WorkedOnBy(c: Core): nat {
    if c.pc.Stopped? then 0 else |Owned(c)|
  }

  // What the stopped cores have left behind, what the others hold, and how many have stopped.
  function Abandoned(cores: seq<Core>): nat
    decreases |cores|
  {
    if cores == [] then 0 else Abandoned(cores[..|cores| - 1]) + AbandonedBy(cores[|cores| - 1])
  }

  function WorkedOn(cores: seq<Core>): nat
    decreases |cores|
  {
    if cores == [] then 0 else WorkedOn(cores[..|cores| - 1]) + WorkedOnBy(cores[|cores| - 1])
  }

  function StoppedCores(cores: seq<Core>): nat
    decreases |cores|
  {
    if cores == [] then 0
    else StoppedCores(cores[..|cores| - 1]) + if cores[|cores| - 1].pc.Stopped? then 1 else 0
  }

  lemma {:induction false} SumsAfter(cores: seq<Core>, k: nat, c: Core)
    requires k < |cores|
    ensures Abandoned(cores[k := c]) + AbandonedBy(cores[k]) == Abandoned(cores) + AbandonedBy(c)
    ensures WorkedOn(cores[k := c]) + WorkedOnBy(cores[k]) == WorkedOn(cores) + WorkedOnBy(c)
    decreases |cores|
  {
    hide AbandonedBy, WorkedOnBy;
    var n, m := cores[k := c], |cores| - 1;
    if k == m {
      assert n[..m] == cores[..m];
    } else {
      assert n[..m] == cores[..m][k := c];
      SumsAfter(cores[..m], k, c);
    }
  }

  lemma {:induction false} AbandonedBound(cores: seq<Core>)
    requires CoresOk(cores)
    ensures Abandoned(cores) <= 63 * StoppedCores(cores)
    decreases |cores|
  {
    if cores != [] {
      var m := |cores| - 1;
      assert forall k: nat :: k < m ==> cores[..m][k] == cores[k];
      AbandonedBound(cores[..m]);
      assert CoreOk(cores[m]);
    }
  }

  function Circulating(s: World): nat {
    |s.pool| + |s.driver| + WorkedOn(s.cores) + Abandoned(s.cores)
  }

  lemma {:induction false} DistinctCount(bs: seq<Buf>)
    requires forall b: Buf :: Count(bs, b) <= 1
    ensures |(set b | b in bs)| == |bs|
    decreases |bs|
  {
    if bs != [] {
      forall b: Buf
        ensures Count(bs[1..], b) <= 1
      {
        assert Count(bs, b) <= 1;
      }
      DistinctCount(bs[1..]);
      assert Count(bs, bs[0]) <= 1;
      CountIn(bs[1..], bs[0]);
      assert (set b | b in bs) == {bs[0]} + (set b | b in bs[1..]);
    }
  }

  // The buffers a burst hands over are new to the driver and all different.
  lemma {:induction false} BurstIsNew(s: World, k: nat, nbTx: nat, n: World, all: set<Buf>)
    requires Inv(s, all) && Step(s, Burst(k, nbTx), n)
    ensures |n.driver| == |s.driver| + nbTx
  {
    var sent := s.cores[k].bufs[..nbTx];
    forall b: Buf
      ensures Count(sent, b) <= 1 && (b in sent ==> b !in s.driver)
    {
      assert Places(s, b) == if b in all then 1 else 0;
      OwnedAfter(s, Burst(k, nbTx), n, b);
      OwnedIsHeld(s.cores, k, b);
      CountIn(sent, b);
    }
    DistinctCount(sent);
    forall b: Buf | b in sent
      ensures b !in s.driver
    {
      assert Count(sent, b) <= 1;
    }
    assert s.driver !! (set b | b in sent);
    assert |s.driver + (set b | b in sent)| == |s.driver| + |(set b | b in sent)|;
  }

  lemma {:induction false} FreeIsNew(s: World, k: nat, n: World, all: set<Buf>)
    requires Inv(s, all) && Step(s, Free(k), n)
    ensures |n.pool| == |s.pool| + 1
  {
    var b := s.cores[k].bufs[s.cores[k].pc.i];
    assert Places(s, b) == if b in all then 1 else 0;
    OwnedAfter(s, Free(k), n, b);
    OwnedIsHeld(s.cores, k, b);
  }

  // How the step of a core changes the number of buffers it works on or has abandoned, and the sets.
  lemma {:induction false} CoreCirculates(s: World, ev: Event, n: World, all: set<Buf>)
    requires Inv(s, all) && Step(s, ev, n) && !ev.Complete?
    ensures ev.core < |s.cores| && n.cores == s.cores[ev.core := n.cores[ev.core]]
    ensures var c, d := s.cores[ev.core], n.cores[ev.core];
            |n.pool| + |n.driver| + WorkedOnBy(d) + AbandonedBy(d)
            == |s.pool| + |s.driver| + WorkedOnBy(c) + AbandonedBy(c)
  {
    hide Inv, Conserved;
    match ev
    case Burst(k, nbTx) => BurstIsNew(s, k, nbTx, n, all);
    case Free(k) => FreeIsNew(s, k, n, all);
    case _ =>
  }

  lemma {:induction false} StepCirculates(s: World, ev: Event, n: World, all: set<Buf>)
    requires Inv(s, all) && Step(s, ev, n)
    ensures Circulating(n) == Circulating(s)
  {
    hide CoreStep, WorkedOn, Abandoned, WorkedOnBy, AbandonedBy, Held;
    if ev.Complete? {
      assert Places(s, ev.b) == if ev.b in all then 1 else 0;
    } else {
      CoreCirculates(s, ev, n, all);
      SumsAfter(s.cores, ev.core, n.cores[ev.core]);
    }
  }

  lemma {:induction false} StartCirculates(s: World, all: set<Buf>)
    requires Start(s, all)
    ensures Circulating(s) == |all|
  {
    NoneWorkedOn(s.cores);
  }

  lemma {:induction false} NoneWorkedOn(cores: seq<Core>)
    requires forall k: nat :: k < |cores| ==> Owned(cores[k]) == []
    ensures WorkedOn(cores) == 0 && Abandoned(cores) == 0
    decreases |cores|
  {
    if cores != [] {
      var m := |cores| - 1;
      assert forall k: nat :: k < m ==> cores[..m][k] == cores[k];
      NoneWorkedOn(cores[..m]);
      assert Owned(cores[m]) == [];
    }
  }

  // The number of buffers: only stopped cores take any out of circulation, at most 63 each.
  lemma {:induction false} RunCirculates(ss: seq<World>, evs: seq<Event>, all: set<Buf>, k: nat)
    requires Run(ss, evs, all) && k < |ss|
    ensures Circulating(ss[k]) == |all|
    ensures Abandoned(ss[k].cores) <= 63 * StoppedCores(ss[k].cores)
  {
    hide Step, Circulating, Conserved;
    RunConserves(ss, evs, all, k);
    AbandonedBound(ss[k].cores);
    if k == 0 {
      StartCirculates(ss[0], all);
    } else {
      RunConserves(ss, evs, all, k - 1);
      RunCirculates(ss, evs, all, k - 1);
      assert StepAt(ss, evs, k - 1);
      StepCirculates(ss[k - 1], evs[k - 1], ss[k], all);
    }
  }

  /** Counters */

  // The buffers that core k's finished iterations handed to the driver, and those iterations.
  function SentBy(ss: seq<World>, evs: seq<Event>, k: nat): nat
    requires |ss| == |evs| + 1
    decreases |evs|
  {
    if evs == [] then 0
    else
      var m := |evs| - 1;
      SentBy(ss[..m + 1], evs[..m], k) +
      (if evs[m] == Finish(k) && k < |ss[m].cores| && ss[m].cores[k].pc.Drain? then ss[m].cores[k].pc.nbTx else 0)
  }

  function Finished(evs: seq<Event>, k: nat): nat
    decreases |evs|
  {
    if evs == [] then 0
    else Finished(evs[..|evs| - 1], k) + if evs[|evs| - 1] == Finish(k) then 1 else 0
  }

  lemma {:induction false} RunPrefix(ss: seq<World>, evs: seq<Event>, all: set<Buf>)
    requires Run(ss, evs, all) && evs != []
    ensures var m := |evs| - 1;
            Run(ss[..m + 1], evs[..m], all) && StepAt(ss, evs, m)
  {
    var m := |evs| - 1;
    var ss', evs' := ss[..m + 1], evs[..m];
    forall j: nat | j < m
      ensures StepAt(ss', evs', j)
    {
      assert StepAt(ss, evs, j);
    }
  }

  // At every moment each core's counters are the sums over its finished iterations, mod 2^32.
  lemma {:induction false} CountersAreSums(ss: seq<World>, evs: seq<Event>, all: set<Buf>, k: nat)
    requires Run(ss, evs, all) && k < |ss[0].cores|
    ensures k < |ss[|evs|].cores|
    ensures ss[|evs|].cores[k].total == Wrap32(SentBy(ss, evs, k))
    ensures ss[|evs|].cores[k].bursts == Wrap32(Finished(evs, k))
    decreases |evs|
  {
    if evs != [] {
      var m := |evs| - 1;
      RunPrefix(ss, evs, all);
      CountersAreSums(ss[..m + 1], evs[..m], all, k);
      if evs[m] == Finish(k) {
        Wrap32Plus(SentBy(ss[..m + 1], evs[..m], k), ss[m].cores[k].pc.nbTx);
        Wrap32Plus(Finished(evs[..m], k), 1);
      }
    }
  }

  /** The counters and the driver */

  function SentByAll(ss: seq<World>, evs: seq<Event>, n: nat): nat
    requires |ss| == |evs| + 1
    decreases n
  {
    if n == 0 then 0 else SentByAll(ss, evs, n - 1) + SentBy(ss, evs, n - 1)
  }

  // What a burst still being drained has handed over.
  function InDrain(c: Core): nat {
    if c.pc.Drain? then c.pc.nbTx else 0
  }

  function Draining(cores: seq<Core>): nat
    decreases |cores|
  {
    if cores == [] then 0 else Draining(cores[..|cores| - 1]) + InDrain(cores[|cores| - 1])
  }

  function Completions(evs: seq<Event>): nat
    decreases |evs|
  {
    if evs == [] then 0
    else Completions(evs[..|evs| - 1]) + if evs[|evs| - 1].Complete? then 1 else 0
  }

  lemma {:induction false} DrainingAfter(cores: seq<Core>, k: nat, c: Core)
    requires k < |cores|
    ensures Draining(cores[k := c]) + InDrain(cores[k]) == Draining(cores) + InDrain(c)
    decreases |cores|
  {
    hide InDrain;
    var n, m := cores[k := c], |cores| - 1;
    if k == m {
      assert n[..m] == cores[..m];
    } else {
      assert n[..m] == cores[..m][k := c];
      DrainingAfter(cores[..m], k, c);
    }
  }

  lemma {:induction false} SentByAllStep(ss: seq<World>, evs: seq<Event>, n: nat)
    requires |ss| == |evs| + 1 && evs != []
    ensures var m := |evs| - 1;
            SentByAll(ss, evs, n) == SentByAll(ss[..m + 1], evs[..m], n) +
              (if evs[m].Finish? && evs[m].core < n && evs[m].core < |ss[m].cores|
               then InDrain(ss[m].cores[evs[m].core]) else 0)
    decreases n
  {
    if n > 0 {
      SentByAllStep(ss, evs, n - 1);
    }
  }

  lemma {:induction false} NothingSent(s: World, n: nat)
    ensures SentByAll([s], [], n) == 0
    decreases n
  {
    if n > 0 {
      NothingSent(s, n - 1);
    }
  }

  lemma {:induction false} NothingDraining(cores: seq<Core>)
    requires forall k: nat :: k < |cores| ==> cores[k].pc == Fill(0)
    ensures Draining(cores) == 0
    decreases |cores|
  {
    if cores != [] {
      NothingDraining(cores[..|cores| - 1]);
    }
  }

  // What one step changes about bursts being drained, the driver and its completions.
  lemma {:induction false} StepDelivers(s: World, ev: Event, n: World, all: set<Buf>)
    requires Inv(s, all) && Step(s, ev, n)
    ensures ev.Finish? ==> ev.core < |s.cores|
    ensures Draining(n.cores) - Draining(s.cores) + (if ev.Finish? then InDrain(s.cores[ev.core]) else 0)
         == |n.driver| - |s.driver| + (if ev.Complete? then 1 else 0)
  {
    if !ev.Complete? {
      DrainingAfter(s.cores, ev.core, n.cores[ev.core]);
      assert n.cores == s.cores[ev.core := n.cores[ev.core]];
      if ev.Burst? {
        BurstIsNew(s, ev.core, ev.nbTx, n, all);
      }
    }
  }

  // What the cores' finished iterations and the bursts still being drained have handed over is what the
  // driver has and what it has completed.
  lemma {:induction false} SentIsDelivered(ss: seq<World>, evs: seq<Event>, all: set<Buf>)
    requires Run(ss, evs, all)
    ensures var s := ss[|evs|];
            |s.cores| == |ss[0].cores|
            && SentByAll(ss, evs, |s.cores|) + Draining(s.cores) == |s.driver| + Completions(evs)
    decreases |evs|
  {
    hide Step, Inv;
    if evs == [] {
      assert ss == [ss[0]];
      NothingSent(ss[0], |ss[0].cores|);
      NothingDraining(ss[0].cores);
    } else {
      var m := |evs| - 1;
      RunPrefix(ss, evs, all);
      SentIsDelivered(ss[..m + 1], evs[..m], all);
      RunConserves(ss, evs, all, m);
      StepKeeps(ss[m], evs[m], ss[m + 1], all);
      StepDelivers(ss[m], evs[m], ss[m + 1], all);
      SentByAllStep(ss, evs, |ss[m].cores|);
    }
  }
}
