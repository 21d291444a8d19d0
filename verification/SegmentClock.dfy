/** The stream's clock and its commit boundaries: one object, and every interleaving of
    its locked regions with the one read that takes no lock. */
module SegmentClocks {
  import opened Sequences
  import opened RestoreOrder

  /** The engine's side: whether it announces boundaries. A call that fails may have
      left either answer. */
  class Engine {
    var announcing: bool

    constructor ()
      ensures !announcing
    {
      announcing := false;
    }

    method Must(enabled: bool) returns (ok: bool)
      modifies this
      ensures ok ==> announcing == enabled
    {
      ok := *;
      if ok { announcing := enabled; } else { announcing := *; }
    }
  }

  /** One consumer of boundaries and the generations it was called with. */
  class SegmentWatch {
    var heard: seq<nat>

    constructor ()
      ensures heard == []
    {
      heard := [];
    }

    method Hear(generation: nat)
      modifies this
      ensures heard == old(heard) + [generation]
    {
      heard := heard + [generation];
    }
  }

  // ----------------------------------------------------------------- plain view

  datatype Clock = Clock(generation: nat, watches: seq<SegmentWatch>, published: bool, runtime: Engine?)

  /** A watch list has no repeats, and the engine was last told to announce exactly
      when a watch is live and an engine is known. */
  predicate Inv(c: Clock) {
    Distinct(c.watches) && (c.published <==> c.watches != [] && c.runtime != null)
  }

  predicate Foreign(c: Clock, rt: Engine?) {
    c.runtime != null && c.runtime != rt
  }

  /** Whether listening makes an engine call, and whether forgetting does. */
  predicate ListenCalls(c: Clock, rt: Engine?) {
    rt != null && !c.published
  }

  predicate ForgetCalls(c: Clock, w: SegmentWatch) {
    w in c.watches && Others(c.watches, w) == [] && c.runtime != null && c.published
  }

  function Others(ws: seq<SegmentWatch>, w: SegmentWatch): (r: seq<SegmentWatch>)
    ensures forall x | x in r :: x in ws && x != w
    ensures forall x | x in ws && x != w :: x in r
    ensures |r| <= |ws|
    ensures |r| == |ws| <==> w !in ws
    ensures w !in ws ==> r == ws
  {
    if ws == [] then []
    else if ws[0] == w then Others(ws[1..], w)
    else [ws[0]] + Others(ws[1..], w)
  }

  function Listened(c: Clock, rt: Engine?, w: SegmentWatch): Clock {
    Clock(c.generation, c.watches + [w], c.published || rt != null, rt)
  }

  function Forgotten(c: Clock, w: SegmentWatch): Clock {
    var rest := Others(c.watches, w);
    c.(watches := rest,
       published := if w in c.watches && rest == [] && c.runtime != null then false else c.published)
  }

  lemma {:induction false} OthersDistinct(ws: seq<SegmentWatch>, w: SegmentWatch)
    requires Distinct(ws)
    ensures Distinct(Others(ws, w))
    decreases |ws|
  {
    if ws != [] {
      assert ws[0] !in ws[1..];
      OthersDistinct(ws[1..], w);
    }
  }

  /** Without its one place for the watch, the list is as it was. */
  lemma {:induction false} OthersExactly(ws: seq<SegmentWatch>, w: SegmentWatch) returns (k: nat)
    requires Distinct(ws) && w in ws
    ensures k < |ws| && ws[k] == w && Others(ws, w) == ws[..k] + ws[k + 1..]
    decreases |ws|
  {
    if ws[0] == w {
      k := 0;
      assert w !in ws[1..];
    } else {
      k := OthersExactly(ws[1..], w);
      assert ws[..k + 1] == [ws[0]] + ws[1..][..k];
      assert ws[1..][k + 1..] == ws[k + 2..];
      k := k + 1;
    }
  }

  lemma ListenedKeeps(c: Clock, rt: Engine?, w: SegmentWatch)
    requires Inv(c) && !Foreign(c, rt) && w !in c.watches
    ensures Inv(Listened(c, rt, w))
  {
  }

  lemma ForgottenKeeps(c: Clock, w: SegmentWatch)
    requires Inv(c)
    ensures Inv(Forgotten(c, w))
  {
    OthersDistinct(c.watches, w);
  }

  // ----------------------------------------------------------------- the object

  datatype Reply<+T> = Done(value: T) | ForeignRuntime | EngineRefused

  class SegmentClock {
    var generation: nat
    var watches: seq<SegmentWatch>
    var published: bool
    var runtime: Engine?

    ghost function Plain(): Clock
      reads this
    {
      Clock(generation, watches, published, runtime)
    }

    ghost predicate Valid()
      reads this
    {
      Inv(Plain())
    }

    constructor ()
      ensures Valid() && Plain() == Clock(0, [], false, null)
    {
      generation, watches, published, runtime := 0, [], false, null;
    }

    /** Count one delivered change, or answer 0 with nothing watching. */
    method Tick() returns (stamp: nat)
      requires Valid()
      modifies this`generation
      ensures stamp == (if watches == [] then 0 else old(generation) + 1)
      ensures generation == old(generation) + (if watches == [] then 0 else 1)
      ensures Valid()
    {
      if watches == [] { return 0; }
      generation := generation + 1;
      return generation;
    }

    /** One engine call, made only when the answer changes. */
    method PublishLocked(rt: Engine?, enabled: bool) returns (ok: bool)
      modifies this`published, rt
      ensures ok ==> published == if rt == null then old(published) else enabled
      ensures !ok ==> rt != null && enabled != old(published) && published == old(published)
      ensures rt != null && old(rt.announcing == published) && ok ==> rt.announcing == published
    {
      if rt == null || enabled == published { return true; }
      ok := rt.Must(enabled);
      if ok { published := enabled; }
    }

    /** Hear every boundary from now on. */
    method Listen(rt: Engine?) returns (r: Reply<SegmentWatch>)
      requires Valid()
      modifies this, rt
      ensures Valid()
      ensures r.ForeignRuntime? <==> Foreign(old(Plain()), rt)
      ensures r.EngineRefused? ==> ListenCalls(old(Plain()), rt)
      ensures r.Done? ==> fresh(r.value) && r.value.heard == [] && Plain() == Listened(old(Plain()), rt, r.value)
      ensures r.Done? ==> watches == old(watches) + [r.value] && generation == old(generation) && runtime == rt
      ensures !r.Done? ==> Plain() == old(Plain())
      ensures rt != null && old(rt.announcing == published) && r.Done? ==> rt.announcing == published
    {
      var watch := new SegmentWatch();
      if runtime != null && runtime != rt { return ForeignRuntime; }
      var candidate := watches + [watch];
      ghost var before := Plain();
      var ok := PublishLocked(rt, true);
      if !ok { return EngineRefused; }
      runtime := rt;
      watches := candidate;
      ListenedKeeps(before, rt, watch);
      return Done(watch);
    }

    /** Withdraw one watch; an already withdrawn one changes nothing. */
    method Forget(w: SegmentWatch) returns (ok: bool)
      requires Valid()
      modifies this, runtime
      ensures Valid()
      ensures ok ==> Plain() == Forgotten(old(Plain()), w) && generation == old(generation)
      ensures ok && w !in old(watches) ==> watches == old(watches)
      ensures ok && w in old(watches) ==>
                exists k | 0 <= k < |old(watches)| ::
                  old(watches)[k] == w && watches == old(watches)[..k] + old(watches)[k + 1..]
      ensures !ok ==> ForgetCalls(old(Plain()), w) && Plain() == old(Plain())
      ensures runtime == old(runtime)
      ensures runtime != null && old(runtime.announcing == published) && ok ==> runtime.announcing == published
    {
      ghost var before := Plain();
      ForgottenKeeps(before, w);
      if w in watches { ghost var k := OthersExactly(watches, w); }
      var remaining := Others(watches, w);
      if |remaining| == |watches| { return true; }
      if remaining == [] {
        ok := PublishLocked(runtime, false);
        if !ok { return false; }
      }
      watches := remaining;
      assert Plain() == Forgotten(before, w);
      return true;
    }

    /** A segment has finished: every live watch hears the generation once. */
    method Committed()
      requires Valid()
      modifies watches
      ensures forall w | w in watches :: w.heard == old(w.heard) + [generation]
    {
      var snapshot, now := watches, generation;
      for i := 0 to |snapshot|
        invariant forall j | 0 <= j < i :: snapshot[j].heard == old(snapshot[j].heard) + [now]
        invariant forall j | i <= j < |snapshot| :: snapshot[j].heard == old(snapshot[j].heard)
      {
        snapshot[i].Hear(now);
      }
    }
  }

  // -------------------------------------------------------- every interleaving

  type Delivery = nat

  /** What a boundary read under the lock and how many watches it has called so far. */
  datatype Boundary = Boundary(snapshot: seq<SegmentWatch>, generation: nat, called: nat)

  /** The clock with what is under way: the deliveries whose unlocked read saw a watch,
      those of them still to be counted, the stamp of each delivery, the boundaries, and
      the engine's own flag. */
  datatype System = System(clock: Clock, announcing: bool, seen: set<Delivery>, counting: set<Delivery>,
                           stamps: map<Delivery, nat>, boundaries: seq<Boundary>)

  /** One lock-held region, or the read outside it. `found` is what a failing engine
      call left behind. */
  datatype Action =
    | Read(d: Delivery)
    | Count(d: Delivery)
    | Listen(rt: Engine?, w: SegmentWatch)
    | ListenFails(rt: Engine?, found: bool)
    | Forget(w: SegmentWatch)
    | ForgetFails(w: SegmentWatch, found: bool)
    | Commit
    | Call(i: nat)

  predicate Enabled(y: System, a: Action) {
    match a
    case Read(d) => d !in y.stamps && d !in y.counting
    case Count(d) => d in y.counting
    case Listen(rt, w) => !Foreign(y.clock, rt) && w !in y.clock.watches
    case ListenFails(rt, _) => !Foreign(y.clock, rt) && ListenCalls(y.clock, rt)
    case Forget(w) => true
    case ForgetFails(w, _) => ForgetCalls(y.clock, w)
    case Commit => true
    case Call(i) => i < |y.boundaries| && y.boundaries[i].called < |y.boundaries[i].snapshot|
  }

  function Apply(y: System, a: Action): System
    requires Enabled(y, a)
  {
    match a
    case Read(d) =>
      if y.clock.watches == [] then y.(stamps := y.stamps[d := 0])
      else y.(seen := y.seen + {d}, counting := y.counting + {d})
    case Count(d) =>
      var now := y.clock.generation + 1;
      y.(clock := y.clock.(generation := now), counting := y.counting - {d}, stamps := y.stamps[d := now])
    case Listen(rt, w) =>
      y.(clock := Listened(y.clock, rt, w), announcing := ListenCalls(y.clock, rt) || y.announcing)
    case ListenFails(_, found) => y.(announcing := found)
    case Forget(w) =>
      y.(clock := Forgotten(y.clock, w), announcing := !ForgetCalls(y.clock, w) && y.announcing)
    case ForgetFails(_, found) => y.(announcing := found)
    case Commit =>
      y.(boundaries := y.boundaries + [Boundary(y.clock.watches, y.clock.generation, 0)])
    case Call(i) =>
      var b := y.boundaries[i];
      y.(boundaries := y.boundaries[i := b.(called := b.called + 1)])
  }

  predicate Runs(y: System, acts: seq<Action>)
    decreases |acts|
  {
    acts == [] || (Enabled(y, acts[0]) && Runs(Apply(y, acts[0]), acts[1..]))
  }

  function After(y: System, acts: seq<Action>): System
    requires Runs(y, acts)
    decreases |acts|
  {
    if acts == [] then y else After(Apply(y, acts[0]), acts[1..])
  }

  const START := System(Clock(0, [], false, null), false, {}, {}, map[], [])

  /** The counted deliveries. */
  function Counted(stamps: map<Delivery, nat>): set<Delivery> {
    set d | d in stamps && stamps[d] > 0
  }

  /** The stamps given are one through the generation, each once, and go to exactly the
      deliveries that saw a watch and are no longer waiting to be counted. */
  ghost predicate Stamped(y: System) {
    && Counted(y.stamps) == y.seen - y.counting && y.counting <= y.seen && y.counting !! y.stamps.Keys
    && (forall d | d in y.stamps :: y.stamps[d] <= y.clock.generation)
    && (forall d, e | d in y.stamps && e in y.stamps && y.stamps[d] == y.stamps[e] > 0 :: d == e)
    && |y.seen| == y.clock.generation + |y.counting|
  }

  lemma StepKeeps(y: System, a: Action)
    requires Inv(y.clock) && Stamped(y) && Enabled(y, a)
    ensures Inv(Apply(y, a).clock) && Stamped(Apply(y, a))
    ensures y.clock.generation <= Apply(y, a).clock.generation
  {
    hide Stamped;
    match a
    case Read(d) => ReadKeeps(y, d);
    case Count(d) => CountKeeps(y, d);
    case Listen(rt, w) => ListenedKeeps(y.clock, rt, w); SameStamps(y, Apply(y, a));
    case Forget(w) => ForgottenKeeps(y.clock, w); SameStamps(y, Apply(y, a));
    case _ => SameStamps(y, Apply(y, a));
  }

  lemma SameStamps(y: System, z: System)
    requires Stamped(y)
    requires z.seen == y.seen && z.counting == y.counting && z.stamps == y.stamps
    requires z.clock.generation == y.clock.generation
    ensures Stamped(z)
  {
  }

  lemma ReadKeeps(y: System, d: Delivery)
    requires Stamped(y) && Enabled(y, Read(d))
    ensures Stamped(Apply(y, Read(d)))
  {
    if y.clock.watches == [] { UnseenKeeps(y, d); } else { SeenKeeps(y, d); }
  }

  lemma UnseenKeeps(y: System, d: Delivery)
    requires Stamped(y) && d !in y.stamps && d !in y.counting
    ensures Stamped(y.(stamps := y.stamps[d := 0]))
  {
    assert Counted(y.stamps[d := 0]) == Counted(y.stamps);
  }

  lemma SeenKeeps(y: System, d: Delivery)
    requires Stamped(y) && d !in y.stamps && d !in y.counting
    ensures Stamped(y.(seen := y.seen + {d}, counting := y.counting + {d}))
  {
    assert d !in Counted(y.stamps) && d !in y.seen - y.counting;
    assert d !in y.seen;
    hide Counted;
    assert (y.seen + {d}) - (y.counting + {d}) == y.seen - y.counting;
  }

  lemma CountKeeps(y: System, d: Delivery)
    requires Stamped(y) && Enabled(y, Count(d))
    ensures Stamped(Apply(y, Count(d)))
  {
    var z := Apply(y, Count(d));
    assert Counted(z.stamps) == Counted(y.stamps) + {d};
    assert y.seen - z.counting == (y.seen - y.counting) + {d};
    assert |z.counting| == |y.counting| - 1;
  }

  lemma {:induction false} RunKeeps(y: System, acts: seq<Action>)
    requires Inv(y.clock) && Stamped(y) && Runs(y, acts)
    ensures Inv(After(y, acts).clock) && Stamped(After(y, acts))
    ensures y.clock.generation <= After(y, acts).clock.generation
    decreases |acts|
  {
    if acts != [] {
      StepKeeps(y, acts[0]);
      RunKeeps(Apply(y, acts[0]), acts[1..]);
    }
  }

  /** In every interleaving the flag is up exactly when a watch is live and an engine is
      known; it agrees with "a watch is live" exactly when no watch listens through no
      engine. */
  lemma PublishedIsWatched(acts: seq<Action>)
    requires Runs(START, acts)
    ensures var c := After(START, acts).clock;
            && (c.published <==> c.watches != [] && c.runtime != null)
            && ((c.published <==> c.watches != []) <==> c.watches == [] || c.runtime != null)
  {
    RunKeeps(START, acts);
  }

  // --------------------------------------------------------- a run from its actions

  lemma {:induction false} RunsJoin(y: System, a: seq<Action>, b: seq<Action>)
    ensures Runs(y, a + b) <==> Runs(y, a) && Runs(After(y, a), b)
    ensures Runs(y, a + b) ==> After(y, a + b) == After(After(y, a), b)
    decreases |a|
  {
    hide Enabled, Apply;
    if a == [] {
      assert a + b == b;
    } else if Enabled(y, a[0]) {
      assert (a + b)[1..] == a[1..] + b;
      RunsJoin(Apply(y, a[0]), a[1..], b);
    }
  }

  lemma RunsOne(y: System, a: Action)
    ensures Runs(y, [a]) <==> Enabled(y, a)
    ensures Enabled(y, a) ==> After(y, [a]) == Apply(y, a)
  {
    hide Enabled, Apply;
    assert [a][1..] == [];
  }

  lemma RunsMiddle(y: System, a: seq<Action>, x: Action, b: seq<Action>)
    requires Runs(y, a + [x] + b)
    ensures Runs(y, a) && Enabled(After(y, a), x) && Runs(Apply(After(y, a), x), b)
    ensures After(y, a + [x] + b) == After(Apply(After(y, a), x), b)
  {
    hide Enabled, Apply;
    RunsJoin(y, a + [x], b);
    RunsJoin(y, a, [x]);
    RunsOne(After(y, a), x);
  }

  /** A listening at `k` that no later action withdraws. */
  predicate Live(acts: seq<Action>, k: nat) {
    k < |acts| && acts[k].Listen? && forall j | k < j < |acts| :: acts[j] != Forget(acts[k].w)
  }

  /** The watches are those of the live listenings, in the order of the listenings. */
  ghost predicate StandFor(acts: seq<Action>, ks: seq<nat>, watches: seq<SegmentWatch>) {
    && |ks| == |watches| && Ascending(ks)
    && (forall i | 0 <= i < |ks| :: Live(acts, ks[i]) && acts[ks[i]].w == watches[i])
    && (forall k: nat | Live(acts, k) :: k in ks)
  }

  /** The clock's watches, from the run's actions alone. */
  lemma {:induction false} WatchesExactly(acts: seq<Action>) returns (ks: seq<nat>)
    requires Runs(START, acts)
    ensures StandFor(acts, ks, After(START, acts).clock.watches)
    decreases |acts|
  {
    hide StandFor, Apply, Enabled;
    if acts == [] {
      ks := [];
      NoneStand();
    } else {
      var front, x := acts[..|acts| - 1], acts[|acts| - 1];
      assert acts == front + [x];
      RunsJoin(START, front, [x]);
      RunsOne(After(START, front), x);
      var before := WatchesExactly(front);
      RunKeeps(START, front);
      ks := StandNext(After(START, front), front, before, x);
    }
  }

  lemma NoneStand()
    ensures StandFor([], [], [])
  {
  }

  lemma StandNext(y: System, acts: seq<Action>, ks: seq<nat>, x: Action) returns (next: seq<nat>)
    requires Inv(y.clock) && Enabled(y, x) && StandFor(acts, ks, y.clock.watches)
    ensures StandFor(acts + [x], next, Apply(y, x).clock.watches)
  {
    hide StandFor, Ascending;
    match x
    case Listen(_, w) =>
      next := ks + [|acts|];
      StandListen(acts, ks, y.clock.watches, x);
    case Forget(w) =>
      if w in y.clock.watches {
        var k := OthersExactly(y.clock.watches, w);
        next := ks[..k] + ks[k + 1..] by { StandLength(acts, ks, y.clock.watches); }
        StandForget(acts, ks, y.clock.watches, w, k);
      } else {
        next := ks;
        StandOn(acts, ks, y.clock.watches, x);
      }
    case _ =>
      next := ks;
      StandOn(acts, ks, y.clock.watches, x);
  }

  lemma StandLength(acts: seq<Action>, ks: seq<nat>, ws: seq<SegmentWatch>)
    requires StandFor(acts, ks, ws)
    ensures |ks| == |ws|
  {
  }

  lemma LiveNext(acts: seq<Action>, x: Action, k: nat)
    ensures Live(acts + [x], k) <==>
            (Live(acts, k) && x != Forget(acts[k].w)) || (k == |acts| && x.Listen?)
  {
    var all := acts + [x];
    if Live(all, k) && k < |acts| {
      forall j | k < j < |acts| ensures acts[j] != Forget(acts[k].w) { assert all[j] != Forget(all[k].w); }
      assert all[|acts|] != Forget(all[k].w);
    }
  }

  lemma Places(acts: seq<Action>, ks: seq<nat>, ws: seq<SegmentWatch>, i: nat)
    requires StandFor(acts, ks, ws) && i < |ks|
    ensures ks[i] < |acts| && acts[ks[i]].Listen? && acts[ks[i]].w == ws[i]
  {
    assert Live(acts, ks[i]);
  }

  lemma StandOn(acts: seq<Action>, ks: seq<nat>, ws: seq<SegmentWatch>, x: Action)
    requires StandFor(acts, ks, ws) && !x.Listen? && (x.Forget? ==> x.w !in ws)
    ensures StandFor(acts + [x], ks, ws)
  {
    forall i | 0 <= i < |ks| ensures Live(acts + [x], ks[i]) {
      Places(acts, ks, ws, i);
      LiveNext(acts, x, ks[i]);
      assert ws[i] in ws;
    }
    forall k: nat | Live(acts + [x], k) ensures k in ks { LiveNext(acts, x, k); }
  }

  lemma StandListen(acts: seq<Action>, ks: seq<nat>, ws: seq<SegmentWatch>, x: Action)
    requires StandFor(acts, ks, ws) && x.Listen?
    ensures StandFor(acts + [x], ks + [|acts|], ws + [x.w])
  {
    var next := ks + [|acts|];
    forall i | 0 <= i < |ks| ensures ks[i] < |acts| && Live(acts + [x], ks[i]) {
      Places(acts, ks, ws, i);
      LiveNext(acts, x, ks[i]);
    }
    LiveNext(acts, x, |acts|);
    forall k: nat | Live(acts + [x], k) ensures k in next {
      LiveNext(acts, x, k);
      assert next[|ks|] == |acts|;
    }
  }

  lemma StandForget(acts: seq<Action>, ks: seq<nat>, ws: seq<SegmentWatch>, w: SegmentWatch, k: nat)
    requires StandFor(acts, ks, ws) && Distinct(ws) && k < |ws| && ws[k] == w
    ensures StandFor(acts + [Forget(w)], ks[..k] + ks[k + 1..], ws[..k] + ws[k + 1..])
  {
    var next, left, all := ks[..k] + ks[k + 1..], ws[..k] + ws[k + 1..], acts + [Forget(w)];
    forall i | 0 <= i < |next| ensures Live(all, next[i]) && all[next[i]].w == left[i] {
      var j := if i < k then i else i + 1;
      Places(acts, ks, ws, j);
      LiveNext(acts, Forget(w), ks[j]);
    }
    forall m: nat | Live(all, m) ensures m in next {
      LiveNext(acts, Forget(w), m);
      var j :| 0 <= j < |ks| && ks[j] == m;
      Places(acts, ks, ws, j);
      assert next[if j < k then j else j - 1] == m;
    }
  }

  /** The clock knows an engine exactly when some listening of the run came through it. */
  lemma {:induction false} EngineKnownExactly(acts: seq<Action>, rt: Engine)
    requires Runs(START, acts)
    ensures After(START, acts).clock.runtime == rt <==>
              exists k | 0 <= k < |acts| :: acts[k].Listen? && acts[k].rt == rt
    decreases |acts|
  {
    if acts != [] {
      var front, x := acts[..|acts| - 1], acts[|acts| - 1];
      assert acts == front + [x];
      RunsJoin(START, front, [x]);
      RunsOne(After(START, front), x);
      EngineKnownExactly(front, rt);
      assert forall k | 0 <= k < |front| :: acts[k] == front[k];
      if After(START, front).clock.runtime == rt {
        var k :| 0 <= k < |front| && front[k].Listen? && front[k].rt == rt;
        assert acts[k].Listen? && acts[k].rt == rt;
      }
    }
  }

  // ------------------------------------------------------------- what a change is given

  predicate CountedBy(y: System, d: Delivery) {
    d in y.counting || (d in y.stamps && y.stamps[d] > 0)
  }

  predicate PassedBy(y: System, d: Delivery) {
    d in y.stamps && y.stamps[d] == 0
  }

  lemma {:induction false} FateStays(y: System, acts: seq<Action>, d: Delivery)
    requires Runs(y, acts) && (CountedBy(y, d) != PassedBy(y, d)) && !(d in y.counting && d in y.stamps)
    ensures CountedBy(After(y, acts), d) == CountedBy(y, d)
    ensures PassedBy(After(y, acts), d) == PassedBy(y, d)
    decreases |acts|
  {
    if acts != [] { FateStays(Apply(y, acts[0]), acts[1..], d); }
  }

  /** Whatever came before and comes after, a change whose read found a live watch is
      waiting to be counted or has a stamp of its own, and one whose read found none is
      stamped zero and never counted. */
  lemma CountedExactly(a: seq<Action>, d: Delivery, b: seq<Action>)
    requires Runs(START, a + [Read(d)] + b)
    ensures Runs(START, a)
    ensures CountedBy(After(START, a + [Read(d)] + b), d) <==> After(START, a).clock.watches != []
    ensures PassedBy(After(START, a + [Read(d)] + b), d) <==> After(START, a).clock.watches == []
  {
    RunsMiddle(START, a, Read(d), b);
    FateStays(Apply(After(START, a), Read(d)), b, d);
  }

  /** How many reads of a run found a live watch. */
  function Sightings(y: System, acts: seq<Action>): nat
    requires Runs(y, acts)
    decreases |acts|
  {
    if acts == [] then 0
    else (if acts[0].Read? && y.clock.watches != [] then 1 else 0) + Sightings(Apply(y, acts[0]), acts[1..])
  }

  lemma {:induction false} SightingsGrow(y: System, acts: seq<Action>)
    requires Stamped(y) && Inv(y.clock) && Runs(y, acts)
    ensures After(y, acts).clock.generation + |After(y, acts).counting| ==
            y.clock.generation + |y.counting| + Sightings(y, acts)
    decreases |acts|
  {
    if acts != [] {
      StepKeeps(y, acts[0]);
      SightingsGrow(Apply(y, acts[0]), acts[1..]);
    }
  }

  /** How many changes a run counts. */
  function Changes(acts: seq<Action>): nat {
    if acts == [] then 0 else (if acts[0].Count? then 1 else 0) + Changes(acts[1..])
  }

  lemma {:induction false} ClockGrows(y: System, acts: seq<Action>)
    requires Runs(y, acts)
    ensures After(y, acts).clock.generation == y.clock.generation + Changes(acts)
    decreases |acts|
  {
    if acts != [] { ClockGrows(Apply(y, acts[0]), acts[1..]); }
  }

  /** The clock is the number of reads that found a live watch, less those still to be
      counted; the stamps above zero are one through the clock, each given once. */
  lemma ClockCountsWatchedChanges(acts: seq<Action>)
    requires Runs(START, acts)
    ensures var y := After(START, acts);
            && y.clock.generation == Changes(acts)
            && y.clock.generation + |y.counting| == Sightings(START, acts)
            && |Counted(y.stamps)| == y.clock.generation
            && (forall d, e | d in y.stamps && e in y.stamps && y.stamps[d] == y.stamps[e] > 0 :: d == e)
            && (forall d | d in y.stamps :: y.stamps[d] <= y.clock.generation)
  {
    RunKeeps(START, acts);
    ClockGrows(START, acts);
    SightingsGrow(START, acts);
    var y := After(START, acts);
    assert y.seen == Counted(y.stamps) + y.counting;
  }

  /** A counted change keeps the place of its count among all counts as its stamp. */
  lemma StampIsPlace(a: seq<Action>, d: Delivery, b: seq<Action>)
    requires Runs(START, a + [Count(d)] + b)
    ensures var y := After(START, a + [Count(d)] + b); d in y.stamps && y.stamps[d] == Changes(a) + 1
  {
    RunsMiddle(START, a, Count(d), b);
    RunKeeps(START, a);
    StepKeeps(After(START, a), Count(d));
    ClockGrows(START, a);
    StampStays(Apply(After(START, a), Count(d)), b, d);
  }

  // ------------------------------------------------------ what a boundary reports

  lemma {:induction false} StampStays(y: System, acts: seq<Action>, d: Delivery)
    requires Stamped(y) && Inv(y.clock) && Runs(y, acts) && d in y.stamps
    ensures d in After(y, acts).stamps && After(y, acts).stamps[d] == y.stamps[d]
    decreases |acts|
  {
    if acts != [] {
      StepKeeps(y, acts[0]);
      StampStays(Apply(y, acts[0]), acts[1..], d);
    }
  }

  lemma {:induction false} ReportStays(y: System, acts: seq<Action>, i: nat)
    requires Runs(y, acts) && i < |y.boundaries|
    ensures i < |After(y, acts).boundaries|
    ensures After(y, acts).boundaries[i].generation == y.boundaries[i].generation
    ensures After(y, acts).boundaries[i].snapshot == y.boundaries[i].snapshot
    decreases |acts|
  {
    if acts != [] { ReportStays(Apply(y, acts[0]), acts[1..], i); }
  }

  /** Count a change, let anything happen, commit, let anything happen again: the
      boundary's callbacks, whenever they are made, receive that change's stamp exactly
      when no other change was counted between the two. */
  lemma BoundaryReportsLastStamp(y: System, d: Delivery, between: seq<Action>, later: seq<Action>)
    requires Inv(y.clock) && Stamped(y) && Enabled(y, Count(d))
    requires Runs(Apply(y, Count(d)), between)
    requires Runs(Apply(After(Apply(y, Count(d)), between), Commit), later)
    ensures var before := After(Apply(y, Count(d)), between);
            var end := After(Apply(before, Commit), later);
            var i := |before.boundaries|;
            && i < |end.boundaries| && d in end.stamps
            && end.boundaries[i].snapshot == before.clock.watches
            && (end.boundaries[i].generation == end.stamps[d] <==> Changes(between) == 0)
  {
    var counted := Apply(y, Count(d));
    var before := After(counted, between);
    StepKeeps(y, Count(d));
    ClockGrows(counted, between);
    RunKeeps(counted, between);
    StampStays(counted, between, d);
    StampStays(Apply(before, Commit), later, d);
    ReportStays(Apply(before, Commit), later, |before.boundaries|);
  }

  // --------------------------------------------------------- agreement with the engine

  predicate LeavesFlag(y: System, a: Action) {
    (a.ListenFails? || a.ForgetFails?) ==> a.found == y.announcing
  }

  predicate FailuresLeaveFlag(y: System, acts: seq<Action>)
    requires Runs(y, acts)
    decreases |acts|
  {
    acts == [] || (LeavesFlag(y, acts[0]) && FailuresLeaveFlag(Apply(y, acts[0]), acts[1..]))
  }

  /** While failing engine calls change nothing there, the engine announces boundaries
      exactly when the clock believes it does. */
  lemma {:induction false} EngineAgrees(y: System, acts: seq<Action>)
    requires Inv(y.clock) && Stamped(y) && Runs(y, acts) && FailuresLeaveFlag(y, acts)
    requires y.announcing == y.clock.published
    ensures After(y, acts).announcing == After(y, acts).clock.published
    decreases |acts|
  {
    if acts != [] {
      StepKeeps(y, acts[0]);
      EngineAgrees(Apply(y, acts[0]), acts[1..]);
    }
  }

  /** A watch taken through no engine is never announced, whatever the flag says. */
  lemma WatchWithoutEngine(w: SegmentWatch)
    ensures Runs(START, [Listen(null, w)])
    ensures var c := After(START, [Listen(null, w)]).clock; c.watches != [] && !c.published
  {
    assert [Listen(null, w)][1..] == [];
  }
}
