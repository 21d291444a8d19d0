/** Dispatch while the registry changes: the world carries the registry, a fold is
    admitted when the registry has it active at its turn, and each step adds, cancels,
    restores and abandons folds as it likes. */
module DispatchHistories {
  import opened Sequences
  import opened Atoms
  import opened Matching
  import opened TokenPaths
  import opened RestoreOrder
  import opened FoldRegistries
  import opened Dispatching

  /** The registry and whatever else a step may change. */
  datatype World<R> = World(registry: System, rest: R)

  /** The first `n` turns are admitted by the registry as it then is, and `ops` lists
      what each of them does to it. */
  ghost predicate Hosted<R, E>(h: Host<World<R>, E>, w: World<R>, cs: seq<Fold>, c: Change, ops: seq<seq<Op>>,
                               n: nat) {
    && |ops| == |cs| >= n
    && forall k | 0 <= k < n :: HostedAt(h, w, cs, c, ops, k)
  }

  ghost predicate HostedAt<R, E>(h: Host<World<R>, E>, w: World<R>, cs: seq<Fold>, c: Change, ops: seq<seq<Op>>, k: nat)
    requires k < |cs| == |ops|
  {
    var now := WorldAt(h, w, cs, c, k);
    && (h.admits(now, cs[k]) <==> cs[k] in now.registry.view.active)
    && WorldAt(h, w, cs, c, k + 1).registry == Run(now.registry, ops[k])
  }

  /** What the first `n` turns do. */
  function Done(ops: seq<seq<Op>>, n: nat): seq<Op>
    requires n <= |ops|
  {
    if n == 0 then [] else Done(ops, n - 1) + ops[n - 1]
  }

  /** The registry as the turn of `f` finds it. */
  function AtTurn(y: System, cs: seq<Fold>, ops: seq<seq<Op>>, f: Fold): View
    requires f in cs && |ops| == |cs|
  {
    Run(y, Done(ops, IndexOf(cs, f))).view
  }

  // --------------------------------------------------------------------- histories

  lemma {:induction false} RunOn(y: System, a: seq<Op>, b: seq<Op>)
    ensures Run(y, a + b) == Run(Run(y, a), b)
    decreases |a|
  {
    hide Step;
    if a == [] {
      assert a + b == b;
    } else {
      assert (a + b)[0] == a[0] && (a + b)[1..] == a[1..] + b;
      RunOn(Step(y, a[0]), a[1..], b);
    }
  }

  predicate Withdraws(op: Op, f: Fold) {
    (op.Cancel? || op.Abandon?) && op.f == f
  }

  predicate Reactivates(op: Op, f: Fold) {
    (op.Add? || op.Restore?) && op.f == f && op.isActive
  }

  lemma StepFlags(y: System, op: Op, f: Fold)
    ensures f in y.view.active && !Withdraws(op, f) ==> f in Step(y, op).view.active
    ensures f !in y.view.active && !Reactivates(op, f) ==> f !in Step(y, op).view.active
    ensures op == Abandon(f) ==> f !in Step(y, op).view.active
    ensures op.Cancel? && op.f == f && f in y.view.folds && Step(y, op).view != y.view ==>
              f !in Step(y, op).view.active
  {
    hide Spaces, Dropped, Keep;
  }

  lemma {:induction false} StaysActive(y: System, ops: seq<Op>, f: Fold)
    requires f in y.view.active && forall i | 0 <= i < |ops| :: !Withdraws(ops[i], f)
    ensures f in Run(y, ops).view.active
    decreases |ops|
  {
    hide Step, Withdraws;
    if ops != [] {
      StepFlags(y, ops[0], f);
      assert forall i | 0 <= i < |ops| - 1 :: ops[1..][i] == ops[i + 1];
      StaysActive(Step(y, ops[0]), ops[1..], f);
    }
  }

  lemma {:induction false} StaysInactive(y: System, ops: seq<Op>, f: Fold)
    requires f !in y.view.active && forall i | 0 <= i < |ops| :: !Reactivates(ops[i], f)
    ensures f !in Run(y, ops).view.active
    decreases |ops|
  {
    hide Step, Reactivates;
    if ops != [] {
      StepFlags(y, ops[0], f);
      assert forall i | 0 <= i < |ops| - 1 :: ops[1..][i] == ops[i + 1];
      StaysInactive(Step(y, ops[0]), ops[1..], f);
    }
  }

  // ------------------------------------------------------------- one turn at a time

  lemma {:induction false} RegistryAt<R, E>(h: Host<World<R>, E>, w: World<R>, cs: seq<Fold>, c: Change,
                                            ops: seq<seq<Op>>, n: nat, k: nat)
    requires Hosted(h, w, cs, c, ops, n) && k <= n
    ensures WorldAt(h, w, cs, c, k).registry == Run(w.registry, Done(ops, k))
    decreases k
  {
    hide Run, WorldAt;
    if k == 0 {
      WorldAtFirst(h, w, cs, c);
      RunNothing(w.registry);
    } else {
      RegistryAt(h, w, cs, c, ops, n, k - 1);
      assert HostedAt(h, w, cs, c, ops, k - 1);
      RunOn(w.registry, Done(ops, k - 1), ops[k - 1]);
    }
  }

  lemma WorldAtFirst<R, E>(h: Host<World<R>, E>, w: World<R>, cs: seq<Fold>, c: Change)
    ensures WorldAt(h, w, cs, c, 0) == w
  {
  }

  lemma RunNothing(y: System)
    ensures Run(y, []) == y
  {
  }

  /** A candidate is attempted exactly when it is wanted and the registry has it active
      when its turn comes, whatever the turns before did. */
  lemma AttemptedExactly<R, E>(h: Host<World<R>, E>, w: World<R>, cs: seq<Fold>, c: Change, ops: seq<seq<Op>>,
                               n: nat, k: nat)
    requires Hosted(h, w, cs, c, ops, n) && k < n
    ensures AttemptedAt(h, w, cs, c, k) <==> Wanted(cs[k], c) && cs[k] in Run(w.registry, Done(ops, k)).view.active
  {
    hide Run, WorldAt, Wanted;
    RegistryAt(h, w, cs, c, ops, n, k);
    assert HostedAt(h, w, cs, c, ops, k);
  }

  // -------------------------------------------------------------- the whole dispatch

  /** The folds attempted, in order. */
  function Folds(cs: seq<Fold>, tried: seq<nat>): (r: seq<Fold>)
    requires forall i | 0 <= i < |tried| :: tried[i] < |cs|
    ensures |r| == |tried|
  {
    seq(|tried|, i requires 0 <= i < |tried| => cs[tried[i]])
  }

  /** The candidates that are wanted and active at their turn. */
  function Turned(y: System, cs: seq<Fold>, c: Change, ops: seq<seq<Op>>): set<Fold>
    requires |ops| == |cs|
  {
    set f | f in cs && Wanted(f, c) && f in AtTurn(y, cs, ops, f).active
  }

  /** The folds the change is for: active ones of its space that want it and whose
      pattern has the atom's tokens if it is ground. */
  function Audience(v: View, c: Change): set<Fold> {
    set f | f in Served(v, c.space, c.atom) && Wanted(f, c)
  }

  /** A dispatch of `c` that started from the registry after `history`, took the first
      `n` turns, and tried these. */
  ghost predicate Dispatched<R, E>(h: Host<World<R>, E>, w: World<R>, history: seq<Op>, c: Change,
                                   ops: seq<seq<Op>>, n: nat, tried: seq<nat>) {
    && w.registry == Run(START, history)
    && var cs := CandidatesOf(w.registry.view, c.space, c.atom);
    && Hosted(h, w, cs, c, ops, n) && Tried(h, w, cs, c, n, tried)
  }

  lemma TriedIsTurned<R, E>(h: Host<World<R>, E>, w: World<R>, cs: seq<Fold>, c: Change, ops: seq<seq<Op>>,
                            n: nat, tried: seq<nat>)
    requires Hosted(h, w, cs, c, ops, n) && n <= |cs| && Tried(h, w, cs, c, n, tried) && Distinct(cs)
    ensures Picks(cs, tried, n, Turned(w.registry, cs, c, ops))
  {
    assert |ops| == |cs|;
    hide Hosted, AttemptedAt, Wanted, Run;
    var s := Turned(w.registry, cs, c, ops);
    forall k | 0 <= k < n ensures k in tried <==> cs[k] in s {
      AttemptedExactly(h, w, cs, c, ops, n, k);
      IndexOfIs(cs, k);
      assert cs[k] in cs;
    }
    assert forall i | 0 <= i < |tried| :: tried[i] in tried;
  }

  /** Dispatch while the registry changes, from any history: the folds attempted are, each
      once and in registration order, exactly the candidates among the turns taken that
      are wanted and active at their own turn. */
  lemma DispatchExactly<R, E>(h: Host<World<R>, E>, w: World<R>, history: seq<Op>, c: Change, ops: seq<seq<Op>>,
                              n: nat, tried: seq<nat>)
    requires Dispatched(h, w, history, c, ops, n, tried)
    ensures var cs := CandidatesOf(w.registry.view, c.space, c.atom);
            && |ops| == |cs| && (forall i | 0 <= i < |tried| :: tried[i] < |cs|)
            && Folds(cs, tried) == Keep(cs[..n], Turned(w.registry, cs, c, ops))
            && (n == |cs| ==> Folds(cs, tried) == Keep(w.registry.view.folds, Turned(w.registry, cs, c, ops)))
            && Distinct(Folds(cs, tried))
  {
    var v := w.registry.view;
    var cs := CandidatesOf(v, c.space, c.atom);
    assert |ops| == |cs|;
    hide CandidatesOf, Run, Inv, Hosted, Tried, Wanted, Keep;
    EmptyIsFine();
    HistoryKeepsOrder(START, history);
    CandidatesInOrder(v, c.space, c.atom);
    TriedIsTurned(h, w, cs, c, ops, n, tried);
    var s := Turned(w.registry, cs, c, ops);
    PickedFolds(cs, tried, n, s);
    TakeDistinct(cs, n);
    KeepDistinct(cs[..n], s);
    if n == |cs| {
      assert cs[..n] == cs;
      KeepKeep(v.folds, Members(cs), s);
    }
  }

  lemma TakeIn(cs: seq<Fold>, n: nat)
    requires n <= |cs|
    ensures forall x | x in cs[..n] :: x in cs
  {
  }

  lemma TakeDistinct(cs: seq<Fold>, n: nat)
    requires Distinct(cs) && n <= |cs|
    ensures Distinct(cs[..n])
  {
  }

  /** A fold nobody had registered when dispatch began is not attempted. */
  lemma AddedIsNotAttempted<R, E>(h: Host<World<R>, E>, w: World<R>, history: seq<Op>, c: Change, ops: seq<seq<Op>>,
                                  n: nat, tried: seq<nat>, f: Fold)
    requires Dispatched(h, w, history, c, ops, n, tried) && f !in w.registry.view.folds
    ensures var cs := CandidatesOf(w.registry.view, c.space, c.atom);
            (forall i | 0 <= i < |tried| :: tried[i] < |cs|) && f !in Folds(cs, tried)
  {
    assert n <= |CandidatesOf(w.registry.view, c.space, c.atom)|;
    hide CandidatesOf, Run, Inv, Hosted, Tried, Turned;
    EmptyIsFine();
    HistoryKeepsOrder(START, history);
    CandidatesInOrder(w.registry.view, c.space, c.atom);
    DispatchExactly(h, w, history, c, ops, n, tried);
    var cs := CandidatesOf(w.registry.view, c.space, c.atom);
    TakeIn(cs, n);
  }

  /** A candidate withdrawn before its turn, by a cancel that took effect or by an
      abandonment, and not made active again, is skipped. */
  lemma WithdrawnIsSkipped<R, E>(h: Host<World<R>, E>, w: World<R>, history: seq<Op>, c: Change, ops: seq<seq<Op>>,
                                 n: nat, tried: seq<nat>, f: Fold, a: seq<Op>, op: Op, b: seq<Op>)
    requires Dispatched(h, w, history, c, ops, n, tried)
    requires var cs := CandidatesOf(w.registry.view, c.space, c.atom);
             f in cs && Done(ops, IndexOf(cs, f)) == a + ([op] + b)
    requires op == Abandon(f)
             || (op.Cancel? && op.f == f && f in Run(w.registry, a).view.folds
                 && Step(Run(w.registry, a), op).view != Run(w.registry, a).view)
    requires forall i | 0 <= i < |b| :: !Reactivates(b[i], f)
    ensures var cs := CandidatesOf(w.registry.view, c.space, c.atom);
            (forall i | 0 <= i < |tried| :: tried[i] < |cs|) && f !in Folds(cs, tried)
  {
    DispatchExactly(h, w, history, c, ops, n, tried);
    hide CandidatesOf, Inv, Hosted, Tried, Wanted, Keep, Step, Dispatched, IndexOf, Done, Run;
    var cs := CandidatesOf(w.registry.view, c.space, c.atom);
    RunOn(w.registry, a, [op] + b);
    var y := Run(w.registry, a);
    StepFlags(y, op, f);
    RunFirst(y, op, b);
    StaysInactive(Step(y, op), b, f);
    assert f !in Turned(w.registry, cs, c, ops);
    NotKept(cs[..n], Turned(w.registry, cs, c, ops), f);
  }

  lemma RunFirst(y: System, op: Op, b: seq<Op>)
    ensures Run(y, [op] + b) == Run(Step(y, op), b)
  {
    hide Step;
    assert ([op] + b)[1..] == b;
  }

  lemma NotKept(xs: seq<Fold>, s: set<Fold>, f: Fold)
    requires f !in s
    ensures f !in Keep(xs, s)
  {
  }

  /** A member of the audience that nobody withdraws before its turn is attempted, and
      once, if the dispatch gets that far. */
  lemma UnwithdrawnIsAttempted<R, E>(h: Host<World<R>, E>, w: World<R>, history: seq<Op>, c: Change,
                                     ops: seq<seq<Op>>, n: nat, tried: seq<nat>, f: Fold)
    requires Dispatched(h, w, history, c, ops, n, tried) && f in Audience(w.registry.view, c)
    ensures var cs := CandidatesOf(w.registry.view, c.space, c.atom);
            && f in cs && |ops| == |cs| && (forall i | 0 <= i < |tried| :: tried[i] < |cs|)
            && (IndexOf(cs, f) < n && NoneWithdraws(Done(ops, IndexOf(cs, f)), f) ==>
                  f in Folds(cs, tried) && Distinct(Folds(cs, tried)))
  {
    DispatchExactly(h, w, history, c, ops, n, tried);
    var v := w.registry.view;
    var cs := CandidatesOf(v, c.space, c.atom);
    AudienceIsCandidate(w.registry, history, c, f);
    hide CandidatesOf, Inv, Hosted, Tried, Wanted, Keep, Dispatched, IndexOf, Done, Run, Served;
    var k := IndexOf(cs, f);
    if k < n && NoneWithdraws(Done(ops, k), f) {
      StaysActive(w.registry, Done(ops, k), f);
      assert f in Turned(w.registry, cs, c, ops);
      assert cs[..n][k] == f;
      Kept(cs[..n], Turned(w.registry, cs, c, ops), f);
    }
  }

  predicate NoneWithdraws(ops: seq<Op>, f: Fold) {
    forall i | 0 <= i < |ops| :: !Withdraws(ops[i], f)
  }

  lemma AudienceIsCandidate(y: System, history: seq<Op>, c: Change, f: Fold)
    requires y == Run(START, history) && f in Audience(y.view, c)
    ensures f in CandidatesOf(y.view, c.space, c.atom) && f in y.view.active && Wanted(f, c)
  {
    hide CandidatesOf, Run, Inv, Wanted, Match, SameTokens;
    EmptyIsFine();
    HistoryKeepsOrder(START, history);
    ServedIsCandidate(y.view, c.space, c.atom, f);
  }

  lemma Kept(xs: seq<Fold>, s: set<Fold>, f: Fold)
    requires f in xs && f in s
    ensures f in Keep(xs, s)
  {
  }

  /** When every turn is taken and no candidate is withdrawn or made active by another
      turn, exactly the audience is attempted, each once, in registration order. */
  lemma DispatchReachesAudience<R, E>(h: Host<World<R>, E>, w: World<R>, history: seq<Op>, c: Change,
                                      ops: seq<seq<Op>>, tried: seq<nat>)
    requires var cs := CandidatesOf(w.registry.view, c.space, c.atom);
             && Dispatched(h, w, history, c, ops, |cs|, tried)
             && |ops| == |cs|
             && forall f | f in cs ::
                  NoneWithdraws(Done(ops, IndexOf(cs, f)), f) && NoneReactivates(Done(ops, IndexOf(cs, f)), f)
    ensures var cs := CandidatesOf(w.registry.view, c.space, c.atom);
            && (forall i | 0 <= i < |tried| :: tried[i] < |cs|)
            && Folds(cs, tried) == Keep(w.registry.view.folds, Audience(w.registry.view, c))
  {
    var v := w.registry.view;
    var cs := CandidatesOf(v, c.space, c.atom);
    DispatchExactly(h, w, history, c, ops, |cs|, tried);
    EmptyIsFine();
    HistoryKeepsOrder(START, history);
    hide Inv, Hosted, Tried, Wanted, Keep, Dispatched, IndexOf, Done, Run, CandidatesOf;
    var turned, audience := Turned(w.registry, cs, c, ops), Audience(v, c);
    forall f ensures f in turned <==> f in audience {
      if f in audience {
        AudienceIsCandidate(w.registry, history, c, f);
        StaysActive(w.registry, Done(ops, IndexOf(cs, f)), f);
      }
      if f in turned {
        if f !in v.active { StaysInactive(w.registry, Done(ops, IndexOf(cs, f)), f); }
        ActiveCandidateIsServed(v, c, f);
      }
    }
    assert turned == audience;
  }

  predicate NoneReactivates(ops: seq<Op>, f: Fold) {
    forall i | 0 <= i < |ops| :: !Reactivates(ops[i], f)
  }

  lemma ActiveCandidateIsServed(v: View, c: Change, f: Fold)
    requires Inv(v) && f in CandidatesOf(v, c.space, c.atom) && f in v.active && Wanted(f, c)
    ensures f in Audience(v, c)
  {
    hide Match, SameTokens;
    CandidatesInOrder(v, c.space, c.atom);
  }

  // ---------------------------------------------------------------- picking in order

  /** The positions before `n` of the folds in `s`, in order. */
  predicate Picks(cs: seq<Fold>, tried: seq<nat>, n: nat, s: set<Fold>) {
    && n <= |cs|
    && (forall i, j | 0 <= i < j < |tried| :: tried[i] < tried[j])
    && (forall i | 0 <= i < |tried| :: tried[i] < n && cs[tried[i]] in s)
    && (forall k | 0 <= k < n && cs[k] in s :: k in tried)
  }

  lemma {:induction false} PickedFolds(cs: seq<Fold>, tried: seq<nat>, n: nat, s: set<Fold>)
    requires Picks(cs, tried, n, s)
    ensures forall i | 0 <= i < |tried| :: tried[i] < |cs|
    ensures Folds(cs, tried) == Keep(cs[..n], s)
    decreases n
  {
    PicksInRange(cs, tried, n, s);
    hide Picks, Keep;
    if n == 0 {
      assert cs[..0] == [] && Folds(cs, tried) == [];
      KeepEmpty(s);
    } else {
      assert cs[..n] == cs[..n - 1] + [cs[n - 1]];
      KeepAppend(cs[..n - 1], [cs[n - 1]], s);
      KeepOne(cs[n - 1], s);
      PicksLess(cs, tried, n, s);
      if cs[n - 1] in s {
        var front := tried[..|tried| - 1];
        PickedFolds(cs, front, n - 1, s);
        assert Folds(cs, tried) == Folds(cs, front) + [cs[n - 1]];
      } else {
        PickedFolds(cs, tried, n - 1, s);
      }
    }
  }

  lemma PicksInRange(cs: seq<Fold>, tried: seq<nat>, n: nat, s: set<Fold>)
    requires Picks(cs, tried, n, s)
    ensures n <= |cs|
    ensures forall i | 0 <= i < |tried| :: tried[i] < |cs|
    ensures n == 0 ==> tried == []
  {
    HeadBelow(tried, n);
  }

  lemma PicksLess(cs: seq<Fold>, tried: seq<nat>, n: nat, s: set<Fold>)
    requires Picks(cs, tried, n, s) && n > 0
    ensures cs[n - 1] in s ==>
              tried != [] && tried[|tried| - 1] == n - 1 && Picks(cs, tried[..|tried| - 1], n - 1, s)
    ensures cs[n - 1] !in s ==> Picks(cs, tried, n - 1, s)
  {
    if cs[n - 1] in s {
      LastPicked(tried, n);
      var last := |tried| - 1;
      assert forall i | 0 <= i < last :: tried[..last][i] == tried[i] < tried[last];
      forall k | 0 <= k < n - 1 && cs[k] in s ensures k in tried[..last] {
        var j :| 0 <= j < |tried| && tried[j] == k;
        assert tried[..last][j] == k;
      }
    } else {
      forall i | 0 <= i < |tried| ensures tried[i] < n - 1 { assert cs[tried[i]] in s; }
    }
  }

  lemma LastPicked(tried: seq<nat>, n: nat)
    requires n > 0 && n - 1 in tried
    requires forall i, j | 0 <= i < j < |tried| :: tried[i] < tried[j]
    requires forall i | 0 <= i < |tried| :: tried[i] < n
    ensures tried[|tried| - 1] == n - 1
  {
    var i :| 0 <= i < |tried| && tried[i] == n - 1;
    LastIsGreatest(tried, i);
  }

  lemma LastIsGreatest(tried: seq<nat>, i: nat)
    requires i < |tried| && forall i, j | 0 <= i < j < |tried| :: tried[i] < tried[j]
    ensures tried[i] <= tried[|tried| - 1]
  {
  }

  lemma HeadBelow(tried: seq<nat>, n: nat)
    requires forall i | 0 <= i < |tried| :: tried[i] < n
    ensures tried != [] ==> tried[0] < n
  {
  }

  lemma KeepEmpty(s: set<Fold>)
    ensures Keep([], s) == []
  {
  }

  lemma KeepOne(f: Fold, s: set<Fold>)
    ensures Keep([f], s) == if f in s then [f] else []
  {
  }
}
