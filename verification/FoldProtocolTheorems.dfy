/** What the delivery protocol promises over whole runs. */
module FoldProtocolTheorems {
  import opened DeliveryTables
  import opened FoldProtocol
  import opened FoldProtocolInvariant

  // -------------------------------------------------------------------- runs

  lemma {:induction false} RunsSplit(s: State, a: seq<Action>, b: seq<Action>)
    requires Runs(s, a + b)
    ensures Runs(s, a) && Runs(Final(s, a), b)
    ensures Final(s, a + b) == Final(Final(s, a), b)
    decreases |a|
  {
    hide Enabled, EditOf, FoldsAfter, StacksAfter, DeliveriesAfter, WaitersAfter, HeapAfter;
    if a == [] {
      assert a + b == b;
    } else {
      assert (a + b)[0] == a[0] && (a + b)[1..] == a[1..] + b;
      RunsSplit(Apply(s, a[0]), a[1..], b);
    }
  }

  // ---------------------------------------------------------- no lost wake-up

  /** In every reachable state, a thread asleep on a fold that has moved past
      its last read is owed a notification: some other thread's innermost frame is
      a delivery of that fold past its version bump and before its notify, and the
      waiter count it reads outside the lock is not zero. */
  lemma NoLostWakeup(s0: State, actions: seq<Action>, t: Thread)
    requires Initial(s0) && Runs(s0, actions)
    ensures var s := Final(s0, actions);
            t in s.stacks && IsAsleep(s.stacks[t]) ==>
              var f := s.stacks[t][0].fold;
              && f in s.folds
              && (s.folds[f].version != s.folds[f].consumed ==>
                    s.waiters > 0 &&
                    exists u :: u in s.stacks && u != t && OwesFor(s.stacks[u], f))
  {
    InitialInv(s0);
    RunInv(s0, actions);
    var s := Final(s0, actions);
    if t in s.stacks && IsAsleep(s.stacks[t]) {
      assert Covered(s, t) && StackKnown(s.folds.Keys, s.heap.Keys, s.stacks[t]);
      assert t in WaitingThreads(s);
      var f := s.stacks[t][0].fold;
      if s.folds[f].version != s.folds[f].consumed {
        var u :| u in s.stacks && OwesFor(s.stacks[u], f);
        assert u != t;
      }
    }
  }

  /** Paying the debt wakes every sleeper, whatever fold it sleeps on. */
  lemma NotifyWakesAll(s0: State, actions: seq<Action>, u: Thread, t: Thread)
    requires Initial(s0) && Runs(s0, actions + [Notify(u)])
    requires t in s0.stacks
    ensures var s := Final(s0, actions + [Notify(u)]); t in s.stacks && !IsAsleep(s.stacks[t])
  {
    hide Enabled, EditOf, FoldsAfter, StacksAfter, DeliveriesAfter, WaitersAfter, HeapAfter;
    InitialInv(s0);
    RunsSplit(s0, actions, [Notify(u)]);
    RunInv(s0, actions);
    ThreadsKept(s0, actions);
    var s := Final(s0, actions);
    assert Runs(Apply(s, Notify(u)), []) && Final(s, [Notify(u)]) == Apply(s, Notify(u));
    NotifiedNobodyWatches(s, Notify(u), t);
    OtherStacks(s, Notify(u));
  }

  lemma {:induction false} ThreadsKept(s: State, actions: seq<Action>)
    requires Runs(s, actions)
    ensures Final(s, actions).stacks.Keys == s.stacks.Keys
    decreases |actions|
  {
    hide Enabled, EditOf, FoldsAfter, StacksAfter, DeliveriesAfter, WaitersAfter, HeapAfter;
    if actions != [] {
      OtherStacks(s, actions[0]);
      ThreadsKept(Apply(s, actions[0]), actions[1..]);
    }
  }

  /** The thread has read the fold as active and not yet left the loop. */
  predicate TrustsActive(st: seq<Frame>) {
    st != [] && st[0].Wait? &&
    (st[0].wpc.SeenActive? || st[0].wpc.SeenVersion? || st[0].wpc.Asleep?)
  }

  /** Some thread has read the fold as active and not yet left the loop. */
  ghost predicate Trusted(s: State, f: FoldId) {
    exists t :: t in s.stacks && TrustsOf(s.stacks[t], f)
  }

  predicate TrustsOf(st: seq<Frame>, f: FoldId) {
    TrustsActive(st) && st[0].fold == f
  }

  /** Nobody sleeps on the fold, or is about to, while it is cancelled. */
  ghost predicate NobodyStranded(s: State, f: FoldId) {
    Trusted(s, f) ==> f in s.folds && s.folds[f].active
  }

  /** An abandonment clears the flag under the eyes of a blocked read. */
  ghost predicate Strands(s: State, a: Action, f: FoldId) {
    a.Abandon? && a.f == f && Trusted(s, f)
  }

  /** Only three steps bring a thread to trust the active flag it read. */
  lemma ActorTrustSteps(s: State, a: Action)
    requires Known(s) && Enabled(s, a) && !a.Abandon?
    requires a.t in Apply(s, a).stacks && TrustsActive(Apply(s, a).stacks[a.t])
    ensures a.ReadActive? || a.ReadVersion? || a.Compare?
    ensures a.t in s.stacks && s.stacks[a.t] != [] && s.stacks[a.t][0].fold == Apply(s, a).stacks[a.t][0].fold
    ensures !a.ReadActive? ==> TrustsActive(s.stacks[a.t])
  {
    hide Enabled, EditOf, FoldsAfter, StacksAfter, DeliveriesAfter, WaitersAfter, HeapAfter, Known;
    BelowCalls(s, a.t);
    if WaitAction(a) { WaitTops(s, a); } else { NotWaiting(s, a); }
  }

  lemma ReadActiveTrusts(s: State, a: Action)
    requires Enabled(s, a) && a.ReadActive?
    requires a.t in Apply(s, a).stacks && TrustsActive(Apply(s, a).stacks[a.t])
    ensures AtWait(s, a.t) && TopFold(s, a.t).active && Apply(s, a).folds == s.folds
  {
    hide StacksAfter, DeliveriesAfter, WaitersAfter, HeapAfter;
    ActorStack(s, a);
  }

  /** A read keeps every flag. */
  lemma WaitKeepsFolds(s: State, a: Action)
    requires Enabled(s, a) && (a.ReadVersion? || a.Compare?)
    ensures Apply(s, a).folds == s.folds
  {
    hide EditOf, StacksAfter, DeliveriesAfter, WaitersAfter, HeapAfter;
  }

  lemma ActorTrusts(s: State, a: Action, f: FoldId)
    requires Known(s) && NobodyStranded(s, f) && Enabled(s, a) && !a.Abandon?
    requires a.t in Apply(s, a).stacks && TrustsOf(Apply(s, a).stacks[a.t], f)
    ensures f in Apply(s, a).folds && Apply(s, a).folds[f].active
  {
    ActorTrustSteps(s, a);
    if a.ReadActive? { ReadActiveTrusts(s, a); } else { WaitKeepsFolds(s, a); }
    hide Enabled, EditOf, FoldsAfter, StacksAfter, DeliveriesAfter, WaitersAfter, HeapAfter, Known;
    if !a.ReadActive? { assert TrustsOf(s.stacks[a.t], f); }
  }

  /** Nothing but a withdrawal and an abandonment takes the flag down. */
  lemma FlagStays(s: State, a: Action, f: FoldId)
    requires Enabled(s, a) && f in s.folds && s.folds[f].active
    requires !(a.Abandon? && a.f == f) && !(a.Withdraw? && a.f == f && s.folds[f].registered)
    ensures f in Apply(s, a).folds && Apply(s, a).folds[f].active
  {
    hide EditOf, StacksAfter, DeliveriesAfter, WaitersAfter, HeapAfter, RegistryFree, StateFree, Conflicts;
  }

  lemma OtherTrusts(s: State, a: Action, t: Thread, f: FoldId)
    requires Known(s) && NobodyStranded(s, f) && Enabled(s, a) && !a.Abandon? && a.t != t
    requires t in s.stacks && TrustsOf(Apply(s, a).stacks[t], f)
    ensures f in Apply(s, a).folds && Apply(s, a).folds[f].active
  {
    hide EditOf, FoldsAfter, StacksAfter, DeliveriesAfter, WaitersAfter, HeapAfter;
    OtherStacks(s, a);
    assert TrustsOf(s.stacks[t], f);
    if a.Withdraw? && a.f == f && s.folds[f].registered { NotifiedNobodyWatches(s, a, t); }
    FlagStays(s, a, f);
  }

  /** A step leaves a read stranded exactly when it abandons the fold under it. */
  lemma StepStrandsExactly(s: State, a: Action, f: FoldId)
    requires Known(s) && NobodyStranded(s, f) && Enabled(s, a)
    ensures NobodyStranded(Apply(s, a), f) <==> !Strands(s, a, f)
  {
    hide EditOf, FoldsAfter, StacksAfter, DeliveriesAfter, WaitersAfter, HeapAfter, Known, TrustsOf;
    var s' := Apply(s, a);
    OtherStacks(s, a);
    if a.Abandon? {
      AbandonKeeps(s, a, f);
    } else if Trusted(s', f) {
      var t :| t in s'.stacks && TrustsOf(s'.stacks[t], f);
      if a.t == t { ActorTrusts(s, a, f); } else { OtherTrusts(s, a, t, f); }
    }
  }

  lemma AbandonKeeps(s: State, a: Action, f: FoldId)
    requires Enabled(s, a) && a.Abandon?
    ensures Apply(s, a).stacks == s.stacks
    ensures a.f == f ==> f in Apply(s, a).folds && !Apply(s, a).folds[f].active
    ensures a.f != f && f in s.folds ==> f in Apply(s, a).folds && Apply(s, a).folds[f] == s.folds[f]
  {
    hide DeliveriesAfter, WaitersAfter, HeapAfter;
    assert s.stacks[a.t := s.stacks[a.t]] == s.stacks;
  }

  /** The run abandons the fold under no blocked read. */
  ghost predicate StrandFree(s: State, actions: seq<Action>, f: FoldId)
    requires Runs(s, actions)
    decreases |actions|
  {
    actions == [] || (!Strands(s, actions[0], f) && StrandFree(Apply(s, actions[0]), actions[1..], f))
  }

  /** At no moment of the run does anybody sleep on the cancelled fold. */
  ghost predicate NeverStranded(s: State, actions: seq<Action>, f: FoldId)
    requires Runs(s, actions)
    decreases |actions|
  {
    NobodyStranded(s, f) && (actions != [] ==> NeverStranded(Apply(s, actions[0]), actions[1..], f))
  }

  lemma {:induction false} StrandedExactly(s: State, actions: seq<Action>, f: FoldId)
    requires Inv(s) && NobodyStranded(s, f) && Runs(s, actions)
    ensures NeverStranded(s, actions, f) <==> StrandFree(s, actions, f)
    decreases |actions|
  {
    hide Enabled, EditOf, FoldsAfter, StacksAfter, DeliveriesAfter, WaitersAfter, HeapAfter, NobodyStranded, Strands;
    if actions != [] {
      StepInv(s, actions[0]);
      StepStrandsExactly(s, actions[0], f);
      if !Strands(s, actions[0], f) {
        StrandedExactly(Apply(s, actions[0]), actions[1..], f);
      } else {
        NotNever(Apply(s, actions[0]), actions[1..], f);
      }
    }
  }

  lemma NotNever(s: State, actions: seq<Action>, f: FoldId)
    requires Runs(s, actions) && !NobodyStranded(s, f)
    ensures !NeverStranded(s, actions, f)
  {
    hide Enabled, EditOf, FoldsAfter, StacksAfter, DeliveriesAfter, WaitersAfter, HeapAfter, NobodyStranded;
  }

  /** A cancel that takes effect leaves nobody in a blocked read of any fold. */
  lemma CancelWakes(s: State, t: Thread, f: FoldId)
    requires Known(s) && Enabled(s, Withdraw(t, f)) && s.folds[f].registered
    ensures NobodyStranded(Apply(s, Withdraw(t, f)), f)
  {
    hide EditOf, FoldsAfter, StacksAfter, DeliveriesAfter, WaitersAfter, HeapAfter;
    var a := Withdraw(t, f);
    var s' := Apply(s, a);
    OtherStacks(s, a);
    forall u | u in s'.stacks ensures !TrustsOf(s'.stacks[u], f) {
      NotifiedNobodyWatches(s, a, u);
      if u == t { if TrustsActive(s'.stacks[t]) { ActorTrustSteps(s, a); } }
    }
  }

  /** Cancel ends blocked reads: whatever was abandoned before it, from a cancel that
      takes effect on nobody sleeps on the cancelled fold, exactly as long as the fold is
      not abandoned again under a blocked read. */
  lemma CancelEndsWaits(s0: State, before: seq<Action>, t: Thread, f: FoldId, after: seq<Action>)
    requires Initial(s0) && Runs(s0, before) && Enabled(Final(s0, before), Withdraw(t, f))
    requires Final(s0, before).folds[f].registered
    requires Runs(Apply(Final(s0, before), Withdraw(t, f)), after)
    ensures var s := Apply(Final(s0, before), Withdraw(t, f));
            NeverStranded(s, after, f) <==> StrandFree(s, after, f)
  {
    hide EditOf, FoldsAfter, StacksAfter, DeliveriesAfter, WaitersAfter, HeapAfter;
    hide NeverStranded, StrandFree;
    InitialInv(s0);
    RunInv(s0, before);
    var s := Final(s0, before);
    StepInv(s, Withdraw(t, f));
    CancelWakes(s, t, f);
    StrandedExactly(Apply(s, Withdraw(t, f)), after, f);
  }

  // ------------------------------------------------- accounting and barrier

  /** The release at the end of a delivery always finds its own claim. */
  lemma AccountingBalanced(s0: State, actions: seq<Action>, t: Thread)
    requires Initial(s0) && Runs(s0, actions) && Enabled(Final(s0, actions), End(t))
    ensures var s := Final(s0, actions); CountOf(s.deliveries, Top(s, t).fold, t) > 0
  {
    InitialInv(s0);
    RunInv(s0, actions);
    var s := Final(s0, actions);
    var f := Top(s, t).fold;
    assert CountOf(s.deliveries, f, t) == OpenIn(s, f, t);
  }

  predicate Reactivates(a: Action, f: FoldId) {
    a.Restore? && a.f == f && a.active
  }

  predicate Inactive(s: State, f: FoldId) {
    f in s.folds && !s.folds[f].active
  }

  lemma InactiveStep(s: State, a: Action, f: FoldId)
    requires Inactive(s, f) && Enabled(s, a) && !Reactivates(a, f)
    ensures Inactive(Apply(s, a), f)
    ensures Apply(s, a).stacks.Keys == s.stacks.Keys
    ensures forall u | u in s.stacks ::
              OpenDeliveries(Apply(s, a).stacks[u], f) <= OpenDeliveries(s.stacks[u], f)
  {
    hide Enabled, EditOf, StacksAfter, DeliveriesAfter, WaitersAfter, HeapAfter;
    OtherStacks(s, a);
    forall u | u in s.stacks
      ensures OpenDeliveries(Apply(s, a).stacks[u], f) <= OpenDeliveries(s.stacks[u], f)
    {
      if By(a, u) { ActorOpen(s, a, f); } else { OpenWake(s.stacks[u], f); }
    }
  }

  /** While nothing reactivates an inactive fold, no thread enters it. */
  lemma {:induction false} InactiveRun(s: State, actions: seq<Action>, f: FoldId)
    requires Inactive(s, f) && Runs(s, actions)
    requires forall a | a in actions :: !Reactivates(a, f)
    ensures Inactive(Final(s, actions), f)
    ensures Final(s, actions).stacks.Keys == s.stacks.Keys
    ensures forall u | u in s.stacks ::
              OpenDeliveries(Final(s, actions).stacks[u], f) <= OpenDeliveries(s.stacks[u], f)
    decreases |actions|
  {
    hide Enabled, EditOf, FoldsAfter, StacksAfter, DeliveriesAfter, WaitersAfter, HeapAfter;
    if actions != [] {
      InactiveStep(s, actions[0], f);
      InactiveRun(Apply(s, actions[0]), actions[1..], f);
    }
  }

  predicate Cancelling(s: State, t: Thread, f: FoldId) {
    t in s.stacks && s.stacks[t] != [] && s.stacks[t][0] == Cancel(f)
  }

  lemma {:induction false} StillCancelling(s: State, actions: seq<Action>, t: Thread, f: FoldId)
    requires Cancelling(s, t, f) && Runs(s, actions)
    requires forall a | a in actions :: !By(a, t)
    ensures Cancelling(Final(s, actions), t, f)
    decreases |actions|
  {
    hide Enabled, EditOf, FoldsAfter, StacksAfter, DeliveriesAfter, WaitersAfter, HeapAfter;
    if actions != [] {
      OtherStacks(s, actions[0]);
      StillCancelling(Apply(s, actions[0]), actions[1..], t, f);
    }
  }

  lemma Withdrawn(s: State, t: Thread, f: FoldId)
    requires Enabled(s, Withdraw(t, f))
    ensures Cancelling(Apply(s, Withdraw(t, f)), t, f) && Inactive(Apply(s, Withdraw(t, f)), f)
  {
    hide StacksAfter, DeliveriesAfter, WaitersAfter, HeapAfter;
    ActorStack(s, Withdraw(t, f));
  }

  /** The cancellation barrier. A run withdraws `f` on thread `t`, goes on while `t`
      waits, returns from the cancel, and goes on arbitrarily, with stale dispatch
      snapshots and all; nothing reactivates the fold after the withdrawal. Then no
      other thread is inside a delivery of `f`, and `t` itself has entered none
      since the cancel returned. */
  lemma CancellationBarrier(s0: State, before: seq<Action>, t: Thread, f: FoldId,
                            waiting: seq<Action>, after: seq<Action>)
    requires Initial(s0)
    requires Runs(s0, before + ([Withdraw(t, f)] + (waiting + ([Return(t)] + after))))
    requires forall a | a in waiting :: !By(a, t)
    requires forall a | a in waiting + after :: !Reactivates(a, f)
    ensures var run := before + ([Withdraw(t, f)] + (waiting + ([Return(t)] + after)));
            var returned := before + ([Withdraw(t, f)] + (waiting + [Return(t)]));
            && Runs(s0, returned)
            && Inactive(Final(s0, run), f)
            && t in Final(s0, run).stacks && t in Final(s0, returned).stacks
            && (forall u | u in Final(s0, run).stacks && u != t ::
                  OpenDeliveries(Final(s0, run).stacks[u], f) == 0)
            && OpenDeliveries(Final(s0, run).stacks[t], f)
               <= OpenDeliveries(Final(s0, returned).stacks[t], f)
  {
    hide Enabled, EditOf, FoldsAfter, StacksAfter, DeliveriesAfter, WaitersAfter, HeapAfter;
    InitialInv(s0);
    RunsSplit(s0, before, [Withdraw(t, f)] + (waiting + ([Return(t)] + after)));
    RunInv(s0, before);
    var s1 := Final(s0, before);
    var s2 := Apply(s1, Withdraw(t, f));
    StepInv(s1, Withdraw(t, f));
    assert ([Withdraw(t, f)] + (waiting + ([Return(t)] + after)))[1..] == waiting + ([Return(t)] + after);
    Withdrawn(s1, t, f);
    RunsSplit(s2, waiting, [Return(t)] + after);
    RunInv(s2, waiting);
    StillCancelling(s2, waiting, t, f);
    forall a | a in waiting ensures !Reactivates(a, f) { assert a in waiting + after; }
    InactiveRun(s2, waiting, f);
    var s3 := Final(s2, waiting);
    var s4 := Apply(s3, Return(t));
    assert ([Return(t)] + after)[1..] == after;
    Returned(s3, t, f);
    forall a | a in after ensures !Reactivates(a, f) { assert a in waiting + after; }
    InactiveRun(s4, after, f);
    RunsJoin(s2, waiting, [Return(t)]);
    assert ([Withdraw(t, f)] + (waiting + [Return(t)]))[1..] == waiting + [Return(t)];
    RunsJoin(s0, before, [Withdraw(t, f)] + (waiting + [Return(t)]));
    assert Final(s3, [Return(t)]) == s4;
  }

  lemma {:induction false} RunsJoin(s: State, a: seq<Action>, b: seq<Action>)
    requires Runs(s, a) && Runs(Final(s, a), b)
    ensures Runs(s, a + b) && Final(s, a + b) == Final(Final(s, a), b)
    decreases |a|
  {
    hide Enabled, EditOf, FoldsAfter, StacksAfter, DeliveriesAfter, WaitersAfter, HeapAfter;
    if a == [] {
      assert a + b == b;
    } else {
      assert (a + b)[0] == a[0] && (a + b)[1..] == a[1..] + b;
      RunsJoin(Apply(s, a[0]), a[1..], b);
    }
  }

  /** At its return, a cancel sees no other thread's claim and adds none. */
  lemma Returned(s: State, t: Thread, f: FoldId)
    requires Inv(s) && Cancelling(s, t, f) && Enabled(s, Return(t)) && Inactive(s, f)
    ensures Inactive(Apply(s, Return(t)), f)
    ensures Apply(s, Return(t)).stacks.Keys == s.stacks.Keys
    ensures forall u | u in s.stacks && u != t :: OpenDeliveries(Apply(s, Return(t)).stacks[u], f) == 0
  {
    forall u | u in s.stacks && u != t
      ensures OpenDeliveries(s.stacks[u], f) == 0
    {
      assert CountOf(s.deliveries, f, u) == OpenIn(s, f, u);
    }
  }

  // ------------------------------------------------------- no update is lost

  /** While a thread is inside its own locked step, nobody else moves the fold. */
  lemma OwnerAlone(s: State, a: Action, t: Thread, f: FoldId)
    requires Inv(s) && Enabled(s, a) && !By(a, t) && f in s.folds
    requires t in s.stacks && Holds(s.stacks[t], f)
    ensures f in Apply(s, a).folds
    ensures Apply(s, a).folds[f].state == s.folds[f].state
    ensures Apply(s, a).folds[f].version == s.folds[f].version
    ensures Apply(s, a).folds[f].consumed == s.folds[f].consumed
    ensures t in Apply(s, a).stacks && Holds(Apply(s, a).stacks[t], f)
  {
    hide EditOf, StacksAfter, DeliveriesAfter, WaitersAfter, HeapAfter;
    OtherStacks(s, a);
    HoldsWake(s.stacks[t], f);
    if a.Commit? {
      var g := Top(s, a.t).fold;
      assert Holding(s.stacks[a.t][0], g);
      assert Holds(s.stacks[a.t], g);
      assert !Holds(s.stacks[t], g);
    }
  }

  lemma {:induction false} OwnerAloneRun(s: State, actions: seq<Action>, t: Thread, f: FoldId)
    requires Inv(s) && Runs(s, actions) && f in s.folds
    requires t in s.stacks && s.stacks[t] != [] && Holding(s.stacks[t][0], f)
    requires forall a | a in actions :: !By(a, t)
    ensures t in Final(s, actions).stacks && Final(s, actions).stacks[t] == s.stacks[t]
    ensures f in Final(s, actions).folds && Final(s, actions).folds[f].state == s.folds[f].state
    decreases |actions|
  {
    hide Enabled, EditOf, FoldsAfter, StacksAfter, DeliveriesAfter, WaitersAfter, HeapAfter;
    if actions != [] {
      OtherStacks(s, actions[0]);
      OwnerAlone(s, actions[0], t, f);
      StepInv(s, actions[0]);
      OwnerAloneRun(Apply(s, actions[0]), actions[1..], t, f);
    }
  }

  lemma Admitted(s: State, t: Thread)
    requires Inv(s) && Enabled(s, Admit(t))
    ensures AtRun(s, t) && t in Apply(s, Admit(t)).stacks
    ensures var f := Top(s, t).fold;
            && f in Apply(s, Admit(t)).folds
            && AtRun(Apply(s, Admit(t)), t)
            && Top(Apply(s, Admit(t)), t) == Run(f, Top(s, t).event, Stepping(Apply(s, Admit(t)).folds[f].state))
  {
    hide StacksAfter, DeliveriesAfter, WaitersAfter, HeapAfter;
    ActorStack(s, Admit(t));
  }

  /** A step that calls nothing back commits whatever it answers, however many other
      threads deliver, take or cancel meanwhile. */
  lemma QuietStepCommits(s0: State, before: seq<Action>, t: Thread, during: seq<Action>,
                         after: Ref, holds: seq<Change>)
    requires Initial(s0) && Runs(s0, before + ([Admit(t)] + during))
    requires forall a | a in during :: !By(a, t)
    requires var s := Final(s0, before + ([Admit(t)] + during));
             after in s.heap ==> s.heap[after] == holds
    ensures Enabled(Final(s0, before + ([Admit(t)] + during)), Commit(t, after, holds))
  {
    hide EditOf, FoldsAfter, StacksAfter, DeliveriesAfter, WaitersAfter, HeapAfter;
    InitialInv(s0);
    RunsSplit(s0, before, [Admit(t)] + during);
    RunInv(s0, before);
    var s1 := Final(s0, before);
    assert ([Admit(t)] + during)[0] == Admit(t) && ([Admit(t)] + during)[1..] == during;
    StepInv(s1, Admit(t));
    Admitted(s1, t);
    OwnerAloneRun(Apply(s1, Admit(t)), during, t, Top(s1, t).fold);
  }

  /** The step of `f` answers a new object: the one it was given plus the change. */
  predicate Appends(s: State, a: Action, f: FoldId)
    requires Enabled(s, a)
  {
    a.Commit? && Top(s, a.t).fold == f ==>
      && a.after !in s.heap
      && Top(s, a.t).rpc.before in s.heap
      && a.holds == s.heap[Top(s, a.t).rpc.before] + [Top(s, a.t).event]
  }

  predicate AppendingRun(s: State, actions: seq<Action>, f: FoldId)
    requires Runs(s, actions)
    decreases |actions|
  {
    actions == [] ||
    (Appends(s, actions[0], f) && AppendingRun(Apply(s, actions[0]), actions[1..], f))
  }

  predicate Conserved(s: State, f: FoldId) {
    && f in s.folds
    && s.folds[f].initial in s.heap && s.heap[s.folds[f].initial] == []
    && s.folds[f].state in s.heap
    && s.folds[f].taken + s.heap[s.folds[f].state] == s.folds[f].committed
  }

  lemma StepConserved(s: State, a: Action, f: FoldId)
    requires Known(s) && Conserved(s, f) && Enabled(s, a) && Appends(s, a, f)
    ensures Conserved(Apply(s, a), f)
  {
    hide EditOf, StacksAfter, DeliveriesAfter, WaitersAfter;
    if a.Commit? && Top(s, a.t).fold == f {
      var fs := s.folds[f];
      assert fs.state == Top(s, a.t).rpc.before;
      assert fs.taken + (s.heap[fs.state] + [Top(s, a.t).event])
          == (fs.taken + s.heap[fs.state]) + [Top(s, a.t).event];
    }
  }

  lemma {:induction false} ConservedRun(s: State, actions: seq<Action>, f: FoldId)
    requires Inv(s) && Conserved(s, f) && Runs(s, actions) && AppendingRun(s, actions, f)
    ensures Conserved(Final(s, actions), f)
    decreases |actions|
  {
    hide Enabled, EditOf, FoldsAfter, StacksAfter, DeliveriesAfter, WaitersAfter, HeapAfter;
    if actions != [] {
      StepConserved(s, actions[0], f);
      StepInv(s, actions[0]);
      ConservedRun(Apply(s, actions[0]), actions[1..], f);
    }
  }

  /** Conservation. For a fold whose step appends, over every run of concurrent,
      re-entrant and nested deliveries and reads: what the reads took, followed by
      what the fold holds now, is every committed change in commit order. */
  lemma NoUpdateLost(s0: State, actions: seq<Action>, f: FoldId)
    requires Initial(s0) && f in s0.folds && Runs(s0, actions) && AppendingRun(s0, actions, f)
    ensures var s := Final(s0, actions);
            && f in s.folds && s.folds[f].state in s.heap
            && s.folds[f].taken + s.heap[s.folds[f].state] == s.folds[f].committed
  {
    InitialInv(s0);
    ConservedRun(s0, actions, f);
  }

  // ------------------------------------------- folds that do not feed themselves

  /** The user code of `f` calls neither a delivery of `f` nor a read of it. */
  predicate CallsBack(s: State, a: Action, f: FoldId) {
    (a.Dispatch? || a.Take? || a.StartWait?) && a.f == f &&
    a.t in s.stacks && Holds(s.stacks[a.t], f)
  }

  predicate QuietRun(s: State, actions: seq<Action>, f: FoldId)
    requires Runs(s, actions)
    decreases |actions|
  {
    actions == [] ||
    (!CallsBack(s, actions[0], f) && QuietRun(Apply(s, actions[0]), actions[1..], f))
  }

  /** No delivery or read of `f` is open above a locked delivery of `f`. */
  predicate NotNested(st: seq<Frame>, f: FoldId) {
    forall i, j | 0 <= i < j < |st| && st[i].fold == f && !st[i].Cancel? :: !Holding(st[j], f)
  }

  predicate StepsOn(st: seq<Frame>, f: FoldId, state: Ref) {
    forall i | 0 <= i < |st| && st[i].Run? && st[i].fold == f && st[i].rpc.Stepping? ::
      st[i].rpc.before == state
  }

  /** Every running step of `f` was given the object `f` still holds. */
  predicate InPlace(s: State, f: FoldId) {
    && f in s.folds
    && (forall t | t in s.stacks :: NotNested(s.stacks[t], f) && StepsOn(s.stacks[t], f, s.folds[f].state))
  }

  lemma NotNestedEdit(st: seq<Frame>, e: Edit, f: FoldId)
    requires NotNested(st, f)
    requires e.Popped? || e.Moved? ==> st != []
    requires e.Moved? ==> e.fr.fold == st[0].fold && !e.fr.Cancel? && !st[0].Cancel?
    requires e.Pushed? && e.fr.fold == f && !e.fr.Cancel? ==> !Holds(st, f)
    ensures NotNested(Edited(st, e), f)
  {
    var st' := Edited(st, e);
    forall i, j | 0 <= i < j < |st'| && st'[i].fold == f && !st'[i].Cancel?
      ensures !Holding(st'[j], f)
    {
      if e.Pushed? {
        assert st'[j] == st[j - 1];
        if i > 0 { assert st'[i] == st[i - 1]; }
      } else if e.Popped? {
        assert st'[j] == st[j + 1] && st'[i] == st[i + 1];
      } else {
        assert st'[j] == st[j];
      }
    }
  }

  lemma ActorNotNested(s: State, a: Action, f: FoldId)
    requires Inv(s) && Enabled(s, a) && !a.Abandon? && !CallsBack(s, a, f)
    requires a.t in s.stacks && NotNested(s.stacks[a.t], f)
    ensures NotNested(Apply(s, a).stacks[a.t], f)
  {
    hide FoldsAfter, StacksAfter, DeliveriesAfter, WaitersAfter, HeapAfter;
    ActorStack(s, a);
    NotNestedEdit(s.stacks[a.t], EditOf(s, a), f);
  }

  lemma StateMovers(s: State, a: Action, f: FoldId)
    requires Enabled(s, a) && f in s.folds && f in Apply(s, a).folds
    requires Apply(s, a).folds[f].state != s.folds[f].state
    ensures (a.Commit? && Top(s, a.t).fold == f) || (a.Take? && a.f == f) ||
            (a.Collect? && Top(s, a.t).fold == f)
  {
    hide EditOf, StacksAfter, DeliveriesAfter, WaitersAfter, HeapAfter;
  }

  /** A fold's state moves only when its one locked step commits, or when unlocked. */
  lemma StateStep(s: State, a: Action, f: FoldId)
    requires Inv(s) && InPlace(s, f) && Enabled(s, a) && !CallsBack(s, a, f)
    requires f in Apply(s, a).folds && Apply(s, a).folds[f].state != s.folds[f].state
    ensures a.Commit? || a.Take? || a.Collect?
    ensures a.t in s.stacks && (a.Commit? ==> Top(s, a.t).fold == f)
    ensures forall u | u in s.stacks && u != a.t :: !Holds(s.stacks[u], f)
    ensures a.Commit? || !Holds(s.stacks[a.t], f)
  {
    hide EditOf, FoldsAfter, StacksAfter, DeliveriesAfter, WaitersAfter, HeapAfter;
    StateMovers(s, a, f);
    var st := s.stacks[a.t];
    if a.Commit? {
      assert Holding(st[0], f);
      assert Holds(st, f);
    } else if a.Collect? {
      assert NotNested(st, f) && st[0].fold == f;
      assert forall j | 0 < j < |st| :: !Holding(st[j], f);
    }
  }

  lemma UnheldSteps(st: seq<Frame>, f: FoldId, state: Ref)
    requires !Holds(st, f)
    ensures StepsOn(st, f, state)
  {
    assert forall i | 0 <= i < |st| :: !Holding(st[i], f);
  }

  lemma StepsOnEdit(st: seq<Frame>, e: Edit, f: FoldId, state: Ref)
    requires StepsOn(st, f, state)
    requires e.Popped? || e.Moved? ==> st != []
    requires (e.Pushed? || e.Moved?) && e.fr.Run? && e.fr.fold == f && e.fr.rpc.Stepping? ==> e.fr.rpc.before == state
    ensures StepsOn(Edited(st, e), f, state)
  {
    var st' := Edited(st, e);
    forall i | 0 <= i < |st'| && st'[i].Run? && st'[i].fold == f && st'[i].rpc.Stepping?
      ensures st'[i].rpc.before == state
    {
      if e.Pushed? && i > 0 { assert st'[i] == st[i - 1]; }
      if e.Popped? { assert st'[i] == st[i + 1]; }
      if e.Moved? && i > 0 { assert st'[i] == st[i]; }
    }
  }

  lemma CommitUnlocks(s: State, a: Action, f: FoldId)
    requires Inv(s) && InPlace(s, f) && Enabled(s, a) && a.Commit? && Top(s, a.t).fold == f
    ensures a.t in s.stacks && a.t in Apply(s, a).stacks && !Holds(Apply(s, a).stacks[a.t], f)
  {
    hide StacksAfter, FoldsAfter, DeliveriesAfter, WaitersAfter, HeapAfter;
    ActorStack(s, a);
    var st := s.stacks[a.t];
    assert NotNested(st, f) && st[0].fold == f;
    assert forall j | 0 < j < |st| :: !Holding(st[j], f);
    HoldsPush(EditOf(s, a).fr, st[1..], f);
  }

  /** An action that leaves a fold unlocked for its thread does not lock it. */
  lemma StaysUnlocked(s: State, a: Action, f: FoldId)
    requires Enabled(s, a) && a.t in s.stacks && !Holds(s.stacks[a.t], f)
    requires a.Take? || a.Collect?
    ensures a.t in Apply(s, a).stacks && !Holds(Apply(s, a).stacks[a.t], f)
  {
    hide StacksAfter, FoldsAfter, DeliveriesAfter, WaitersAfter, HeapAfter;
    ActorStack(s, a);
    HoldsEdited(s.stacks[a.t], EditOf(s, a), f);
  }

  /** A step starts on the state its fold holds. */
  lemma MovedStepsOn(s: State, a: Action, f: FoldId)
    requires Enabled(s, a) && f in s.folds && !a.Abandon?
    ensures var e := EditOf(s, a);
            (e.Pushed? || e.Moved?) && e.fr.Run? && e.fr.fold == f && e.fr.rpc.Stepping? ==>
              e.fr.rpc.before == s.folds[f].state
  {
    hide StacksAfter, FoldsAfter, DeliveriesAfter, WaitersAfter, HeapAfter;
  }

  lemma ActorStepsOn(s: State, a: Action, f: FoldId)
    requires Inv(s) && InPlace(s, f) && Enabled(s, a) && !a.Abandon? && !CallsBack(s, a, f)
    ensures a.t in s.stacks && a.t in Apply(s, a).stacks && f in Apply(s, a).folds
    ensures StepsOn(Apply(s, a).stacks[a.t], f, Apply(s, a).folds[f].state)
  {
    hide Enabled, EditOf, StacksAfter, FoldsAfter, DeliveriesAfter, WaitersAfter, HeapAfter;
    ActorStack(s, a);
    DomainsGrow(s, a);
    var st, s' := s.stacks[a.t], Apply(s, a);
    if s'.folds[f].state != s.folds[f].state {
      StateStep(s, a, f);
      if a.Commit? { CommitUnlocks(s, a, f); } else { StaysUnlocked(s, a, f); }
      UnheldSteps(s'.stacks[a.t], f, s'.folds[f].state);
    } else {
      MovedStepsOn(s, a, f);
      StepsOnEdit(st, EditOf(s, a), f, s.folds[f].state);
    }
  }

  lemma OtherInPlace(s: State, a: Action, f: FoldId, t: Thread)
    requires Inv(s) && InPlace(s, f) && Enabled(s, a) && !CallsBack(s, a, f)
    requires t in s.stacks && !By(a, t)
    ensures t in Apply(s, a).stacks && f in Apply(s, a).folds
    ensures NotNested(Apply(s, a).stacks[t], f)
    ensures StepsOn(Apply(s, a).stacks[t], f, Apply(s, a).folds[f].state)
  {
    hide Enabled, EditOf, FoldsAfter, StacksAfter, DeliveriesAfter, WaitersAfter, HeapAfter;
    var s' := Apply(s, a);
    OtherStacks(s, a);
    assert NotNested(s.stacks[t], f) && StepsOn(s.stacks[t], f, s.folds[f].state);
    DomainsGrow(s, a);
    WakeKeeps(s.stacks[t], f, s.folds[f].state);
    if s'.folds[f].state != s.folds[f].state {
      StateStep(s, a, f);
      HoldsWake(s.stacks[t], f);
      UnheldSteps(s'.stacks[t], f, s'.folds[f].state);
    }
  }

  lemma WakeKeeps(st: seq<Frame>, f: FoldId, state: Ref)
    requires NotNested(st, f) && StepsOn(st, f, state)
    ensures NotNested(WakeStack(st), f) && StepsOn(WakeStack(st), f, state)
  {
  }

  lemma StepInPlace(s: State, a: Action, f: FoldId)
    requires Inv(s) && InPlace(s, f) && Enabled(s, a) && !CallsBack(s, a, f)
    ensures InPlace(Apply(s, a), f)
  {
    hide Enabled, EditOf, FoldsAfter, StacksAfter, DeliveriesAfter, WaitersAfter, HeapAfter;
    var s' := Apply(s, a);
    OtherStacks(s, a);
    DomainsGrow(s, a);
    forall t | t in s'.stacks
      ensures NotNested(s'.stacks[t], f) && StepsOn(s'.stacks[t], f, s'.folds[f].state)
    {
      if By(a, t) {
        ActorNotNested(s, a, f);
        ActorStepsOn(s, a, f);
      } else {
        OtherInPlace(s, a, f, t);
      }
    }
  }

  lemma {:induction false} InPlaceRun(s: State, actions: seq<Action>, f: FoldId)
    requires Inv(s) && InPlace(s, f) && Runs(s, actions) && QuietRun(s, actions, f)
    ensures InPlace(Final(s, actions), f)
    decreases |actions|
  {
    hide Enabled, EditOf, FoldsAfter, StacksAfter, DeliveriesAfter, WaitersAfter, HeapAfter;
    if actions != [] {
      StepInPlace(s, actions[0], f);
      StepInv(s, actions[0]);
      InPlaceRun(Apply(s, actions[0]), actions[1..], f);
    }
  }

  /** A fold whose user code does not call back into the fold never meets the
      refusal, and every answer it commits was computed on the state it replaces,
      whatever the step is. */
  lemma QuietFoldCommitsInPlace(s0: State, actions: seq<Action>, f: FoldId, t: Thread, after: Ref)
    requires Initial(s0) && f in s0.folds && Runs(s0, actions) && QuietRun(s0, actions, f)
    requires var s := Final(s0, actions); AtRun(s, t) && Top(s, t).rpc.Stepping? && Top(s, t).fold == f
    ensures var s := Final(s0, actions);
            !Conflicts(s, t, after) && Top(s, t).rpc.before == s.folds[f].state
  {
    InitialInv(s0);
    InPlaceRun(s0, actions, f);
    var s := Final(s0, actions);
    assert StepsOn(s.stacks[t], f, s.folds[f].state);
  }

  // ------------------------------------------------- where the guard lets one go

  /** One thread, one accumulating fold whose objects 0 and 1 are small integers. */
  function CounterAt(stack: seq<Frame>, open: nat, version: nat, state: Ref, committed: seq<Change>): State {
    State(map[0 := FoldState(true, true, true, version, 0, 0, state, committed, [], [])],
          map[0 := stack],
          if open == 0 then map[] else map[0 := map[0 := open]],
          0, map[0 := [], 1 := []])
  }

  /** A counting step of `f` answers the integer after the one it was given. */
  predicate CountsUp(s: State, a: Action, f: FoldId)
    requires Enabled(s, a)
  {
    a.Commit? && Top(s, a.t).fold == f ==> a.after == Top(s, a.t).rpc.before + 1
  }

  predicate CountingRun(s: State, actions: seq<Action>, f: FoldId)
    requires Runs(s, actions)
    decreases |actions|
  {
    actions == [] || (CountsUp(s, actions[0], f) && CountingRun(Apply(s, actions[0]), actions[1..], f))
  }

  function At(e: Change, pc: RunPc): Frame {
    Run(0, e, pc)
  }

  /** `a` leads from `s` to `s'`, field by field, in the one-thread counter. */
  predicate Leads(s: State, a: Action, s': State) {
    && Enabled(s, a) && CountsUp(s, a, 0)
    && StacksAfter(s, a).Keys == s'.stacks.Keys == {0}
    && StacksAfter(s, a)[0] == s'.stacks[0]
    && FoldsAfter(s, a).Keys == s'.folds.Keys == {0}
    && FoldsAfter(s, a)[0].committed == s'.folds[0].committed
    && FoldsAfter(s, a)[0] == s'.folds[0].(committed := FoldsAfter(s, a)[0].committed)
    && DeliveriesAfter(s, a).Keys == s'.deliveries.Keys <= {0}
    && (0 in s'.deliveries ==> DeliveriesAfter(s, a)[0] == s'.deliveries[0])
    && WaitersAfter(s, a) == s'.waiters
    && HeapAfter(s, a) == s'.heap
  }

  /** A run that starts with `a` and goes on with `rest` from where `a` leads. */
  lemma Begins(s: State, a: Action, s': State, rest: seq<Action>)
    requires Leads(s, a, s') && Runs(s', rest) && CountingRun(s', rest, 0)
    ensures Runs(s, [a] + rest) && Final(s, [a] + rest) == Final(s', rest) && CountingRun(s, [a] + rest, 0)
  {
    hide Enabled, CountsUp, EditOf, FoldsAfter, StacksAfter, DeliveriesAfter, WaitersAfter, HeapAfter;
    assert ([a] + rest)[0] == a && ([a] + rest)[1..] == rest;
    var r := Apply(s, a);
    assert r.stacks == s'.stacks && r.folds == s'.folds && r.deliveries == s'.deliveries;
    assert r == s';
  }

  lemma CallLeads(below: seq<Frame>, e: Change, open: nat)
    requires below == [] || InUserCode(below[0])
    ensures Leads(CounterAt(below, open, 0, 0, []), Dispatch(0, 0, e),
                  CounterAt([At(e, Claiming)] + below, open, 0, 0, []))
  {
  }

  lemma ClaimLeads(below: seq<Frame>, e: Change, open: nat)
    ensures Leads(CounterAt([At(e, Claiming)] + below, open, 0, 0, []), Begin(0),
                  CounterAt([At(e, Claimed)] + below, open + 1, 0, 0, []))
  {
  }

  lemma EnterLeads(below: seq<Frame>, e: Change, open: nat)
    ensures Leads(CounterAt([At(e, Claimed)] + below, open, 0, 0, []), Enter(0),
                  CounterAt([At(e, Admitting)] + below, open, 0, 0, []))
  {
  }

  lemma AdmitLeads(below: seq<Frame>, e: Change, open: nat)
    ensures Leads(CounterAt([At(e, Admitting)] + below, open, 0, 0, []), Admit(0),
                  CounterAt([At(e, Stepping(0))] + below, open, 0, 0, []))
  {
  }

  lemma CommitLeads(below: seq<Frame>, e: Change, open: nat, version: nat, state: Ref, committed: seq<Change>)
    requires state <= 1
    ensures Leads(CounterAt([At(e, Stepping(0))] + below, open, version, state, committed), Commit(0, 1, []),
                  CounterAt([At(e, Bumped)] + below, open, version + 1, 1, committed + [e]))
  {
  }

  lemma ReadLeads(below: seq<Frame>, e: Change, open: nat, version: nat, state: Ref, committed: seq<Change>)
    ensures Leads(CounterAt([At(e, Bumped)] + below, open, version, state, committed), ReadWaiters(0),
                  CounterAt([At(e, Ending)] + below, open, version, state, committed))
  {
  }

  lemma EndLeads(below: seq<Frame>, e: Change, open: nat, version: nat, state: Ref, committed: seq<Change>)
    ensures Leads(CounterAt([At(e, Ending)] + below, open + 1, version, state, committed), End(0),
                  CounterAt(below, open, version, state, committed))
  {
  }

  /** A delivery from its call to its running step, in front of a run from there. */
  lemma UpToStep(below: seq<Frame>, e: Change, open: nat, rest: seq<Action>) returns (actions: seq<Action>)
    requires below == [] || InUserCode(below[0])
    requires var s := CounterAt([At(e, Stepping(0))] + below, open + 1, 0, 0, []);
             Runs(s, rest) && CountingRun(s, rest, 0)
    ensures var s := CounterAt(below, open, 0, 0, []);
            && Runs(s, actions) && CountingRun(s, actions, 0)
            && Final(s, actions) == Final(CounterAt([At(e, Stepping(0))] + below, open + 1, 0, 0, []), rest)
  {
    hide Leads, CountsUp, Enabled, EditOf, FoldsAfter, StacksAfter, DeliveriesAfter, WaitersAfter, HeapAfter, CounterAt;
    AdmitLeads(below, e, open + 1);
    Begins(CounterAt([At(e, Admitting)] + below, open + 1, 0, 0, []), Admit(0),
           CounterAt([At(e, Stepping(0))] + below, open + 1, 0, 0, []), rest);
    EnterLeads(below, e, open + 1);
    Begins(CounterAt([At(e, Claimed)] + below, open + 1, 0, 0, []), Enter(0),
           CounterAt([At(e, Admitting)] + below, open + 1, 0, 0, []), [Admit(0)] + rest);
    ClaimLeads(below, e, open);
    Begins(CounterAt([At(e, Claiming)] + below, open, 0, 0, []), Begin(0),
           CounterAt([At(e, Claimed)] + below, open + 1, 0, 0, []), [Enter(0)] + ([Admit(0)] + rest));
    CallLeads(below, e, open);
    actions := [Begin(0)] + ([Enter(0)] + ([Admit(0)] + rest));
    Begins(CounterAt(below, open, 0, 0, []), Dispatch(0, 0, e),
           CounterAt([At(e, Claiming)] + below, open, 0, 0, []), actions);
    actions := [Dispatch(0, 0, e)] + actions;
  }

  /** The inner step commits and ends, then the outer one commits over it. */
  lemma BothCommit() returns (actions: seq<Action>)
    ensures var s := CounterAt([At(11, Stepping(0))] + ([At(10, Stepping(0))] + []), 2, 0, 0, []);
            && Runs(s, actions) && CountingRun(s, actions, 0)
            && Final(s, actions) == CounterAt([At(10, Bumped)] + [], 1, 2, 1, [] + [11] + [10])
  {
    hide Leads, CountsUp, Enabled, EditOf, FoldsAfter, StacksAfter, DeliveriesAfter, WaitersAfter, HeapAfter;
    var outer := [At(10, Stepping(0))] + [];
    CommitLeads([], 10, 1, 1, 1, [] + [11]);
    Begins(CounterAt(outer, 1, 1, 1, [] + [11]), Commit(0, 1, []),
           CounterAt([At(10, Bumped)] + [], 1, 2, 1, [] + [11] + [10]), []);
    EndLeads(outer, 11, 1, 1, 1, [] + [11]);
    var last := [Commit(0, 1, [])] + [];
    Begins(CounterAt([At(11, Ending)] + outer, 2, 1, 1, [] + [11]), End(0), CounterAt(outer, 1, 1, 1, [] + [11]), last);
    ReadLeads(outer, 11, 2, 1, 1, [] + [11]);
    Begins(CounterAt([At(11, Bumped)] + outer, 2, 1, 1, [] + [11]), ReadWaiters(0),
           CounterAt([At(11, Ending)] + outer, 2, 1, 1, [] + [11]), [End(0)] + last);
    CommitLeads(outer, 11, 2, 0, 0, []);
    Begins(CounterAt([At(11, Stepping(0))] + outer, 2, 0, 0, []), Commit(0, 1, []),
           CounterAt([At(11, Bumped)] + outer, 2, 1, 1, [] + [11]), [ReadWaiters(0)] + ([End(0)] + last));
    actions := [Commit(0, 1, [])] + ([ReadWaiters(0)] + ([End(0)] + last));
  }

  /** The identity guard compares objects, and equal small integers are one object:
      a counting step whose change triggers itself once commits twice, raises
      nothing, and counts one. */
  lemma NestedCountIsLost() returns (s0: State, actions: seq<Action>)
    ensures Initial(s0) && Runs(s0, actions) && CountingRun(s0, actions, 0)
    ensures 0 in Final(s0, actions).folds
    ensures |Final(s0, actions).folds[0].committed| == 2
    ensures Final(s0, actions).folds[0].state == 1
  {
    hide Leads, CountsUp, Enabled, EditOf, FoldsAfter, StacksAfter, DeliveriesAfter, WaitersAfter, HeapAfter;
    actions := BothCommit();
    actions := UpToStep([At(10, Stepping(0))] + [], 11, 1, actions);
    actions := UpToStep([], 10, 0, actions);
    s0 := CounterAt([], 0, 0, 0, []);
  }
}
