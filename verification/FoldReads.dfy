/** When a blocked read blocks and what a read answers, from the actions of a run alone. */
module FoldReads {
  import opened DeliveryTables
  import opened FoldProtocol
  import opened FoldProtocolInvariant
  import opened FoldProtocolTheorems
  import opened FoldCounts
  import opened Atoms

  // ------------------------------------------------------------ places in a run

  /** The run's action at `m` commits to `f`. */
  predicate CommitAt(s0: State, actions: seq<Action>, m: nat, f: FoldId)
    requires m < |actions|
  {
    && Runs(s0, actions[..m]) && Enabled(Final(s0, actions[..m]), actions[m])
    && CommitsTo(Final(s0, actions[..m]), actions[m], f)
  }

  /** The run's action at `m` takes the state of `f`, at once or after waiting. */
  predicate ReadAt(s0: State, actions: seq<Action>, m: nat, f: FoldId)
    requires m < |actions|
  {
    && Runs(s0, actions[..m]) && Enabled(Final(s0, actions[..m]), actions[m])
    && ReadsFrom(Final(s0, actions[..m]), actions[m], f)
  }

  function CommitsBefore(s0: State, actions: seq<Action>, n: nat, f: FoldId): nat
    requires n <= |actions|
  {
    if n == 0 then 0
    else CommitsBefore(s0, actions, n - 1, f) + (if CommitAt(s0, actions, n - 1, f) then 1 else 0)
  }

  /** The place right after the last read of `f` among the first `n` actions, or zero. */
  function ReadEnd(s0: State, actions: seq<Action>, n: nat, f: FoldId): (k: nat)
    requires n <= |actions|
    ensures k <= n
  {
    if n == 0 then 0 else if ReadAt(s0, actions, n - 1, f) then n else ReadEnd(s0, actions, n - 1, f)
  }

  /** The place right after the last look of `t` at a version, or zero. */
  function LookEnd(actions: seq<Action>, n: nat, t: Thread): (k: nat)
    requires n <= |actions|
    ensures k <= n
    ensures k > 0 ==> actions[k - 1] == ReadVersion(t)
    ensures forall m | k <= m < n :: actions[m] != ReadVersion(t)
  {
    if n == 0 then 0 else if actions[n - 1] == ReadVersion(t) then n else LookEnd(actions, n - 1, t)
  }

  /** The object committed last and not read since, if any. */
  function Held(s0: State, actions: seq<Action>, n: nat, f: FoldId): Option<Ref>
    requires n <= |actions|
  {
    if n == 0 then None
    else if CommitAt(s0, actions, n - 1, f) then Some(actions[n - 1].after)
    else if ReadAt(s0, actions, n - 1, f) then None
    else Held(s0, actions, n - 1, f)
  }

  function Or(held: Option<Ref>, initial: Ref): Ref {
    if held.Some? then held.value else initial
  }

  /** What the reads of `f` among the first `n` actions must have answered. */
  function Answered(s0: State, actions: seq<Action>, n: nat, f: FoldId, initial: Ref): seq<Ref>
    requires n <= |actions|
  {
    if n == 0 then []
    else
      var before := Answered(s0, actions, n - 1, f, initial);
      if ReadAt(s0, actions, n - 1, f) then before + [Or(Held(s0, actions, n - 1, f), initial)] else before
  }

  predicate CommitBetween(s0: State, actions: seq<Action>, i: nat, j: nat, f: FoldId)
    requires j <= |actions|
  {
    exists m :: i <= m < j && CommitAt(s0, actions, m, f)
  }

  lemma {:induction false} CountsApart(s0: State, actions: seq<Action>, i: nat, j: nat, f: FoldId)
    requires i <= j <= |actions|
    ensures CommitsBefore(s0, actions, i, f) <= CommitsBefore(s0, actions, j, f)
    ensures CommitsBefore(s0, actions, i, f) != CommitsBefore(s0, actions, j, f) <==> CommitBetween(s0, actions, i, j, f)
    decreases j - i
  {
    hide CommitAt;
    if i < j {
      CountsApart(s0, actions, i, j - 1, f);
      if CommitAt(s0, actions, j - 1, f) { assert CommitBetween(s0, actions, i, j, f); }
    }
  }

  // -------------------------------------------------------------- one step of a fold

  lemma Enters(s0: State, actions: seq<Action>, n: nat)
    requires Runs(s0, actions) && n < |actions|
    ensures Runs(s0, actions[..n]) && Enabled(Final(s0, actions[..n]), actions[n])
    ensures Runs(s0, actions[..n + 1]) && Final(s0, actions[..n + 1]) == Apply(Final(s0, actions[..n]), actions[n])
  {
    hide Enabled, EditOf, FoldsAfter, StacksAfter, DeliveriesAfter, WaitersAfter, HeapAfter;
    assert actions == actions[..n + 1] + actions[n + 1..];
    RunsSplit(s0, actions[..n + 1], actions[n + 1..]);
    assert actions[..n + 1] == actions[..n] + [actions[n]];
    RunsSplit(s0, actions[..n], [actions[n]]);
    LastApplied(Final(s0, actions[..n]), actions[n]);
  }

  lemma FoldStep(s: State, a: Action, f: FoldId)
    requires Enabled(s, a) && f in s.folds
    ensures f in Apply(s, a).folds && Apply(s, a).folds[f].initial == s.folds[f].initial
    ensures Apply(s, a).folds[f].version == s.folds[f].version + (if CommitsTo(s, a, f) then 1 else 0)
    ensures Apply(s, a).folds[f].consumed == if ReadsFrom(s, a, f) then s.folds[f].version else s.folds[f].consumed
    ensures Apply(s, a).folds[f].state ==
            if CommitsTo(s, a, f) then a.after else if ReadsFrom(s, a, f) then s.folds[f].initial else s.folds[f].state
    ensures Apply(s, a).folds[f].handed ==
            if ReadsFrom(s, a, f) then s.folds[f].handed + [s.folds[f].state] else s.folds[f].handed
  {
    hide EditOf, StacksAfter, DeliveriesAfter, WaitersAfter, HeapAfter, RegistryFree, StateFree, Conflicts;
  }

  /** The fold's fields, from the commits and reads of the run. */
  lemma {:induction false} FoldTracked(s0: State, actions: seq<Action>, n: nat, f: FoldId)
    requires Initial(s0) && Runs(s0, actions) && f in s0.folds && n <= |actions|
    ensures Runs(s0, actions[..n]) && f in Final(s0, actions[..n]).folds
    ensures var fs := Final(s0, actions[..n]).folds[f];
            && fs.initial == s0.folds[f].initial
            && fs.version == CommitsBefore(s0, actions, n, f)
            && fs.consumed == CommitsBefore(s0, actions, ReadEnd(s0, actions, n, f), f)
            && fs.state == Or(Held(s0, actions, n, f), fs.initial)
            && fs.handed == Answered(s0, actions, n, f, fs.initial)
    decreases n
  {
    if n == 0 {
      assert actions[..0] == [];
    } else {
      FoldTracked(s0, actions, n - 1, f);
      Enters(s0, actions, n - 1);
      var s, a := Final(s0, actions[..n - 1]), actions[n - 1];
      FoldStep(s, a, f);
      Either(s, a, f);
      hide Enabled, EditOf, FoldsAfter, StacksAfter, DeliveriesAfter, WaitersAfter, HeapAfter, CommitsTo, ReadsFrom;
    }
  }

  lemma Either(s: State, a: Action, f: FoldId)
    requires Enabled(s, a)
    ensures !(CommitsTo(s, a, f) && ReadsFrom(s, a, f))
  {
    hide Enabled;
  }

  /** What a read answers: the object committed last since the read before it, or the
      initial one if there is none; and it leaves the initial one in place. */
  lemma ReadsAnswerExactly(s0: State, actions: seq<Action>, f: FoldId)
    requires Initial(s0) && Runs(s0, actions) && f in s0.folds
    ensures f in Final(s0, actions).folds
    ensures var n, initial, fs := |actions|, s0.folds[f].initial, Final(s0, actions).folds[f];
            && fs.handed == Answered(s0, actions, n, f, initial)
            && fs.state == Or(Held(s0, actions, n, f), initial)
            && (n > 0 && ReadAt(s0, actions, n - 1, f) ==> fs.state == initial)
  {
    FoldTracked(s0, actions, |actions|, f);
    assert actions[..|actions|] == actions;
    if |actions| > 0 && ReadAt(s0, actions, |actions| - 1, f) {
      Either(Final(s0, actions[..|actions| - 1]), actions[|actions| - 1], f);
    }
  }

  // ------------------------------------------------------- the version a wait has read

  predicate Looking(st: seq<Frame>, f: FoldId, v: nat) {
    st != [] && st[0] == Wait(f, SeenVersion(v))
  }

  /** Only a look at the version leaves a thread with a version in hand. */
  lemma LookStep(s: State, a: Action, t: Thread, f: FoldId, v: nat)
    requires Known(s) && Enabled(s, a) && t in s.stacks
    requires t in Apply(s, a).stacks && Looking(Apply(s, a).stacks[t], f, v)
    ensures a == ReadVersion(t) || Looking(s.stacks[t], f, v)
    ensures a == ReadVersion(t) ==> f in s.folds && v == s.folds[f].version
  {
    hide Enabled, EditOf, FoldsAfter, StacksAfter, DeliveriesAfter, WaitersAfter, HeapAfter, Known;
    OtherStacks(s, a);
    if By(a, t) {
      BelowCalls(s, t);
      if WaitAction(a) { WaitTops(s, a); } else { NotWaiting(s, a); }
      if a.ReadVersion? { VersionInHand(s, a); }
    }
  }

  lemma VersionInHand(s: State, a: Action)
    requires Enabled(s, a) && a.ReadVersion?
    ensures AtWait(s, a.t) && a.t in Apply(s, a).stacks
    ensures Apply(s, a).stacks[a.t] != [] &&
            Apply(s, a).stacks[a.t][0] == Wait(Top(s, a.t).fold, SeenVersion(TopFold(s, a.t).version))
  {
    hide FoldsAfter, StacksAfter, DeliveriesAfter, WaitersAfter, HeapAfter, RegistryFree, StateFree;
    ActorStack(s, a);
  }

  lemma {:induction false} LookTracked(s0: State, actions: seq<Action>, n: nat, t: Thread, f: FoldId, v: nat)
    requires Initial(s0) && Runs(s0, actions) && f in s0.folds && n <= |actions| && Runs(s0, actions[..n])
    requires t in Final(s0, actions[..n]).stacks && Looking(Final(s0, actions[..n]).stacks[t], f, v)
    ensures LookEnd(actions, n, t) > 0 && v == CommitsBefore(s0, actions, LookEnd(actions, n, t) - 1, f)
    decreases n
  {
    hide Enabled, EditOf, FoldsAfter, StacksAfter, DeliveriesAfter, WaitersAfter, HeapAfter, Initial, Known;
    hide CommitsBefore, Looking, Final, Runs;
    if n == 0 {
      NobodyLooks(s0, t, f, v);
      assert actions[..0] == [];
      NoneRun(s0);
    } else {
      Enters(s0, actions, n - 1);
      PrefixKnown(s0, actions, n - 1);
      FoldTracked(s0, actions, n - 1, f);
      var s, a := Final(s0, actions[..n - 1]), actions[n - 1];
      OtherStacks(s, a);
      LookStep(s, a, t, f, v);
      if a != ReadVersion(t) { LookTracked(s0, actions, n - 1, t, f, v); }
    }
  }

  lemma NobodyLooks(s0: State, t: Thread, f: FoldId, v: nat)
    requires Initial(s0)
    ensures t in s0.stacks ==> !Looking(s0.stacks[t], f, v)
  {
  }

  lemma NoneRun(s0: State)
    ensures Runs(s0, []) && Final(s0, []) == s0
  {
  }

  lemma PrefixKnown(s0: State, actions: seq<Action>, n: nat)
    requires Initial(s0) && Runs(s0, actions) && n <= |actions| && Runs(s0, actions[..n])
    ensures Known(Final(s0, actions[..n]))
  {
    hide Enabled, EditOf, FoldsAfter, StacksAfter, DeliveriesAfter, WaitersAfter, HeapAfter, Initial;
    InitialInv(s0);
    RunInv(s0, actions[..n]);
  }

  // ------------------------------------------------------------ when a wait blocks

  function Lesser(i: nat, j: nat): nat {
    if i < j then i else j
  }

  function Greater(i: nat, j: nat): nat {
    if i < j then j else i
  }

  lemma CompareDecides(s: State, t: Thread)
    requires Enabled(s, Compare(t, false))
    ensures AtWait(s, t) && Top(s, t).wpc.SeenVersion? && t in Apply(s, Compare(t, false)).stacks
    ensures Apply(s, Compare(t, false)).stacks[t] != []
    ensures Apply(s, Compare(t, false)).stacks[t][0] ==
            Wait(Top(s, t).fold, if Top(s, t).wpc.seen != TopFold(s, t).consumed then Leaving else Asleep)
  {
    hide FoldsAfter, StacksAfter, DeliveriesAfter, WaitersAfter, HeapAfter, RegistryFree, StateFree;
    ActorStack(s, Compare(t, false));
  }

  /** A blocked read whose time is not up stops waiting exactly when some commit of its
      fold stands between the last read of the fold and its own look at the version;
      otherwise it falls asleep. */
  lemma BlocksExactly(s0: State, actions: seq<Action>, t: Thread, f: FoldId)
    requires Initial(s0) && Runs(s0, actions) && f in s0.folds
    requires Enabled(Final(s0, actions), Compare(t, false)) && Top(Final(s0, actions), t).fold == f
    ensures LookEnd(actions, |actions|, t) > 0
    ensures var look, read := LookEnd(actions, |actions|, t) - 1, ReadEnd(s0, actions, |actions|, f);
            var after := Apply(Final(s0, actions), Compare(t, false)).stacks;
            && t in after && after[t] != []
            && after[t][0] ==
               Wait(f, if CommitBetween(s0, actions, Lesser(read, look), Greater(read, look), f) then Leaving else Asleep)
  {
    hide Enabled, EditOf, FoldsAfter, StacksAfter, DeliveriesAfter, WaitersAfter, HeapAfter, Initial, CommitBetween;
    hide CommitsBefore, ReadEnd, LookEnd, Runs, Final, Held, Answered;
    var n := |actions|;
    var s := Final(s0, actions);
    assert actions[..n] == actions;
    CompareDecides(s, t);
    FoldTracked(s0, actions, n, f);
    LookTracked(s0, actions, n, t, f, Top(s, t).wpc.seen);
    var look, read := LookEnd(actions, n, t) - 1, ReadEnd(s0, actions, n, f);
    CountsApart(s0, actions, Lesser(read, look), Greater(read, look), f);
  }

  /** While nobody else reads the fold after the look, that is exactly when something was
      committed since the last read. */
  lemma BlocksUntilCommit(s0: State, actions: seq<Action>, t: Thread, f: FoldId)
    requires Initial(s0) && Runs(s0, actions) && f in s0.folds
    requires Enabled(Final(s0, actions), Compare(t, false)) && Top(Final(s0, actions), t).fold == f
    requires ReadEnd(s0, actions, |actions|, f) < LookEnd(actions, |actions|, t)
    ensures var look, read := LookEnd(actions, |actions|, t) - 1, ReadEnd(s0, actions, |actions|, f);
            var after := Apply(Final(s0, actions), Compare(t, false)).stacks;
            && t in after && after[t] != []
            && after[t][0] == Wait(f, if CommitBetween(s0, actions, read, look, f) then Leaving else Asleep)
  {
    hide Enabled, EditOf, FoldsAfter, StacksAfter, DeliveriesAfter, WaitersAfter, HeapAfter, Initial, CommitBetween;
    BlocksExactly(s0, actions, t, f);
  }

  /** A blocked read leaves its loop only when it finds the fold inactive, finds a version
      that differs, or is out of time; and it does leave when the fold is inactive. */
  lemma LeavesExactly(s: State, a: Action)
    requires Known(s) && Enabled(s, a) && !a.Abandon?
    ensures a.t in s.stacks && a.t in Apply(s, a).stacks
    ensures var after := Apply(s, a).stacks[a.t];
            && (after != [] && after[0].Wait? && after[0].wpc.Leaving? ==> a.ReadActive? || a.Compare?)
            && (a.ReadActive? ==>
                  && AtWait(s, a.t) && after != []
                  && after[0] == Wait(Top(s, a.t).fold, if TopFold(s, a.t).active then SeenActive else Leaving))
            && (a.Compare? && a.expired ==> after != [] && after[0].Wait? && after[0].wpc.Leaving?)
  {
    if WaitAction(a) {
      WaitTops(s, a);
      ReadActiveDecides(s, a);
    } else {
      NotWaiting(s, a);
      hide Enabled, EditOf, FoldsAfter, StacksAfter, DeliveriesAfter, WaitersAfter, HeapAfter, Known;
    }
    hide Enabled, EditOf, FoldsAfter, StacksAfter, DeliveriesAfter, WaitersAfter, HeapAfter;
    BelowCalls(s, a.t);
  }

  lemma ReadActiveDecides(s: State, a: Action)
    requires Enabled(s, a) && WaitAction(a)
    ensures a.t in s.stacks && a.t in Apply(s, a).stacks
    ensures a.ReadActive? ==>
              && AtWait(s, a.t) && Apply(s, a).stacks[a.t] != []
              && Apply(s, a).stacks[a.t][0] == Wait(Top(s, a.t).fold, if TopFold(s, a.t).active then SeenActive else Leaving)
    ensures a.Compare? && a.expired ==>
              Apply(s, a).stacks[a.t] != [] && Apply(s, a).stacks[a.t][0].Wait?
              && Apply(s, a).stacks[a.t][0].wpc.Leaving?
  {
    hide FoldsAfter, StacksAfter, DeliveriesAfter, WaitersAfter, HeapAfter, RegistryFree, StateFree;
    ActorStack(s, a);
  }

  // -------------------------------------------------------------------- fold flags

  /** The only steps that move a fold's flag, and what they make of it. */
  lemma FlagExactly(s: State, a: Action, f: FoldId)
    requires Enabled(s, a) && f in s.folds
    ensures f in Apply(s, a).folds
    ensures Apply(s, a).folds[f].active <==>
              if a.Restore? && a.f == f then a.active
              else s.folds[f].active && !(a.Abandon? && a.f == f) && !(a.Withdraw? && a.f == f && s.folds[f].registered)
    ensures Apply(s, a).folds[f].registered <==>
              if (a.Restore? || a.Register?) && a.f == f then true
              else s.folds[f].registered && !(a.Withdraw? && a.f == f)
  {
    hide EditOf, StacksAfter, DeliveriesAfter, WaitersAfter, HeapAfter, RegistryFree, StateFree, Conflicts;
  }

  // ---------------------------------------------------------------- stateless folds

  /** A frame of a stateless fold reacts without a lock; one of a stateful fold is
      admitted, steps and moves the version on. */
  predicate KindKept(stateful: bool, fr: Frame) {
    fr.Run? ==>
      && (fr.rpc.Admitting? || fr.rpc.Stepping? || fr.rpc.Bumped? || fr.rpc.Owing? ==> stateful)
      && (fr.rpc.Reacting? ==> !stateful)
  }

  ghost predicate Kinds(s: State, f: FoldId) {
    f in s.folds &&
    forall t, i | t in s.stacks && 0 <= i < |s.stacks[t]| && s.stacks[t][i].fold == f ::
      KindKept(s.folds[f].stateful, s.stacks[t][i])
  }

  lemma KindStep(s: State, a: Action, f: FoldId)
    requires Enabled(s, a) && f in s.folds && !a.Abandon?
    ensures f in Apply(s, a).folds && Apply(s, a).folds[f].stateful == s.folds[f].stateful
    ensures ((EditOf(s, a).Pushed? || EditOf(s, a).Moved?) && EditOf(s, a).fr.fold == f
             && (s.stacks[a.t] != [] && EditOf(s, a).Moved? ==> KindKept(s.folds[f].stateful, s.stacks[a.t][0]))) ==>
              KindKept(s.folds[f].stateful, EditOf(s, a).fr)
    ensures EditOf(s, a).Moved? ==> s.stacks[a.t] != [] && EditOf(s, a).fr.fold == s.stacks[a.t][0].fold
  {
    StatefulStays(s, a, f);
    hide FoldsAfter, StacksAfter, DeliveriesAfter, WaitersAfter, HeapAfter, RegistryFree, StateFree, Conflicts;
  }

  lemma StepKinds(s: State, a: Action, f: FoldId)
    requires Kinds(s, f) && Enabled(s, a)
    ensures Kinds(Apply(s, a), f)
  {
    var s' := Apply(s, a);
    OtherStacks(s, a);
    if a.Abandon? { StatefulStays(s, a, f); } else { KindStep(s, a, f); ActorStack(s, a); }
    hide Enabled, EditOf, FoldsAfter, StacksAfter, DeliveriesAfter, WaitersAfter, HeapAfter, KindKept;
    forall t, i | t in s'.stacks && 0 <= i < |s'.stacks[t]| && s'.stacks[t][i].fold == f
      ensures KindKept(s'.folds[f].stateful, s'.stacks[t][i])
    {
      if By(a, t) {
        KindEdited(s.stacks[t], EditOf(s, a), f, s.folds[f].stateful, i);
      } else {
        KindWoken(s.stacks[t], f, s.folds[f].stateful, i);
      }
    }
  }

  lemma StatefulStays(s: State, a: Action, f: FoldId)
    requires Enabled(s, a) && f in s.folds
    ensures f in Apply(s, a).folds && Apply(s, a).folds[f].stateful == s.folds[f].stateful
  {
    hide EditOf, StacksAfter, DeliveriesAfter, WaitersAfter, HeapAfter, RegistryFree, StateFree, Conflicts;
  }

  lemma KindEdited(st: seq<Frame>, e: Edit, f: FoldId, stateful: bool, i: nat)
    requires forall j | 0 <= j < |st| && st[j].fold == f :: KindKept(stateful, st[j])
    requires e.Moved? ==> st != [] && e.fr.fold == st[0].fold
    requires ((e.Pushed? || e.Moved?) && e.fr.fold == f
              && (st != [] && e.Moved? ==> KindKept(stateful, st[0]))) ==> KindKept(stateful, e.fr)
    requires i < |Edited(st, e)| && Edited(st, e)[i].fold == f
    ensures KindKept(stateful, Edited(st, e)[i])
  {
    hide KindKept;
    match e
    case Keep =>
    case Pushed(fr) => if i > 0 { assert Edited(st, e)[i] == st[i - 1]; }
    case Popped => assert Edited(st, e)[i] == st[i + 1];
    case Moved(fr) => if i > 0 { assert Edited(st, e)[i] == st[i]; }
  }

  lemma KindWoken(st: seq<Frame>, f: FoldId, stateful: bool, i: nat)
    requires forall j | 0 <= j < |st| && st[j].fold == f :: KindKept(stateful, st[j])
    requires i < |st| && st[i].fold == f
    ensures |WakeStack(st)| == |st| && KindKept(stateful, st[i]) && KindKept(stateful, WakeStack(st)[i])
  {
  }

  lemma {:induction false} RunKinds(s: State, actions: seq<Action>, f: FoldId)
    requires Kinds(s, f) && Runs(s, actions)
    ensures Kinds(Final(s, actions), f)
    decreases |actions|
  {
    hide Enabled, EditOf, FoldsAfter, StacksAfter, DeliveriesAfter, WaitersAfter, HeapAfter, Kinds;
    if actions != [] {
      StepKinds(s, actions[0], f);
      RunKinds(Apply(s, actions[0]), actions[1..], f);
    }
  }

  lemma EnterDecides(s: State, t: Thread)
    requires Enabled(s, Enter(t))
    ensures AtRun(s, t) && AtRun(Apply(s, Enter(t)), t)
    ensures Top(Apply(s, Enter(t)), t) ==
            Run(Top(s, t).fold, Top(s, t).event, if TopFold(s, t).stateful then Admitting else Reacting)
  {
    hide DeliveriesAfter, WaitersAfter, HeapAfter, RegistryFree, StateFree;
    ActorStack(s, Enter(t));
  }

  /** Over every run a stateless fold is never locked, stepped or moved on: its user code
      runs unlocked, nothing is committed to it and nobody reads it; and a stateful fold's
      user code never runs without its lock. */
  lemma StatelessNeverCommits(s0: State, actions: seq<Action>, a: Action, f: FoldId)
    requires Initial(s0) && f in s0.folds && Runs(s0, actions) && Enabled(Final(s0, actions), a)
    ensures Kinds(Final(s0, actions), f)
    ensures !Final(s0, actions).folds[f].stateful ==>
              && !CommitsTo(Final(s0, actions), a, f) && !(a.Take? && a.f == f) && !(a.StartWait? && a.f == f)
              && forall t | t in Final(s0, actions).stacks :: !Holds(Final(s0, actions).stacks[t], f)
    ensures a.Enter? && Top(Final(s0, actions), a.t).fold == f ==>
              && a.t in Apply(Final(s0, actions), a).stacks && AtRun(Apply(Final(s0, actions), a), a.t)
              && Top(Apply(Final(s0, actions), a), a.t).rpc ==
                 if Final(s0, actions).folds[f].stateful then Admitting else Reacting
    ensures a.Finish? && Top(Final(s0, actions), a.t).rpc.Reacting? && Top(Final(s0, actions), a.t).fold == f ==>
              !Final(s0, actions).folds[f].stateful
  {
    assert Kinds(s0, f);
    RunKinds(s0, actions, f);
    if a.Enter? { EnterDecides(Final(s0, actions), a.t); }
    hide EditOf, FoldsAfter, StacksAfter, DeliveriesAfter, WaitersAfter, HeapAfter, RegistryFree, StateFree, Conflicts;
  }
}
