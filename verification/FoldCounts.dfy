/** When an update of a fold is lost: the exact account of a counting fold over every
    run, and the exact condition for one commit. */
module FoldCounts {
  import opened DeliveryTables
  import opened FoldProtocol
  import opened FoldProtocolInvariant
  import opened FoldProtocolTheorems
  import opened Atoms

  // ------------------------------------------------------------------ the account

  predicate CommitsTo(s: State, a: Action, f: FoldId)
    requires Enabled(s, a)
  {
    a.Commit? && Top(s, a.t).fold == f
  }

  /** A read takes the state away and puts the initial object back. */
  predicate ReadsFrom(s: State, a: Action, f: FoldId)
    requires Enabled(s, a)
  {
    (a.Take? && a.f == f) || (a.Collect? && Top(s, a.t).fold == f)
  }

  /** A commit whose answer was computed on another object than the one it replaces. */
  predicate Loses(s: State, a: Action, f: FoldId)
    requires Enabled(s, a)
  {
    CommitsTo(s, a, f) && f in s.folds && Top(s, a.t).rpc.before != s.folds[f].state
  }

  function LostIn(s: State, actions: seq<Action>, f: FoldId): nat
    requires Runs(s, actions)
    decreases |actions|
  {
    if actions == [] then 0
    else (if Loses(s, actions[0], f) then 1 else 0) + LostIn(Apply(s, actions[0]), actions[1..], f)
  }

  /** The sum of the counts that reads have taken away. */
  function ReadIn(s: State, actions: seq<Action>, f: FoldId): nat
    requires Runs(s, actions)
    decreases |actions|
  {
    if actions == [] then 0
    else
      (if ReadsFrom(s, actions[0], f) && f in s.folds then s.folds[f].state else 0)
      + ReadIn(Apply(s, actions[0]), actions[1..], f)
  }

  lemma CountStep(s: State, a: Action, f: FoldId)
    requires Enabled(s, a) && CountsUp(s, a, f) && f in s.folds && s.folds[f].initial == 0
    ensures f in Apply(s, a).folds && Apply(s, a).folds[f].initial == 0
    ensures Apply(s, a).folds[f].state + (if ReadsFrom(s, a, f) then s.folds[f].state else 0)
            + (if Loses(s, a, f) then 1 else 0) + |s.folds[f].committed|
            == s.folds[f].state + |Apply(s, a).folds[f].committed|
  {
    hide EditOf, StacksAfter, DeliveriesAfter, WaitersAfter, HeapAfter, StateFree, RegistryFree;
  }

  lemma {:induction false} CountRun(s: State, actions: seq<Action>, f: FoldId)
    requires Runs(s, actions) && CountingRun(s, actions, f) && f in s.folds && s.folds[f].initial == 0
    ensures f in Final(s, actions).folds
    ensures Final(s, actions).folds[f].state + ReadIn(s, actions, f) + LostIn(s, actions, f) + |s.folds[f].committed|
            == s.folds[f].state + |Final(s, actions).folds[f].committed|
    decreases |actions|
  {
    hide Enabled, EditOf, FoldsAfter, StacksAfter, DeliveriesAfter, WaitersAfter, HeapAfter, CountsUp, ReadsFrom, Loses;
    if actions != [] {
      CountStep(s, actions[0], f);
      CountRun(Apply(s, actions[0]), actions[1..], f);
    }
  }

  /** The account of a counting fold, over every run of concurrent, nested and re-entrant
      deliveries and reads: what was read, what is held and what was lost add up to the
      commits, so the count is right exactly when nothing was lost. */
  lemma CountAccounted(s0: State, actions: seq<Action>, f: FoldId)
    requires Initial(s0) && f in s0.folds && s0.folds[f].initial == 0
    requires Runs(s0, actions) && CountingRun(s0, actions, f)
    ensures f in Final(s0, actions).folds
    ensures var fs := Final(s0, actions).folds[f];
            && ReadIn(s0, actions, f) + fs.state + LostIn(s0, actions, f) == |fs.committed|
            && (ReadIn(s0, actions, f) + fs.state == |fs.committed| <==> LostIn(s0, actions, f) == 0)
  {
    CountRun(s0, actions, f);
  }

  // ----------------------------------------------------------- what moved the state

  predicate Writes(s: State, a: Action, f: FoldId)
    requires Enabled(s, a)
  {
    CommitsTo(s, a, f) || ReadsFrom(s, a, f)
  }

  /** The object that the last commit or read of `f` in the run left in place. */
  function LastWrite(s: State, actions: seq<Action>, f: FoldId): Option<Ref>
    requires Runs(s, actions)
    decreases |actions|
  {
    if actions == [] then None
    else
      var s' := Apply(s, actions[0]);
      var later := LastWrite(s', actions[1..], f);
      if later.Some? then later
      else if Writes(s, actions[0], f) && f in s'.folds then Some(s'.folds[f].state)
      else None
  }

  lemma {:induction false} LastWriteIsState(s: State, actions: seq<Action>, f: FoldId)
    requires Runs(s, actions) && f in s.folds
    ensures f in Final(s, actions).folds
    ensures Final(s, actions).folds[f].state ==
            if LastWrite(s, actions, f).Some? then LastWrite(s, actions, f).value else s.folds[f].state
    decreases |actions|
  {
    hide Enabled, EditOf, FoldsAfter, StacksAfter, DeliveriesAfter, WaitersAfter, HeapAfter;
    if actions != [] {
      DomainsGrow(s, actions[0]);
      if Apply(s, actions[0]).folds[f].state != s.folds[f].state { StateMovers(s, actions[0], f); }
      LastWriteIsState(Apply(s, actions[0]), actions[1..], f);
    }
  }

  /** Every commit and read of `f` in the run is this thread's. */
  predicate WritesOnlyBy(s: State, actions: seq<Action>, f: FoldId, t: Thread)
    requires Runs(s, actions)
    decreases |actions|
  {
    actions == [] ||
    ((Writes(s, actions[0], f) ==> actions[0].t == t) && WritesOnlyBy(Apply(s, actions[0]), actions[1..], f, t))
  }

  // ------------------------------------------------------------------- an open step

  /** The stack still stands on these frames, as they were. */
  predicate Above(base: seq<Frame>, st: seq<Frame>)
    decreases |st|
  {
    st == base || (|base| < |st| && Above(base, st[1..]))
  }

  predicate StaysAbove(s: State, actions: seq<Action>, t: Thread, base: seq<Frame>)
    requires Runs(s, actions)
    decreases |actions|
  {
    && t in s.stacks && Above(base, s.stacks[t])
    && (actions != [] ==> StaysAbove(Apply(s, actions[0]), actions[1..], t, base))
  }

  predicate IsStep(base: seq<Frame>, f: FoldId) {
    base != [] && base[0].Run? && base[0].fold == f && base[0].rpc.Stepping?
  }

  /** The run admits a step of `t`, and the step is running on that object ever since. */
  ghost predicate Opened(s0: State, before: seq<Action>, t: Thread, during: seq<Action>, f: FoldId) {
    && Runs(s0, before + [Admit(t)]) && Runs(s0, before + ([Admit(t)] + during))
    && var s := Final(s0, before + [Admit(t)]);
    && t in s.stacks && IsStep(s.stacks[t], f) && f in s.folds
    && s.stacks[t][0].rpc.before == s.folds[f].state
    && Runs(s, during) && StaysAbove(s, during, t, s.stacks[t])
    && Final(s, during) == Final(s0, before + ([Admit(t)] + during))
    && t in Final(s, during).stacks && Final(s, during).stacks[t] == s.stacks[t]
  }

  lemma NotOpenedByWake(st: seq<Frame>, base: seq<Frame>, f: FoldId)
    requires IsStep(base, f) && Above(base, WakeStack(st))
    ensures Above(base, st)
  {
    assert WakeStack(st)[1..] == st[1..];
  }

  lemma NotOpenedByEdit(st: seq<Frame>, e: Edit, base: seq<Frame>)
    requires base != [] && Above(base, Edited(st, e)) && !Above(base, st)
    requires e.Popped? || e.Moved? ==> st != []
    ensures (e.Pushed? || e.Moved?) && Edited(st, e) == base && e.fr == base[0]
  {
    match e
    case Keep =>
    case Pushed(fr) => assert ([fr] + st)[1..] == st;
    case Popped =>
    case Moved(fr) => assert ([fr] + st[1..])[1..] == st[1..];
  }

  /** Only an admission opens a step. */
  lemma OnlyAdmitOpens(s: State, a: Action, t: Thread, base: seq<Frame>, f: FoldId)
    requires Enabled(s, a) && t in s.stacks && IsStep(base, f)
    requires t in Apply(s, a).stacks && Above(base, Apply(s, a).stacks[t]) && !Above(base, s.stacks[t])
    ensures a == Admit(t) && Apply(s, a).stacks[t] == base
  {
    hide Enabled, EditOf, FoldsAfter, StacksAfter, DeliveriesAfter, WaitersAfter, HeapAfter, Above;
    OtherStacks(s, a);
    if By(a, t) {
      ActorStack(s, a);
      NotOpenedByEdit(s.stacks[t], EditOf(s, a), base);
      SteppingEdit(s, a);
    } else {
      NotOpenedByWake(s.stacks[t], base, f);
    }
  }

  lemma {:induction false} StaysAboveOn(s: State, actions: seq<Action>, a: Action, t: Thread, base: seq<Frame>)
    requires Runs(s, actions) && StaysAbove(s, actions, t, base)
    requires Enabled(Final(s, actions), a)
    requires t in Apply(Final(s, actions), a).stacks && Above(base, Apply(Final(s, actions), a).stacks[t])
    ensures Runs(s, actions + [a]) && Final(s, actions + [a]) == Apply(Final(s, actions), a)
    ensures StaysAbove(s, actions + [a], t, base)
    decreases |actions|
  {
    hide Enabled, EditOf, FoldsAfter, StacksAfter, DeliveriesAfter, WaitersAfter, HeapAfter, Above;
    if actions == [] {
      assert actions + [a] == [a];
      assert [a][1..] == [];
      assert Runs(Apply(s, a), [a][1..]);
    } else {
      assert (actions + [a])[1..] == actions[1..] + [a] && (actions + [a])[0] == actions[0];
      StaysAboveOn(Apply(s, actions[0]), actions[1..], a, t, base);
    }
  }

  /** Every running step was opened by an admission of its thread. */
  lemma {:induction false} StepWasOpened(s0: State, actions: seq<Action>, t: Thread, base: seq<Frame>, f: FoldId)
    returns (before: seq<Action>, during: seq<Action>)
    requires Initial(s0) && Runs(s0, actions) && IsStep(base, f)
    requires t in Final(s0, actions).stacks && Above(base, Final(s0, actions).stacks[t])
    ensures actions == before + ([Admit(t)] + during) && Runs(s0, before + [Admit(t)])
    ensures var s := Final(s0, before + [Admit(t)]);
            && t in s.stacks && s.stacks[t] == base
            && Runs(s, during) && Final(s, during) == Final(s0, actions) && StaysAbove(s, during, t, base)
    decreases |actions|
  {
    hide Enabled, EditOf, FoldsAfter, StacksAfter, DeliveriesAfter, WaitersAfter, HeapAfter, Above;
    if actions == [] {
      NoStepAtFirst(s0, t, base, f);
    } else {
      var front, a := actions[..|actions| - 1], actions[|actions| - 1];
      assert actions == front + [a];
      RunsSplit(s0, front, [a]);
      var s := Final(s0, front);
      LastApplied(s, a);
      OtherStacks(s, a);
      if Above(base, s.stacks[t]) {
        before, during := StepWasOpened(s0, front, t, base, f);
        StaysAboveOn(Final(s0, before + [Admit(t)]), during, a, t, base);
        assert actions == before + ([Admit(t)] + (during + [a]));
        during := during + [a];
      } else {
        OnlyAdmitOpens(s, a, t, base, f);
        AboveSelf(base);
        before, during := front, [];
        assert before + [Admit(t)] == actions;
      }
    }
  }

  lemma NoStepAtFirst(s0: State, t: Thread, base: seq<Frame>, f: FoldId)
    requires Initial(s0) && t in s0.stacks && IsStep(base, f)
    ensures !Above(base, s0.stacks[t])
  {
  }

  lemma AboveSelf(base: seq<Frame>)
    ensures Above(base, base)
  {
  }

  lemma LastApplied(s: State, a: Action)
    requires Runs(s, [a])
    ensures Enabled(s, a) && Final(s, [a]) == Apply(s, a)
  {
    hide Enabled, EditOf, FoldsAfter, StacksAfter, DeliveriesAfter, WaitersAfter, HeapAfter;
    assert [a][1..] == [];
    assert Final(Apply(s, a), [a][1..]) == Apply(s, a);
  }

  // --------------------------------------------------- exactly when a commit loses

  /** Inside the step that is now committing, the last commit or read of its fold left in
      place the very object this commit answers, and not the one it was given. */
  ghost predicate Overtaken(s0: State, actions: seq<Action>, a: Action, f: FoldId) {
    a.Commit? && exists before, during ::
      && actions == before + ([Admit(a.t)] + during)
      && Opened(s0, before, a.t, during, f)
      && var s := Final(s0, before + [Admit(a.t)]);
      && LastWrite(s, during, f) == Some(a.after) && s.folds[f].state != a.after
  }

  /** In an open step nobody but its own thread moves the fold. */
  lemma {:induction false} OpenWritesNested(s: State, actions: seq<Action>, t: Thread, base: seq<Frame>, f: FoldId)
    requires Inv(s) && Runs(s, actions) && f in s.folds && IsStep(base, f) && StaysAbove(s, actions, t, base)
    ensures WritesOnlyBy(s, actions, f, t)
    decreases |actions|
  {
    hide Enabled, EditOf, FoldsAfter, StacksAfter, DeliveriesAfter, WaitersAfter, HeapAfter, Inv;
    if actions != [] {
      AboveHolds(base, s.stacks[t], f);
      WriterHolds(s, actions[0], t, f);
      StepInv(s, actions[0]);
      DomainsGrow(s, actions[0]);
      OpenWritesNested(Apply(s, actions[0]), actions[1..], t, base, f);
    }
  }

  lemma {:induction false} AboveHolds(base: seq<Frame>, st: seq<Frame>, f: FoldId)
    requires IsStep(base, f) && Above(base, st)
    ensures Holds(st, f)
    decreases |st|
  {
    if st == base {
      assert Holding(st[0], f);
    } else {
      AboveHolds(base, st[1..], f);
      var i :| 0 <= i < |st[1..]| && Holding(st[1..][i], f);
      assert Holding(st[i + 1], f);
    }
  }

  lemma WriterHolds(s: State, a: Action, t: Thread, f: FoldId)
    requires Inv(s) && Enabled(s, a) && t in s.stacks && Holds(s.stacks[t], f)
    ensures Writes(s, a, f) ==> a.t == t
  {
    hide EditOf, FoldsAfter, StacksAfter, DeliveriesAfter, WaitersAfter, HeapAfter;
    hide Known, Counts, WaitersCounted, NoWakeLost, RegistryFree;
    if CommitsTo(s, a, f) {
      assert Holding(s.stacks[a.t][0], f);
      assert Holds(s.stacks[a.t], f);
    }
  }

  lemma AdmittedStep(s0: State, before: seq<Action>, t: Thread)
    requires Initial(s0) && Runs(s0, before + [Admit(t)])
    ensures var s := Final(s0, before + [Admit(t)]);
            && Inv(s) && AtRun(s, t)
            && (Top(s, t).rpc.Stepping? && Top(s, t).rpc.before == TopFold(s, t).state)
  {
    hide Enabled, EditOf, FoldsAfter, StacksAfter, DeliveriesAfter, WaitersAfter, HeapAfter;
    InitialInv(s0);
    RunInv(s0, before + [Admit(t)]);
    RunsSplit(s0, before, [Admit(t)]);
    RunInv(s0, before);
    LastApplied(Final(s0, before), Admit(t));
    Admitted(Final(s0, before), t);
  }

  /** For every step function: a commit loses an update exactly when, inside its own open
      step, the last nested commit or read of the fold left in place the very object the
      commit answers, another than it was given. Everything that moved the fold since its
      admission was done by its own thread. */
  lemma LosesExactly(s0: State, actions: seq<Action>, a: Action, f: FoldId)
    requires Initial(s0) && Runs(s0, actions) && f in s0.folds
    requires Enabled(Final(s0, actions), a) && CommitsTo(Final(s0, actions), a, f)
    ensures Loses(Final(s0, actions), a, f) <==> Overtaken(s0, actions, a, f)
    ensures exists before, during ::
              && actions == before + ([Admit(a.t)] + during) && Opened(s0, before, a.t, during, f)
              && WritesOnlyBy(Final(s0, before + [Admit(a.t)]), during, f, a.t)
  {
    hide EditOf, FoldsAfter, StacksAfter, DeliveriesAfter, WaitersAfter, HeapAfter;
    var s := Final(s0, actions);
    var base := s.stacks[a.t];
    AboveSelf(base);
    var before, during := StepWasOpened(s0, actions, a.t, base, f);
    AdmittedStep(s0, before, a.t);
    var s1 := Final(s0, before + [Admit(a.t)]);
    hide Inv;
    assert Opened(s0, before, a.t, during, f);
    OpenWritesNested(s1, during, a.t, base, f);
    OpenedDecides(s0, actions, a, f, before, during);
    forall pre, mid | actions == pre + ([Admit(a.t)] + mid) && Opened(s0, pre, a.t, mid, f)
      ensures Loses(s, a, f) <==>
                var r := Final(s0, pre + [Admit(a.t)]);
                LastWrite(r, mid, f) == Some(a.after) && r.folds[f].state != a.after
    {
      OpenedDecides(s0, actions, a, f, pre, mid);
    }
  }

  lemma OpenedDecides(s0: State, actions: seq<Action>, a: Action, f: FoldId, before: seq<Action>, during: seq<Action>)
    requires Runs(s0, actions) && Enabled(Final(s0, actions), a) && CommitsTo(Final(s0, actions), a, f)
    requires actions == before + ([Admit(a.t)] + during) && Opened(s0, before, a.t, during, f)
    ensures var s := Final(s0, before + [Admit(a.t)]);
            Loses(Final(s0, actions), a, f) <==> LastWrite(s, during, f) == Some(a.after) && s.folds[f].state != a.after
  {
    hide EditOf, FoldsAfter, StacksAfter, DeliveriesAfter, WaitersAfter, HeapAfter, StaysAbove;
    LastWriteIsState(Final(s0, before + [Admit(a.t)]), during, f);
  }

  // ------------------------------------------------------- the count is exactly right

  /** Some commit of the run to `f` was overtaken. */
  ghost predicate SomeOvertaken(s0: State, actions: seq<Action>, f: FoldId)
    requires Runs(s0, actions)
  {
    exists j :: 0 <= j < |actions| && OvertakenAt(s0, actions, j, f)
  }

  ghost predicate OvertakenAt(s0: State, actions: seq<Action>, j: nat, f: FoldId)
    requires Runs(s0, actions) && j < |actions|
  {
    && Runs(s0, actions[..j]) && Enabled(Final(s0, actions[..j]), actions[j])
    && CommitsTo(Final(s0, actions[..j]), actions[j], f)
    && Overtaken(s0, actions[..j], actions[j], f)
  }

  lemma {:induction false} LostSomewhere(s: State, actions: seq<Action>, f: FoldId)
    requires Runs(s, actions)
    ensures forall j | 0 <= j < |actions| :: Runs(s, actions[..j]) && Enabled(Final(s, actions[..j]), actions[j])
    ensures LostIn(s, actions, f) == 0 <==>
              forall j | 0 <= j < |actions| :: !Loses(Final(s, actions[..j]), actions[j], f)
    decreases |actions|
  {
    hide Enabled, EditOf, FoldsAfter, StacksAfter, DeliveriesAfter, WaitersAfter, HeapAfter, Loses;
    if actions != [] {
      var s', rest := Apply(s, actions[0]), actions[1..];
      LostSomewhere(s', rest, f);
      assert actions[..0] == [];
      forall j | 0 < j < |actions|
        ensures Runs(s, actions[..j]) && Final(s, actions[..j]) == Final(s', rest[..j - 1])
        ensures Enabled(Final(s, actions[..j]), actions[j]) && actions[j] == rest[j - 1]
      {
        assert actions[..j][0] == actions[0] && actions[..j][1..] == rest[..j - 1];
      }
      if LostIn(s, actions, f) == 0 {
        forall j | 0 <= j < |actions| ensures !Loses(Final(s, actions[..j]), actions[j], f) {
          if j > 0 { assert !Loses(Final(s', rest[..j - 1]), rest[j - 1], f); }
        }
      }
      if forall j | 0 <= j < |actions| :: !Loses(Final(s, actions[..j]), actions[j], f) {
        assert !Loses(Final(s, actions[..0]), actions[0], f);
        forall k | 0 <= k < |rest| ensures !Loses(Final(s', rest[..k]), rest[k], f) {
          assert !Loses(Final(s, actions[..k + 1]), actions[k + 1], f);
        }
      }
    }
  }

  /** A counting fold's count is right exactly when no commit was overtaken from inside
      its own step. */
  lemma CountExactly(s0: State, actions: seq<Action>, f: FoldId)
    requires Initial(s0) && f in s0.folds && s0.folds[f].initial == 0
    requires Runs(s0, actions) && CountingRun(s0, actions, f)
    ensures f in Final(s0, actions).folds
    ensures var fs := Final(s0, actions).folds[f];
            ReadIn(s0, actions, f) + fs.state == |fs.committed| <==> !SomeOvertaken(s0, actions, f)
  {
    hide EditOf, FoldsAfter, StacksAfter, DeliveriesAfter, WaitersAfter, HeapAfter, Overtaken, Enabled;
    CountAccounted(s0, actions, f);
    LostSomewhere(s0, actions, f);
    forall j | 0 <= j < |actions|
      ensures Loses(Final(s0, actions[..j]), actions[j], f) <==> OvertakenAt(s0, actions, j, f)
    {
      if CommitsTo(Final(s0, actions[..j]), actions[j], f) { LosesExactly(s0, actions[..j], actions[j], f); }
    }
  }

  // ------------------------------------------------ without reads: re-entry decides

  predicate NoReads(s: State, actions: seq<Action>, f: FoldId)
    requires Runs(s, actions)
    decreases |actions|
  {
    actions == [] || (!ReadsFrom(s, actions[0], f) && NoReads(Apply(s, actions[0]), actions[1..], f))
  }

  /** The run commits to `f`. */
  predicate Commits(s: State, actions: seq<Action>, f: FoldId)
    requires Runs(s, actions)
    decreases |actions|
  {
    actions != [] && (CommitsTo(s, actions[0], f) || Commits(Apply(s, actions[0]), actions[1..], f))
  }

  /** Every step of `f` opened on top of these frames was given at least `b`. */
  predicate AtLeast(base: seq<Frame>, st: seq<Frame>, f: FoldId, b: nat)
    decreases |st|
  {
    st == base ||
    (|base| < |st| && AtLeast(base, st[1..], f, b) && (IsStep(st, f) ==> st[0].rpc.before >= b))
  }

  lemma AtLeastWake(base: seq<Frame>, st: seq<Frame>, f: FoldId, b: nat)
    requires IsStep(base, f) && AtLeast(base, st, f, b)
    ensures AtLeast(base, WakeStack(st), f, b)
  {
    assert WakeStack(st)[1..] == st[1..];
  }

  lemma {:induction false} AboveShorter(base: seq<Frame>, st: seq<Frame>)
    requires Above(base, st)
    ensures |base| <= |st|
    decreases |st|
  {
  }

  lemma AtLeastEdit(base: seq<Frame>, st: seq<Frame>, e: Edit, f: FoldId, b: nat)
    requires AtLeast(base, st, f, b) && Above(base, Edited(st, e)) && IsStep(base, f)
    requires e.Popped? || e.Moved? ==> st != []
    requires (e.Pushed? || e.Moved?) && IsStep([e.fr], f) ==> e.fr.rpc.before >= b
    ensures AtLeast(base, Edited(st, e), f, b)
  {
    AboveShorter(base, Edited(st, e));
    match e
    case Keep =>
    case Pushed(fr) => assert ([fr] + st)[1..] == st;
    case Popped =>
    case Moved(fr) => assert ([fr] + st[1..])[1..] == st[1..];
  }

  /** A nested commit answers more than its outer step was given. */
  lemma NestedStep(s: State, a: Action, t: Thread, base: seq<Frame>, f: FoldId, b: nat)
    requires Inv(s) && Enabled(s, a) && CountsUp(s, a, f) && !ReadsFrom(s, a, f)
    requires f in s.folds && s.folds[f].state >= b && IsStep(base, f)
    requires t in s.stacks && AtLeast(base, s.stacks[t], f, b) && Above(base, s.stacks[t])
    requires t in Apply(s, a).stacks && Above(base, Apply(s, a).stacks[t])
    ensures f in Apply(s, a).folds && Apply(s, a).folds[f].state >= b
    ensures AtLeast(base, Apply(s, a).stacks[t], f, b)
    ensures CommitsTo(s, a, f) ==> Apply(s, a).folds[f].state > b
  {
    AboveHolds(base, s.stacks[t], f);
    WriterHolds(s, a, t, f);
    DomainsGrow(s, a);
    OtherStacks(s, a);
    hide Enabled, EditOf, StacksAfter, FoldsAfter, DeliveriesAfter, WaitersAfter, HeapAfter, Inv, AtLeast, Above;
    if By(a, t) {
      ActorStack(s, a);
      MovedStepsOn(s, a, f);
      AtLeastEdit(base, s.stacks[t], EditOf(s, a), f, b);
    } else {
      AtLeastWake(base, s.stacks[t], f, b);
    }
    if CommitsTo(s, a, f) {
      CommitTop(s, a, base, f);
      TopAtLeast(base, s.stacks[t], f, b);
      CommitSets(s, a, f);
    } else if Apply(s, a).folds[f].state != s.folds[f].state {
      StateMovers(s, a, f);
    }
  }

  lemma CommitSets(s: State, a: Action, f: FoldId)
    requires Enabled(s, a) && CommitsTo(s, a, f) && f in s.folds && f in Apply(s, a).folds
    ensures Apply(s, a).folds[f].state == a.after
  {
    hide EditOf, StacksAfter, DeliveriesAfter, WaitersAfter, HeapAfter;
  }

  /** The step that commits is not the one that stays open. */
  lemma CommitTop(s: State, a: Action, base: seq<Frame>, f: FoldId)
    requires Enabled(s, a) && CommitsTo(s, a, f) && IsStep(base, f)
    requires a.t in Apply(s, a).stacks && Above(base, Apply(s, a).stacks[a.t])
    ensures a.t in s.stacks && IsStep(s.stacks[a.t], f) && s.stacks[a.t] != base
  {
    hide FoldsAfter, StacksAfter, DeliveriesAfter, WaitersAfter, HeapAfter;
    ActorStack(s, a);
  }

  lemma TopAtLeast(base: seq<Frame>, st: seq<Frame>, f: FoldId, b: nat)
    requires AtLeast(base, st, f, b) && st != base && IsStep(st, f)
    ensures st[0].rpc.before >= b
  {
  }

  lemma {:induction false} NestedRun(s: State, actions: seq<Action>, t: Thread, base: seq<Frame>, f: FoldId, b: nat)
    requires Inv(s) && Runs(s, actions) && CountingRun(s, actions, f) && NoReads(s, actions, f)
    requires f in s.folds && s.folds[f].state >= b && IsStep(base, f)
    requires StaysAbove(s, actions, t, base) && AtLeast(base, s.stacks[t], f, b)
    ensures LastWrite(s, actions, f).Some? <==> Commits(s, actions, f)
    ensures LastWrite(s, actions, f).Some? ==> LastWrite(s, actions, f).value > b
    decreases |actions|
  {
    hide Enabled, EditOf, FoldsAfter, StacksAfter, DeliveriesAfter, WaitersAfter, HeapAfter, Inv, Above, AtLeast;
    hide CountsUp, ReadsFrom, CommitsTo;
    if actions != [] {
      StepInv(s, actions[0]);
      AboveAfter(s, actions, t, base);
      NestedStep(s, actions[0], t, base, f, b);
      NestedRun(Apply(s, actions[0]), actions[1..], t, base, f, b);
    }
  }

  lemma AboveAfter(s: State, actions: seq<Action>, t: Thread, base: seq<Frame>)
    requires Runs(s, actions) && StaysAbove(s, actions, t, base) && actions != []
    ensures t in s.stacks && Above(base, s.stacks[t])
    ensures t in Apply(s, actions[0]).stacks && Above(base, Apply(s, actions[0]).stacks[t])
  {
    hide Enabled, EditOf, FoldsAfter, StacksAfter, DeliveriesAfter, WaitersAfter, HeapAfter, Above;
  }

  lemma {:induction false} PartsOfRun(s: State, a: seq<Action>, b: seq<Action>, f: FoldId)
    requires Runs(s, a + b) && Runs(s, a) && Runs(Final(s, a), b)
    requires CountingRun(s, a + b, f) && NoReads(s, a + b, f)
    ensures CountingRun(Final(s, a), b, f) && NoReads(Final(s, a), b, f)
    decreases |a|
  {
    hide Enabled, EditOf, FoldsAfter, StacksAfter, DeliveriesAfter, WaitersAfter, HeapAfter, CountsUp, ReadsFrom;
    if a == [] {
      assert a + b == b;
    } else {
      assert (a + b)[0] == a[0] && (a + b)[1..] == a[1..] + b;
      PartsOfRun(Apply(s, a[0]), a[1..], b, f);
    }
  }

  /** The fold was delivered to from inside the step that is now committing, and that
      delivery committed. */
  ghost predicate Reentered(s0: State, actions: seq<Action>, a: Action, f: FoldId) {
    a.Commit? && exists before, during ::
      && actions == before + ([Admit(a.t)] + during)
      && Opened(s0, before, a.t, during, f)
      && Commits(Final(s0, before + [Admit(a.t)]), during, f)
  }

  lemma OpenedReenters(s0: State, actions: seq<Action>, a: Action, f: FoldId, before: seq<Action>, during: seq<Action>)
    requires Initial(s0) && Runs(s0, actions) && CountingRun(s0, actions, f) && NoReads(s0, actions, f)
    requires Enabled(Final(s0, actions), a) && CommitsTo(Final(s0, actions), a, f) && CountsUp(Final(s0, actions), a, f)
    requires actions == before + ([Admit(a.t)] + during) && Opened(s0, before, a.t, during, f)
    ensures Loses(Final(s0, actions), a, f) <==> Commits(Final(s0, before + [Admit(a.t)]), during, f)
  {
    OpenedDecides(s0, actions, a, f, before, during);
    OpenedNested(s0, actions, a.t, f, before, during);
    CommitGuard(Final(s0, actions), a, f);
    hide Enabled, EditOf, FoldsAfter, StacksAfter, DeliveriesAfter, WaitersAfter, HeapAfter, CommitsTo, Loses;
    LastWriteIsState(Final(s0, before + [Admit(a.t)]), during, f);
  }

  /** In an open step something was written exactly when something was committed, and
      then more than the step was given. */
  lemma OpenedNested(s0: State, actions: seq<Action>, t: Thread, f: FoldId, before: seq<Action>, during: seq<Action>)
    requires Initial(s0) && Runs(s0, actions) && CountingRun(s0, actions, f) && NoReads(s0, actions, f)
    requires actions == before + ([Admit(t)] + during) && Opened(s0, before, t, during, f)
    ensures var s := Final(s0, before + [Admit(t)]);
            && (LastWrite(s, during, f).Some? <==> Commits(s, during, f))
            && (LastWrite(s, during, f).Some? ==> LastWrite(s, during, f).value > s.folds[f].state)
  {
    hide Enabled, EditOf, FoldsAfter, StacksAfter, DeliveriesAfter, WaitersAfter, HeapAfter, StaysAbove, Inv;
    var s := Final(s0, before + [Admit(t)]);
    AdmittedStep(s0, before, t);
    assert actions == (before + [Admit(t)]) + during;
    PartsOfRun(s0, before + [Admit(t)], during, f);
    NestedRun(s, during, t, s.stacks[t], f, s.folds[f].state);
  }

  /** What a counting commit finds in place: the object it was given, or its answer. */
  lemma CommitGuard(s: State, a: Action, f: FoldId)
    requires Enabled(s, a) && CommitsTo(s, a, f) && CountsUp(s, a, f) && f in s.folds
    ensures s.stacks[a.t] != [] && IsStep(s.stacks[a.t], f)
    ensures s.folds[f].state == Top(s, a.t).rpc.before || s.folds[f].state == a.after
    ensures a.after == Top(s, a.t).rpc.before + 1
  {
    hide EditOf, FoldsAfter, StacksAfter, DeliveriesAfter, WaitersAfter, HeapAfter;
  }

  /** While nobody reads the fold, a counting commit loses an update exactly when its own
      step made the fold be delivered to again and that delivery committed. */
  lemma ReentryLosesExactly(s0: State, actions: seq<Action>, a: Action, f: FoldId)
    requires Initial(s0) && f in s0.folds
    requires Runs(s0, actions) && CountingRun(s0, actions, f) && NoReads(s0, actions, f)
    requires Enabled(Final(s0, actions), a) && CommitsTo(Final(s0, actions), a, f) && CountsUp(Final(s0, actions), a, f)
    ensures Loses(Final(s0, actions), a, f) <==> Reentered(s0, actions, a, f)
  {
    LosesExactly(s0, actions, a, f);
    hide Enabled, EditOf, FoldsAfter, StacksAfter, DeliveriesAfter, WaitersAfter, HeapAfter, CommitsTo, Opened, Loses;
    forall before, during | actions == before + ([Admit(a.t)] + during) && Opened(s0, before, a.t, during, f)
      ensures Loses(Final(s0, actions), a, f) <==> Commits(Final(s0, before + [Admit(a.t)]), during, f)
    {
      OpenedReenters(s0, actions, a, f, before, during);
    }
  }

  lemma {:induction false} PrefixOfRun(s: State, actions: seq<Action>, j: nat, f: FoldId)
    requires Runs(s, actions) && CountingRun(s, actions, f) && NoReads(s, actions, f) && j < |actions|
    ensures Runs(s, actions[..j]) && CountingRun(s, actions[..j], f) && NoReads(s, actions[..j], f)
    ensures Enabled(Final(s, actions[..j]), actions[j]) && CountsUp(Final(s, actions[..j]), actions[j], f)
    decreases j
  {
    hide Enabled, EditOf, FoldsAfter, StacksAfter, DeliveriesAfter, WaitersAfter, HeapAfter, CountsUp, ReadsFrom;
    if j == 0 {
      assert actions[..0] == [];
    } else {
      assert actions[..j][0] == actions[0] && actions[..j][1..] == actions[1..][..j - 1];
      PrefixOfRun(Apply(s, actions[0]), actions[1..], j - 1, f);
    }
  }

  lemma {:induction false} NoneRead(s: State, actions: seq<Action>, f: FoldId)
    requires Runs(s, actions) && NoReads(s, actions, f)
    ensures ReadIn(s, actions, f) == 0
    decreases |actions|
  {
    hide Enabled, EditOf, FoldsAfter, StacksAfter, DeliveriesAfter, WaitersAfter, HeapAfter, ReadsFrom;
    if actions != [] { NoneRead(Apply(s, actions[0]), actions[1..], f); }
  }

  /** While nobody reads it, a counting fold holds the number of its commits exactly when
      no step of the fold that commits made the fold commit again from inside it. */
  lemma CountWithoutReads(s0: State, actions: seq<Action>, f: FoldId)
    requires Initial(s0) && f in s0.folds && s0.folds[f].initial == 0
    requires Runs(s0, actions) && CountingRun(s0, actions, f) && NoReads(s0, actions, f)
    ensures f in Final(s0, actions).folds
    ensures Final(s0, actions).folds[f].state == |Final(s0, actions).folds[f].committed| <==>
              !exists j :: 0 <= j < |actions| && ReenteredAt(s0, actions, j, f)
  {
    hide EditOf, FoldsAfter, StacksAfter, DeliveriesAfter, WaitersAfter, HeapAfter, Enabled, Reentered, Loses;
    CountAccounted(s0, actions, f);
    NoneRead(s0, actions, f);
    LostSomewhere(s0, actions, f);
    forall j | 0 <= j < |actions|
      ensures Loses(Final(s0, actions[..j]), actions[j], f) <==> ReenteredAt(s0, actions, j, f)
    {
      PrefixOfRun(s0, actions, j, f);
      if CommitsTo(Final(s0, actions[..j]), actions[j], f) {
        ReentryLosesExactly(s0, actions[..j], actions[j], f);
      } else {
        OnlyCommitsLose(Final(s0, actions[..j]), actions[j], f);
      }
    }
  }

  lemma OnlyCommitsLose(s: State, a: Action, f: FoldId)
    requires Enabled(s, a)
    ensures Loses(s, a, f) ==> CommitsTo(s, a, f)
  {
    hide Enabled;
  }

  ghost predicate ReenteredAt(s0: State, actions: seq<Action>, j: nat, f: FoldId)
    requires Runs(s0, actions) && j < |actions|
  {
    && Runs(s0, actions[..j]) && Enabled(Final(s0, actions[..j]), actions[j])
    && CommitsTo(Final(s0, actions[..j]), actions[j], f)
    && Reentered(s0, actions[..j], actions[j], f)
  }
}
