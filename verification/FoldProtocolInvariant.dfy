/** What every step of the delivery protocol keeps. */
module FoldProtocolInvariant {
  import opened DeliveryTables
  import opened FoldProtocol

  // ------------------------------------------------------------ the invariant

  /** Only the innermost frame of a thread may be outside user code, and every
      frame names a fold and, while stepping, an object that exist. */
  predicate StackKnown(folds: set<FoldId>, refs: set<Ref>, st: seq<Frame>) {
    && (forall i | 1 <= i < |st| :: InUserCode(st[i]))
    && (forall i | 0 <= i < |st| :: FrameKnown(folds, refs, st[i]))
  }

  predicate FrameKnown(folds: set<FoldId>, refs: set<Ref>, fr: Frame) {
    fr.fold in folds && (fr.Run? && fr.rpc.Stepping? ==> fr.rpc.before in refs)
  }

  predicate FoldKnown(refs: set<Ref>, fs: FoldState) {
    fs.state in refs && fs.initial in refs
  }

  predicate Known(s: State) {
    && (forall t | t in s.stacks :: StackKnown(s.folds.Keys, s.heap.Keys, s.stacks[t]))
    && (forall f | f in s.folds :: FoldKnown(s.heap.Keys, s.folds[f]))
  }

  function OpenIn(s: State, f: FoldId, t: Thread): nat {
    if t in s.stacks then OpenDeliveries(s.stacks[t], f) else 0
  }

  /** The in-flight table equals the open frames, thread by thread, and keeps no zero. */
  ghost predicate Counts(s: State) {
    Tidy(s.deliveries) && forall f, t :: CountOf(s.deliveries, f, t) == OpenIn(s, f, t)
  }

  function WaitingThreads(s: State): set<Thread> {
    set t | t in s.stacks && Waiting(s.stacks[t])
  }

  predicate WaitersCounted(s: State) {
    s.waiters == |WaitingThreads(s)|
  }

  /** The registry lock and every state lock have at most one owner. */
  ghost predicate Exclusive(s: State) {
    && (forall t, u | t in s.stacks && u in s.stacks && t != u ::
          !(HoldsLock(s.stacks[t]) && HoldsLock(s.stacks[u])))
    && (forall t, u, f | t in s.stacks && u in s.stacks && t != u ::
          !(Holds(s.stacks[t], f) && Holds(s.stacks[u], f)))
  }

  predicate OwesFor(st: seq<Frame>, f: FoldId) {
    st != [] && InDebt(st[0], f)
  }

  /** Some deliverer has moved `f` on and still owes a notification. */
  ghost predicate Debt(s: State, f: FoldId) {
    exists u :: u in s.stacks && OwesFor(s.stacks[u], f)
  }

  /** The thread sleeps on `f`, or has read a version of it and is about to compare. */
  ghost predicate Covered(s: State, t: Thread)
    requires t in s.stacks && s.stacks[t] != [] && s.stacks[t][0].fold in s.folds
  {
    var fr := s.stacks[t][0];
    var fs := s.folds[fr.fold];
    && (fr.Wait? && fr.wpc.Asleep? && fs.version != fs.consumed ==> Debt(s, fr.fold))
    && (fr.Wait? && fr.wpc.SeenVersion? && fs.version != fr.wpc.seen ==> Debt(s, fr.fold))
  }

  ghost predicate NoWakeLost(s: State)
    requires Known(s)
  {
    forall t | t in s.stacks && s.stacks[t] != [] :: Covered(s, t)
  }

  ghost predicate Inv(s: State) {
    Known(s) && Counts(s) && WaitersCounted(s) && Exclusive(s) && NoWakeLost(s)
  }

  // ------------------------------------------------------------ small helpers

  lemma OpenPush(fr: Frame, st: seq<Frame>, f: FoldId)
    ensures OpenDeliveries([fr] + st, f) == (if InFlight(fr, f) then 1 else 0) + OpenDeliveries(st, f)
  {
    assert ([fr] + st)[1..] == st;
  }

  lemma OpenWake(st: seq<Frame>, f: FoldId)
    ensures OpenDeliveries(WakeStack(st), f) == OpenDeliveries(st, f)
  {
    if IsAsleep(st) { OpenPush(Wait(st[0].fold, Woken), st[1..], f); }
  }

  lemma HoldsPush(fr: Frame, st: seq<Frame>, f: FoldId)
    ensures Holds([fr] + st, f) <==> Holding(fr, f) || Holds(st, f)
  {
    var st' := [fr] + st;
    if Holding(fr, f) { assert Holding(st'[0], f); }
    if Holds(st, f) {
      var i :| 0 <= i < |st| && Holding(st[i], f);
      assert Holding(st'[i + 1], f);
    }
    if Holds(st', f) {
      var i :| 0 <= i < |st'| && Holding(st'[i], f);
      if i > 0 { assert Holding(st[i - 1], f); }
    }
  }

  lemma HoldsSplit(st: seq<Frame>, f: FoldId)
    requires st != []
    ensures Holds(st, f) <==> Holding(st[0], f) || Holds(st[1..], f)
  {
    HoldsPush(st[0], st[1..], f);
    assert [st[0]] + st[1..] == st;
  }

  lemma HoldsWake(st: seq<Frame>, f: FoldId)
    ensures Holds(WakeStack(st), f) <==> Holds(st, f)
  {
    if IsAsleep(st) {
      HoldsSplit(st, f);
      HoldsPush(Wait(st[0].fold, Woken), st[1..], f);
    }
  }

  /** The thread that performs an action; an abandonment belongs to no thread. */
  predicate By(a: Action, t: Thread) {
    !a.Abandon? && a.t == t
  }

  /** An action touches no stack but its own thread's, except to wake sleepers. */
  lemma OtherStacks(s: State, a: Action)
    requires Enabled(s, a)
    ensures Apply(s, a).stacks.Keys == s.stacks.Keys
    ensures forall u | u in s.stacks && !By(a, u) ::
              Apply(s, a).stacks[u] == s.stacks[u] || Apply(s, a).stacks[u] == WakeStack(s.stacks[u])
  {
    hide FoldsAfter, DeliveriesAfter, WaitersAfter, HeapAfter;
  }

  // --------------------------------------------------------------- preservation

  lemma StackWider(s: State, s': State, st: seq<Frame>)
    requires StackKnown(s.folds.Keys, s.heap.Keys, st)
    requires s.folds.Keys <= s'.folds.Keys && s.heap.Keys <= s'.heap.Keys
    ensures StackKnown(s'.folds.Keys, s'.heap.Keys, st)
  {
  }

  lemma WakeKnown(s: State, st: seq<Frame>)
    requires StackKnown(s.folds.Keys, s.heap.Keys, st)
    ensures StackKnown(s.folds.Keys, s.heap.Keys, WakeStack(st))
  {
  }

  lemma DomainsGrow(s: State, a: Action)
    requires Enabled(s, a)
    ensures s.folds.Keys == Apply(s, a).folds.Keys && s.heap.Keys <= Apply(s, a).heap.Keys
  {
    hide EditOf, StacksAfter, DeliveriesAfter, WaitersAfter;
  }

  lemma FoldsKnown(s: State, a: Action)
    requires Known(s) && Enabled(s, a)
    ensures forall f | f in Apply(s, a).folds :: FoldKnown(Apply(s, a).heap.Keys, Apply(s, a).folds[f])
  {
    hide EditOf, StacksAfter, DeliveriesAfter, WaitersAfter;
    DomainsGrow(s, a);
  }

  lemma ActorStack(s: State, a: Action)
    requires Enabled(s, a)
    ensures a.t in s.stacks && a.t in Apply(s, a).stacks
    ensures EditOf(s, a).Popped? || EditOf(s, a).Moved? ==> s.stacks[a.t] != []
    ensures !a.Abandon? ==> Apply(s, a).stacks[a.t] == Edited(s.stacks[a.t], EditOf(s, a))
  {
    hide FoldsAfter, DeliveriesAfter, WaitersAfter, HeapAfter;
  }

  /** A pushed frame sits on user code; a moved frame keeps its fold. */
  lemma EditLegal(s: State, a: Action)
    requires Known(s) && Enabled(s, a) && !a.Abandon?
    ensures EditOf(s, a).Pushed? ==> MayCall(s, a.t)
    ensures EditOf(s, a).Pushed? || EditOf(s, a).Moved? ==>
              FrameKnown(s.folds.Keys, Apply(s, a).heap.Keys, EditOf(s, a).fr)
  {
    EditFolds(s, a);
    hide EditOf, FoldsAfter, StacksAfter, DeliveriesAfter, WaitersAfter, Known, RegistryFree, StateFree;
    TopKnown(s, a.t);
    var e := EditOf(s, a);
    if (e.Pushed? || e.Moved?) && e.fr.Run? && e.fr.rpc.Stepping? { SteppingEdit(s, a); }
  }

  lemma EditFolds(s: State, a: Action)
    requires Enabled(s, a) && !a.Abandon?
    ensures EditOf(s, a).Pushed? ==> MayCall(s, a.t)
    ensures EditOf(s, a).Pushed? || EditOf(s, a).Moved? ==> EditOf(s, a).fr.fold in s.folds
  {
    hide FoldsAfter, StacksAfter, DeliveriesAfter, WaitersAfter, HeapAfter, RegistryFree, StateFree, Conflicts;
  }

  /** Only an admission starts a step, and on the state its fold holds. */
  lemma SteppingEdit(s: State, a: Action)
    requires Enabled(s, a) && !a.Abandon?
    requires EditOf(s, a).Pushed? || EditOf(s, a).Moved?
    requires EditOf(s, a).fr.Run? && EditOf(s, a).fr.rpc.Stepping?
    ensures a.Admit? && AtRun(s, a.t) && EditOf(s, a).fr.rpc.before == TopFold(s, a.t).state
  {
    hide FoldsAfter, StacksAfter, DeliveriesAfter, WaitersAfter, HeapAfter, RegistryFree, StateFree, Conflicts;
  }

  lemma TopKnown(s: State, t: Thread)
    requires Known(s)
    ensures t in s.stacks && s.stacks[t] != [] ==> FrameKnown(s.folds.Keys, s.heap.Keys, s.stacks[t][0])
    ensures AtRun(s, t) ==> FoldKnown(s.heap.Keys, TopFold(s, t))
  {
    if t in s.stacks { assert StackKnown(s.folds.Keys, s.heap.Keys, s.stacks[t]); }
  }

  lemma ActorKnown(s: State, a: Action)
    requires Known(s) && Enabled(s, a) && !a.Abandon?
    ensures a.t in s.stacks
    ensures StackKnown(s.folds.Keys, Apply(s, a).heap.Keys, Apply(s, a).stacks[a.t])
  {
    hide Enabled, EditOf, FoldsAfter, StacksAfter, DeliveriesAfter, WaitersAfter, HeapAfter;
    DomainsGrow(s, a);
    ActorStack(s, a);
    EditLegal(s, a);
    StackWider(s, Apply(s, a), s.stacks[a.t]);
    StackEditKnown(s.folds.Keys, Apply(s, a).heap.Keys, s.stacks[a.t], EditOf(s, a));
  }

  lemma StackEditKnown(folds: set<FoldId>, refs: set<Ref>, st: seq<Frame>, e: Edit)
    requires StackKnown(folds, refs, st)
    requires e.Popped? || e.Moved? ==> st != []
    requires e.Pushed? ==> st == [] || InUserCode(st[0])
    requires e.Pushed? || e.Moved? ==> FrameKnown(folds, refs, e.fr)
    ensures StackKnown(folds, refs, Edited(st, e))
  {
  }

  lemma StepKnown(s: State, a: Action)
    requires Known(s) && Enabled(s, a)
    ensures Known(Apply(s, a))
  {
    hide Enabled, EditOf, FoldsAfter, StacksAfter, DeliveriesAfter, WaitersAfter, HeapAfter;
    var s' := Apply(s, a);
    forall t | t in s'.stacks
      ensures StackKnown(s'.folds.Keys, s'.heap.Keys, s'.stacks[t])
    {
      OtherStacks(s, a);
      assert StackKnown(s.folds.Keys, s.heap.Keys, s.stacks[t]);
      DomainsGrow(s, a);
      if By(a, t) { ActorKnown(s, a); } else { StackWider(s, s', s.stacks[t]); WakeKnown(s', s.stacks[t]); }
    }
    FoldsKnown(s, a);
  }

  // ---------------------------------------------------------- in-flight counts

  /** A claim adds one open delivery, a release takes one, and nothing else does. */
  function Change(s: State, a: Action, f: FoldId): int
    requires Enabled(s, a)
  {
    match a
    case Begin(t) => if TopFold(s, t).active && Top(s, t).fold == f then 1 else 0
    case End(t) => if Top(s, t).fold == f then -1 else 0
    case _ => 0
  }

  lemma OpenEdited(st: seq<Frame>, e: Edit, f: FoldId)
    requires e.Popped? || e.Moved? ==> st != []
    ensures OpenDeliveries(Edited(st, e), f) == OpenDeliveries(st, f)
            + (if (e.Pushed? || e.Moved?) && InFlight(e.fr, f) then 1 else 0)
            - (if (e.Popped? || e.Moved?) && InFlight(st[0], f) then 1 else 0)
  {
    match e
    case Keep =>
    case Pushed(fr) => OpenPush(fr, st, f);
    case Popped =>
    case Moved(fr) => OpenPush(fr, st[1..], f);
  }

  lemma ActorOpen(s: State, a: Action, f: FoldId)
    requires Enabled(s, a) && !a.Abandon?
    ensures a.t in s.stacks
    ensures OpenDeliveries(Apply(s, a).stacks[a.t], f) == OpenDeliveries(s.stacks[a.t], f) + Change(s, a, f)
  {
    hide FoldsAfter, StacksAfter, DeliveriesAfter, WaitersAfter, HeapAfter;
    ActorStack(s, a);
    OpenEdited(s.stacks[a.t], EditOf(s, a), f);
  }

  lemma TableStep(s: State, a: Action)
    requires Counts(s) && Enabled(s, a)
    ensures forall g, u :: CountOf(Apply(s, a).deliveries, g, u) ==
                           CountOf(s.deliveries, g, u) + (if By(a, u) then Change(s, a, g) else 0)
    ensures Tidy(Apply(s, a).deliveries)
  {
    hide EditOf, FoldsAfter, StacksAfter, WaitersAfter, HeapAfter, CountOf, Raised, Lowered, Tidy;
    match a
    case Begin(t) => RaisedMovesOne(s.deliveries, Top(s, t).fold, t);
    case End(t) =>
      var f := Top(s, t).fold;
      assert CountOf(s.deliveries, f, t) == OpenIn(s, f, t);
      LoweredMovesOne(s.deliveries, f, t);
    case _ =>
  }

  lemma OpenStep(s: State, a: Action, f: FoldId, u: Thread)
    requires Enabled(s, a)
    ensures OpenIn(Apply(s, a), f, u) == OpenIn(s, f, u) + (if By(a, u) then Change(s, a, f) else 0)
  {
    hide Enabled, EditOf, FoldsAfter, StacksAfter, DeliveriesAfter, WaitersAfter, HeapAfter, OpenDeliveries, Change;
    OtherStacks(s, a);
    if By(a, u) { ActorOpen(s, a, f); } else if u in s.stacks { OpenWake(s.stacks[u], f); }
  }

  lemma StepCounts(s: State, a: Action)
    requires Counts(s) && Enabled(s, a)
    ensures Counts(Apply(s, a))
  {
    TableStep(s, a);
    var s' := Apply(s, a);
    forall f, u ensures CountOf(s'.deliveries, f, u) == OpenIn(s', f, u) {
      OpenStep(s, a, f, u);
      assert CountOf(s.deliveries, f, u) == OpenIn(s, f, u);
      hide *;
    }
  }

  // ------------------------------------------------------------- waiter count

  /** The steps a blocked read takes of itself. */
  predicate WaitAction(a: Action) {
    a.StartWait? || a.Join? || a.ReadActive? || a.ReadVersion? || a.Compare? ||
    a.TimeOut? || a.Retake? || a.Leave? || a.Collect?
  }

  /** No other step starts or leaves its thread in a blocked read. */
  lemma NotWaiting(s: State, a: Action)
    requires Known(s) && Enabled(s, a) && !a.Abandon? && !WaitAction(a)
    ensures a.t in s.stacks && a.t in Apply(s, a).stacks
    ensures s.stacks[a.t] != [] ==> !s.stacks[a.t][0].Wait?
    ensures Apply(s, a).stacks[a.t] != [] ==> !Apply(s, a).stacks[a.t][0].Wait?
  {
    hide FoldsAfter, StacksAfter, DeliveriesAfter, WaitersAfter, HeapAfter;
    ActorStack(s, a);
    assert StackKnown(s.folds.Keys, s.heap.Keys, s.stacks[a.t]);
  }

  /** What a step of a blocked read does to its thread's innermost frame. */
  predicate WaitEffect(a: Action, before: seq<Frame>, after: seq<Frame>) {
    match a
    case StartWait(_, f) => after == [Wait(f, Arriving)] + before && (before == [] || InUserCode(before[0]))
    case Collect(_) => before != [] && before[0].Wait? && before[0].wpc.Reading? && after == before[1..]
    case _ =>
      && before != [] && before[0].Wait? && after != [] && after[0].Wait?
      && after[0].fold == before[0].fold && WaitMove(a, before[0].wpc, after[0].wpc)
  }

  predicate WaitMove(a: Action, before: WaitPc, after: WaitPc) {
    match a
    case Join(_) => before.Arriving? && after.Testing?
    case ReadActive(_) => before.Testing? && (after.SeenActive? || after.Leaving?)
    case ReadVersion(_) => before.SeenActive? && after.SeenVersion?
    case Compare(_, _) => before.SeenVersion? && (after.Asleep? || after.Leaving?)
    case TimeOut(_) => before.Asleep? && after.Woken?
    case Retake(_) => before.Woken? && after.Testing?
    case Leave(_) => before.Leaving? && after.Reading?
    case _ => false
  }

  lemma WaitTops(s: State, a: Action)
    requires Enabled(s, a) && WaitAction(a)
    ensures a.t in s.stacks && a.t in Apply(s, a).stacks
    ensures WaitEffect(a, s.stacks[a.t], Apply(s, a).stacks[a.t])
    ensures a.Join? || a.Retake? ==> RegistryFree(s)
  {
    hide FoldsAfter, StacksAfter, DeliveriesAfter, WaitersAfter, HeapAfter, StateFree, RegistryFree;
    ActorStack(s, a);
  }

  lemma BelowCalls(s: State, t: Thread)
    requires Known(s)
    ensures t in s.stacks && |s.stacks[t]| >= 2 ==> InUserCode(s.stacks[t][1])
  {
    if t in s.stacks { assert StackKnown(s.folds.Keys, s.heap.Keys, s.stacks[t]); }
  }

  lemma ActorWaiting(s: State, a: Action)
    requires Known(s) && Enabled(s, a) && !a.Abandon?
    ensures a.t in s.stacks
    ensures Waiting(s.stacks[a.t]) <==> (Waiting(Apply(s, a).stacks[a.t]) && !a.Join?) || a.Leave?
    ensures a.Join? ==> Waiting(Apply(s, a).stacks[a.t])
    ensures a.Leave? ==> !Waiting(Apply(s, a).stacks[a.t])
  {
    hide Enabled, EditOf, FoldsAfter, StacksAfter, DeliveriesAfter, WaitersAfter, HeapAfter, Known;
    BelowCalls(s, a.t);
    if WaitAction(a) { WaitTops(s, a); } else { NotWaiting(s, a); }
  }

  lemma WaitingStep(s: State, a: Action, u: Thread)
    requires Known(s) && Enabled(s, a) && u in s.stacks
    ensures u in Apply(s, a).stacks
    ensures Waiting(Apply(s, a).stacks[u]) <==>
              (Waiting(s.stacks[u]) && !(By(a, u) && a.Leave?)) || (By(a, u) && a.Join?)
  {
    hide Enabled, EditOf, FoldsAfter, StacksAfter, DeliveriesAfter, WaitersAfter, HeapAfter;
    OtherStacks(s, a);
    if By(a, u) { ActorWaiting(s, a); }
  }

  lemma WaitersStep(s: State, a: Action)
    requires Enabled(s, a)
    ensures Apply(s, a).waiters == s.waiters + (if a.Join? then 1 else if a.Leave? && s.waiters > 0 then -1 else 0)
  {
    hide Enabled, EditOf, FoldsAfter, StacksAfter, DeliveriesAfter, HeapAfter;
  }

  lemma WaitingSet(s: State, a: Action)
    requires Known(s) && Enabled(s, a)
    ensures var w, w' := WaitingThreads(s), WaitingThreads(Apply(s, a));
            if a.Join? then w' == w + {a.t} && a.t !in w
            else if a.Leave? then w' == w - {a.t} && a.t in w
            else w' == w
  {
    hide Enabled, EditOf, FoldsAfter, StacksAfter, DeliveriesAfter, WaitersAfter, HeapAfter, Waiting;
    OtherStacks(s, a);
    forall u | u in s.stacks
      ensures u in WaitingThreads(Apply(s, a)) <==>
                (u in WaitingThreads(s) && !(By(a, u) && a.Leave?)) || (By(a, u) && a.Join?)
    {
      WaitingStep(s, a, u);
    }
    if a.Join? || a.Leave? { ActorWaiting(s, a); }
  }

  lemma StepWaiters(s: State, a: Action)
    requires Known(s) && WaitersCounted(s) && Enabled(s, a)
    ensures WaitersCounted(Apply(s, a))
  {
    hide Enabled, EditOf, FoldsAfter, StacksAfter, DeliveriesAfter, WaitersAfter, HeapAfter, WaitingThreads;
    WaitersStep(s, a);
    WaitingSet(s, a);
  }

  // -------------------------------------------------------------------- locks

  lemma ActorLock(s: State, a: Action)
    requires Known(s) && Enabled(s, a) && !a.Abandon?
    ensures a.t in s.stacks
    ensures HoldsLock(Apply(s, a).stacks[a.t]) ==> HoldsLock(s.stacks[a.t]) || RegistryFree(s)
  {
    hide Enabled, EditOf, FoldsAfter, StacksAfter, DeliveriesAfter, WaitersAfter, HeapAfter, Known;
    BelowCalls(s, a.t);
    if WaitAction(a) { WaitTops(s, a); } else { NotWaiting(s, a); }
  }

  lemma HoldsEdited(st: seq<Frame>, e: Edit, f: FoldId)
    requires e.Popped? || e.Moved? ==> st != []
    ensures Holds(Edited(st, e), f) ==> Holds(st, f) || ((e.Pushed? || e.Moved?) && Holding(e.fr, f))
  {
    match e
    case Keep =>
    case Pushed(fr) => HoldsPush(fr, st, f);
    case Popped => HoldsSplit(st, f);
    case Moved(fr) => HoldsSplit(st, f); HoldsPush(fr, st[1..], f);
  }

  lemma ActorHolds(s: State, a: Action, f: FoldId)
    requires Enabled(s, a) && !a.Abandon?
    ensures a.t in s.stacks
    ensures Holds(Apply(s, a).stacks[a.t], f) ==> Holds(s.stacks[a.t], f) || StateFree(s, a.t, f)
  {
    hide FoldsAfter, StacksAfter, DeliveriesAfter, WaitersAfter, HeapAfter;
    ActorStack(s, a);
    var st := s.stacks[a.t];
    HoldsEdited(st, EditOf(s, a), f);
    if st != [] { HoldsSplit(st, f); }
  }

  lemma LockStep(s: State, a: Action, u: Thread)
    requires Known(s) && Enabled(s, a) && u in s.stacks
    ensures u in Apply(s, a).stacks
    ensures HoldsLock(Apply(s, a).stacks[u]) ==> HoldsLock(s.stacks[u]) || (By(a, u) && RegistryFree(s))
  {
    hide Enabled, EditOf, FoldsAfter, StacksAfter, DeliveriesAfter, WaitersAfter, HeapAfter;
    OtherStacks(s, a);
    if By(a, u) { ActorLock(s, a); }
  }

  lemma StateLockStep(s: State, a: Action, u: Thread, f: FoldId)
    requires Enabled(s, a) && u in s.stacks
    ensures u in Apply(s, a).stacks
    ensures Holds(Apply(s, a).stacks[u], f) ==> Holds(s.stacks[u], f) || (By(a, u) && StateFree(s, u, f))
  {
    hide Enabled, EditOf, FoldsAfter, StacksAfter, DeliveriesAfter, WaitersAfter, HeapAfter;
    OtherStacks(s, a);
    if By(a, u) { ActorHolds(s, a, f); } else { HoldsWake(s.stacks[u], f); }
  }

  lemma StepExclusive(s: State, a: Action)
    requires Known(s) && Exclusive(s) && Enabled(s, a)
    ensures Exclusive(Apply(s, a))
  {
    hide Enabled, EditOf, FoldsAfter, StacksAfter, DeliveriesAfter, WaitersAfter, HeapAfter;
    var s' := Apply(s, a);
    OtherStacks(s, a);
    forall t, u | t in s'.stacks && u in s'.stacks && t != u
      ensures !(HoldsLock(s'.stacks[t]) && HoldsLock(s'.stacks[u]))
    {
      LockStep(s, a, t);
      LockStep(s, a, u);
    }
    forall t, u, f | t in s'.stacks && u in s'.stacks && t != u
      ensures !(Holds(s'.stacks[t], f) && Holds(s'.stacks[u], f))
    {
      StateLockStep(s, a, t, f);
      StateLockStep(s, a, u, f);
    }
  }

  // ----------------------------------------------------------------- wake-ups

  /** A debt ends only with a notification, or unseen by any waiter. */
  lemma DebtKept(s: State, a: Action, f: FoldId)
    requires Known(s) && Enabled(s, a) && Debt(s, f)
    requires !a.Notify? && !(a.ReadWaiters? && s.waiters == 0)
    ensures Debt(Apply(s, a), f)
  {
    hide FoldsAfter, StacksAfter, DeliveriesAfter, WaitersAfter, HeapAfter, Known, StateFree, RegistryFree;
    var u :| u in s.stacks && OwesFor(s.stacks[u], f);
    OtherStacks(s, a);
    if By(a, u) { DebtorKeeps(s, a, f); } else { assert OwesFor(WakeStack(s.stacks[u]), f); }
    assert OwesFor(Apply(s, a).stacks[u], f);
  }

  /** A debtor pays by its notify, or finds nobody waiting, and does nothing else. */
  lemma DebtorKeeps(s: State, a: Action, f: FoldId)
    requires Enabled(s, a) && !a.Abandon? && OwesFor(s.stacks[a.t], f)
    requires !a.Notify? && !(a.ReadWaiters? && s.waiters == 0)
    ensures a.t in Apply(s, a).stacks && OwesFor(Apply(s, a).stacks[a.t], f)
  {
    hide FoldsAfter, StacksAfter, DeliveriesAfter, WaitersAfter, HeapAfter, StateFree, RegistryFree;
    assert a.ReadWaiters?;
    ActorStack(s, a);
  }

  lemma NobodyWaits(s: State, t: Thread)
    requires WaitersCounted(s) && s.waiters == 0 && t in s.stacks
    ensures !Waiting(s.stacks[t])
  {
    assert Waiting(s.stacks[t]) <==> t in WaitingThreads(s);
  }

  predicate Watching(st: seq<Frame>) {
    st != [] && st[0].Wait? && (st[0].wpc.Asleep? || st[0].wpc.SeenVersion?)
  }

  /** A notification leaves nobody asleep and finds nobody about to sleep. */
  lemma NotifiedNobodyWatches(s: State, a: Action, t: Thread)
    requires Known(s) && Enabled(s, a) && t in s.stacks
    requires a.Notify? || (a.Withdraw? && s.folds[a.f].registered)
    ensures !Watching(Apply(s, a).stacks[t])
  {
    hide FoldsAfter, DeliveriesAfter, WaitersAfter, HeapAfter, StateFree, Conflicts;
    assert RegistryFree(s);
    OtherStacks(s, a);
    if By(a, t) { ActorStack(s, a); }
  }

  lemma VersionStep(s: State, a: Action, f: FoldId)
    requires Enabled(s, a) && f in s.folds
    ensures f in Apply(s, a).folds
    ensures Apply(s, a).folds[f].version != s.folds[f].version ==> a.Commit? && Top(s, a.t).fold == f
    ensures Apply(s, a).folds[f].consumed != s.folds[f].consumed ==>
              Apply(s, a).folds[f].consumed == Apply(s, a).folds[f].version
  {
    hide EditOf, StacksAfter, DeliveriesAfter, WaitersAfter, HeapAfter;
  }

  lemma CommitOwes(s: State, a: Action)
    requires Enabled(s, a) && a.Commit?
    ensures Debt(Apply(s, a), Top(s, a.t).fold)
  {
    hide FoldsAfter, StacksAfter, DeliveriesAfter, WaitersAfter, HeapAfter;
    ActorStack(s, a);
    assert OwesFor(Apply(s, a).stacks[a.t], Top(s, a.t).fold);
  }

  /** Only a version read or a comparison brings a thread to watch a fold. */
  lemma ActorWatches(s: State, a: Action)
    requires Known(s) && Enabled(s, a) && !a.Abandon?
    requires a.t in Apply(s, a).stacks && Watching(Apply(s, a).stacks[a.t])
    ensures a.Compare? || a.ReadVersion?
  {
    hide Enabled, EditOf, FoldsAfter, StacksAfter, DeliveriesAfter, WaitersAfter, HeapAfter, Known;
    BelowCalls(s, a.t);
    if WaitAction(a) { WaitTops(s, a); } else { NotWaiting(s, a); }
  }

  lemma CompareCovered(s: State, a: Action)
    requires Inv(s) && Enabled(s, a) && a.Compare? && Known(Apply(s, a))
    requires a.t in Apply(s, a).stacks && Watching(Apply(s, a).stacks[a.t])
    ensures Covered(Apply(s, a), a.t)
  {
    hide StacksAfter, DeliveriesAfter, WaitersAfter, HeapAfter;
    ActorStack(s, a);
    assert Covered(s, a.t);
    var f := Top(s, a.t).fold;
    if Debt(s, f) { DebtKept(s, a, f); }
  }

  /** The waiter's own step into sleep, or into a comparison, is covered. */
  lemma ActorCovered(s: State, a: Action)
    requires Inv(s) && Enabled(s, a) && !a.Abandon? && Known(Apply(s, a))
    requires a.t in Apply(s, a).stacks && Watching(Apply(s, a).stacks[a.t])
    ensures Covered(Apply(s, a), a.t)
  {
    hide StacksAfter, DeliveriesAfter, WaitersAfter, HeapAfter;
    ActorWatches(s, a);
    if a.Compare? { CompareCovered(s, a); } else { ActorStack(s, a); }
  }

  lemma OtherCovered(s: State, a: Action, t: Thread)
    requires Inv(s) && Enabled(s, a) && Known(Apply(s, a))
    requires t in s.stacks && !By(a, t) && Watching(Apply(s, a).stacks[t])
    ensures Covered(Apply(s, a), t)
  {
    hide EditOf, FoldsAfter, StacksAfter, DeliveriesAfter, WaitersAfter, HeapAfter;
    hide Counts, Exclusive, RegistryFree, StateFree;
    hide Debt, Conflicts;
    var s' := Apply(s, a);
    OtherStacks(s, a);
    var fr := s.stacks[t][0];
    assert StackKnown(s.folds.Keys, s.heap.Keys, s.stacks[t]) && s'.stacks[t] == s.stacks[t];
    assert Covered(s, t);
    VersionStep(s, a, fr.fold);
    if a.Commit? && Top(s, a.t).fold == fr.fold {
      CommitOwes(s, a);
    } else if a.Notify? {
      NotifiedNobodyWatches(s, a, t);
    } else if a.ReadWaiters? && s.waiters == 0 {
      NobodyWaits(s, t);
    } else if Debt(s, fr.fold) {
      DebtKept(s, a, fr.fold);
    }
  }

  lemma StepNoWakeLost(s: State, a: Action)
    requires Inv(s) && Enabled(s, a) && Known(Apply(s, a))
    ensures NoWakeLost(Apply(s, a))
  {
    hide Enabled, EditOf, FoldsAfter, StacksAfter, DeliveriesAfter, WaitersAfter, HeapAfter;
    var s' := Apply(s, a);
    OtherStacks(s, a);
    forall t | t in s'.stacks && s'.stacks[t] != []
      ensures Covered(s', t)
    {
      if Watching(s'.stacks[t]) {
        if By(a, t) { ActorCovered(s, a); } else { OtherCovered(s, a, t); }
      }
    }
  }

  // --------------------------------------------------------------- whole runs

  lemma InitialInv(s: State)
    requires Initial(s)
    ensures Inv(s)
  {
    assert WaitingThreads(s) == {};
  }

  lemma StepInv(s: State, a: Action)
    requires Inv(s) && Enabled(s, a)
    ensures Inv(Apply(s, a))
  {
    StepKnown(s, a);
    StepCounts(s, a);
    StepWaiters(s, a);
    StepExclusive(s, a);
    StepNoWakeLost(s, a);
  }

  lemma {:induction false} RunInv(s: State, actions: seq<Action>)
    requires Inv(s) && Runs(s, actions)
    ensures Inv(Final(s, actions))
    decreases |actions|
  {
    if actions != [] {
      StepInv(s, actions[0]);
      RunInv(Apply(s, actions[0]), actions[1..]);
    }
  }
}
