/** The delivery protocol of one fold registry, as atomic steps over shared state.

    One step is one region held under the registry's lock or a fold's state lock,
    or one deliberate read outside both: the deliverer's read of the waiter count,
    a waiter's reads of a fold's version, and an abandonment's store. User code (an
    admission test or a step) runs inside a delivery and may call back into the
    registry, so a thread owns a stack of open frames. */
module FoldProtocol {
  import opened DeliveryTables

  /** The identity of a state object; `is` compares these. */
  type Ref = nat
  type Change = nat

  /** Where one open delivery stands. */
  datatype RunPc =
    | Claiming                 // about to claim the delivery
    | Claimed                  // counted in flight, state lock not taken
    | Admitting                // in the admission test, state lock held
    | Stepping(before: Ref)    // in the step, state lock held
    | Reacting                 // in a stateless fold's user code, no lock
    | Bumped                   // version moved on, waiter count not read yet
    | Owing                    // read a nonzero waiter count, notify still due
    | Ending                   // about to release the claim

  /** Where one blocked read stands. */
  datatype WaitPc =
    | Arriving                 // before the registry lock
    | Testing                  // lock held, about to read the active flag
    | SeenActive               // lock held, about to read the version
    | SeenVersion(seen: nat)   // lock held, about to compare with the consumed mark
    | Asleep                   // on the condition, lock released
    | Woken                    // notified or timed out, lock not yet taken back
    | Leaving                  // lock held, about to leave the count
    | Reading                  // about to take the state

  datatype Frame =
    | Run(fold: FoldId, event: Change, rpc: RunPc)
    | Wait(fold: FoldId, wpc: WaitPc)
    | Cancel(fold: FoldId)     // withdrawn, waiting for other threads' deliveries

  /** One fold. `committed`, `taken` and `handed` are history: every committed change in
      commit order, everything the reads have taken away so far, and the objects they
      answered, in order. */
  datatype FoldState = FoldState(
    stateful: bool,
    registered: bool,
    active: bool,
    version: nat,
    consumed: nat,
    initial: Ref,
    state: Ref,
    committed: seq<Change>,
    taken: seq<Change>,
    handed: seq<Ref>)

  /** Stacks hold the innermost frame first. `heap` gives what each state object
      holds. The two kinds of lock are not fields: a lock is held exactly by the
      frames whose counter lies inside its region. */
  datatype State = State(
    folds: map<FoldId, FoldState>,
    stacks: map<Thread, seq<Frame>>,
    deliveries: Table,
    waiters: nat,
    heap: map<Ref, seq<Change>>)

  datatype Action =
    | Dispatch(t: Thread, f: FoldId, e: Change)
    | Begin(t: Thread)
    | Enter(t: Thread)
    | Admit(t: Thread)
    | Finish(t: Thread)
    | Commit(t: Thread, after: Ref, holds: seq<Change>)
    | ReadWaiters(t: Thread)
    | Notify(t: Thread)
    | End(t: Thread)
    | Take(t: Thread, f: FoldId)
    | StartWait(t: Thread, f: FoldId)
    | Join(t: Thread)
    | ReadActive(t: Thread)
    | ReadVersion(t: Thread)
    | Compare(t: Thread, expired: bool)
    | TimeOut(t: Thread)
    | Retake(t: Thread)
    | Leave(t: Thread)
    | Collect(t: Thread)
    | Withdraw(t: Thread, f: FoldId)
    | Return(t: Thread)
    | Register(t: Thread, f: FoldId)
    | Restore(t: Thread, f: FoldId, active: bool)
    | Abandon(t: Thread, f: FoldId)

  // ---------------------------------------------------------------- frames

  predicate InUserCode(fr: Frame) {
    fr.Run? && (fr.rpc.Admitting? || fr.rpc.Stepping? || fr.rpc.Reacting?)
  }

  /** The frame is counted in flight for `f`. */
  predicate InFlight(fr: Frame, f: FoldId) {
    fr.Run? && fr.fold == f && !fr.rpc.Claiming?
  }

  /** The frame holds the state lock of `f`. */
  predicate Holding(fr: Frame, f: FoldId) {
    fr.Run? && fr.fold == f && (fr.rpc.Admitting? || fr.rpc.Stepping?)
  }

  /** The frame has moved the version of `f` on and not yet notified for it. */
  predicate InDebt(fr: Frame, f: FoldId) {
    fr.Run? && fr.fold == f && (fr.rpc.Bumped? || fr.rpc.Owing?)
  }

  predicate IsAsleep(st: seq<Frame>) {
    st != [] && st[0].Wait? && st[0].wpc.Asleep?
  }

  predicate HoldsLock(st: seq<Frame>) {
    st != [] && st[0].Wait? &&
    (st[0].wpc.Testing? || st[0].wpc.SeenActive? || st[0].wpc.SeenVersion? || st[0].wpc.Leaving?)
  }

  /** The thread is between raising and lowering the waiter count. */
  predicate Waiting(st: seq<Frame>) {
    HoldsLock(st) || (st != [] && st[0].Wait? && (st[0].wpc.Asleep? || st[0].wpc.Woken?))
  }

  predicate Holds(st: seq<Frame>, f: FoldId) {
    exists i :: 0 <= i < |st| && Holding(st[i], f)
  }

  /** How many open deliveries of `f` this stack has claimed. */
  function OpenDeliveries(st: seq<Frame>, f: FoldId): nat {
    if st == [] then 0
    else (if InFlight(st[0], f) then 1 else 0) + OpenDeliveries(st[1..], f)
  }

  predicate RegistryFree(s: State) {
    forall u | u in s.stacks :: !HoldsLock(s.stacks[u])
  }

  /** A reentrant lock is available to its owner and to everyone when unowned. */
  predicate StateFree(s: State, t: Thread, f: FoldId) {
    forall u | u in s.stacks && u != t :: !Holds(s.stacks[u], f)
  }

  /** User code, or no frame at all: the places a call may come from. */
  predicate MayCall(s: State, t: Thread) {
    t in s.stacks && (s.stacks[t] == [] || InUserCode(s.stacks[t][0]))
  }

  predicate AtRun(s: State, t: Thread) {
    t in s.stacks && s.stacks[t] != [] && s.stacks[t][0].Run? && s.stacks[t][0].fold in s.folds
  }

  predicate AtWait(s: State, t: Thread) {
    t in s.stacks && s.stacks[t] != [] && s.stacks[t][0].Wait? && s.stacks[t][0].fold in s.folds
  }

  function Top(s: State, t: Thread): Frame
    requires t in s.stacks && s.stacks[t] != []
  {
    s.stacks[t][0]
  }

  function TopFold(s: State, t: Thread): FoldState
    requires t in s.stacks && s.stacks[t] != [] && s.stacks[t][0].fold in s.folds
  {
    s.folds[s.stacks[t][0].fold]
  }

  // ------------------------------------------------------------- transitions

  function WakeStack(st: seq<Frame>): seq<Frame> {
    if IsAsleep(st) then [Wait(st[0].fold, Woken)] + st[1..] else st
  }

  function WakeAll(stacks: map<Thread, seq<Frame>>): map<Thread, seq<Frame>> {
    map u | u in stacks :: WakeStack(stacks[u])
  }

  /** How an action changes the stack of the thread that performs it. */
  datatype Edit = Keep | Pushed(fr: Frame) | Popped | Moved(fr: Frame)

  function Edited(st: seq<Frame>, e: Edit): seq<Frame> {
    match e
    case Keep => st
    case Pushed(fr) => [fr] + st
    case Popped => if st == [] then [] else st[1..]
    case Moved(fr) => if st == [] then [] else [fr] + st[1..]
  }

  function Taken(fs: FoldState, heap: map<Ref, seq<Change>>): FoldState {
    fs.(state := fs.initial,
        consumed := fs.version,
        taken := fs.taken + (if fs.state in heap then heap[fs.state] else []),
        handed := fs.handed + [fs.state])
  }

  /** The refusal: the state moved during the step, and not to the step's answer. */
  predicate Conflicts(s: State, t: Thread, after: Ref) {
    && AtRun(s, t) && Top(s, t).rpc.Stepping?
    && TopFold(s, t).state != Top(s, t).rpc.before
    && TopFold(s, t).state != after
  }

  /** `Finish` ends user code without a commit: a rejected change, a stateless
      reaction, a step that raised, or one refused by the conflict test. */
  predicate Enabled(s: State, a: Action) {
    match a
    case Dispatch(t, f, _) => MayCall(s, t) && f in s.folds
    case Begin(t) => AtRun(s, t) && Top(s, t).rpc.Claiming? && RegistryFree(s)
    case Enter(t) =>
      AtRun(s, t) && Top(s, t).rpc.Claimed? &&
      (TopFold(s, t).stateful ==> StateFree(s, t, Top(s, t).fold))
    case Admit(t) => AtRun(s, t) && Top(s, t).rpc.Admitting?
    case Finish(t) => AtRun(s, t) && InUserCode(Top(s, t))
    case Commit(t, after, holds) =>
      AtRun(s, t) && Top(s, t).rpc.Stepping? &&
      (after in s.heap ==> s.heap[after] == holds) &&
      !Conflicts(s, t, after)
    case ReadWaiters(t) => AtRun(s, t) && Top(s, t).rpc.Bumped?
    case Notify(t) => AtRun(s, t) && Top(s, t).rpc.Owing? && RegistryFree(s)
    case End(t) => AtRun(s, t) && Top(s, t).rpc.Ending? && RegistryFree(s)
    case Take(t, f) =>
      MayCall(s, t) && f in s.folds && s.folds[f].stateful && StateFree(s, t, f)
    case StartWait(t, f) => MayCall(s, t) && f in s.folds && s.folds[f].stateful
    case Join(t) => AtWait(s, t) && Top(s, t).wpc.Arriving? && RegistryFree(s)
    case ReadActive(t) => AtWait(s, t) && Top(s, t).wpc.Testing?
    case ReadVersion(t) => AtWait(s, t) && Top(s, t).wpc.SeenActive?
    case Compare(t, _) => AtWait(s, t) && Top(s, t).wpc.SeenVersion?
    case TimeOut(t) => AtWait(s, t) && Top(s, t).wpc.Asleep?
    case Retake(t) => AtWait(s, t) && Top(s, t).wpc.Woken? && RegistryFree(s)
    case Leave(t) => AtWait(s, t) && Top(s, t).wpc.Leaving?
    case Collect(t) =>
      AtWait(s, t) && Top(s, t).wpc.Reading? && StateFree(s, t, Top(s, t).fold)
    case Withdraw(t, f) =>
      MayCall(s, t) && f in s.folds && RegistryFree(s) &&
      (s.folds[f].registered || !s.folds[f].active)
    case Return(t) =>
      t in s.stacks && s.stacks[t] != [] && Top(s, t).Cancel? && RegistryFree(s) &&
      forall u | u in s.stacks && u != t :: CountOf(s.deliveries, Top(s, t).fold, u) == 0
    case Register(t, f) =>
      MayCall(s, t) && f in s.folds && !s.folds[f].registered && RegistryFree(s)
    case Restore(t, f, _) =>
      MayCall(s, t) && f in s.folds && !s.folds[f].registered && !s.folds[f].active && RegistryFree(s)
    case Abandon(t, f) => t in s.stacks && f in s.folds
  }

  function RunTo(s: State, t: Thread, pc: RunPc): Edit
    requires AtRun(s, t)
  {
    Moved(Run(s.stacks[t][0].fold, s.stacks[t][0].event, pc))
  }

  function WaitTo(s: State, t: Thread, pc: WaitPc): Edit
    requires AtWait(s, t)
  {
    Moved(Wait(s.stacks[t][0].fold, pc))
  }

  function EditOf(s: State, a: Action): Edit
    requires Enabled(s, a)
  {
    match a
    case Dispatch(t, f, e) => Pushed(Run(f, e, Claiming))
    case Begin(t) => if TopFold(s, t).active then RunTo(s, t, Claimed) else Popped
    case Enter(t) => RunTo(s, t, if TopFold(s, t).stateful then Admitting else Reacting)
    case Admit(t) => RunTo(s, t, Stepping(TopFold(s, t).state))
    case Finish(t) => RunTo(s, t, Ending)
    case Commit(t, _, _) => RunTo(s, t, Bumped)
    case ReadWaiters(t) => RunTo(s, t, if s.waiters > 0 then Owing else Ending)
    case Notify(t) => RunTo(s, t, Ending)
    case End(t) => Popped
    case StartWait(t, f) => Pushed(Wait(f, Arriving))
    case Join(t) => WaitTo(s, t, Testing)
    case ReadActive(t) => WaitTo(s, t, if TopFold(s, t).active then SeenActive else Leaving)
    case ReadVersion(t) => WaitTo(s, t, SeenVersion(TopFold(s, t).version))
    case Compare(t, expired) =>
      WaitTo(s, t, if Top(s, t).wpc.seen != TopFold(s, t).consumed || expired then Leaving else Asleep)
    case TimeOut(t) => WaitTo(s, t, Woken)
    case Retake(t) => WaitTo(s, t, Testing)
    case Leave(t) => WaitTo(s, t, Reading)
    case Collect(t) => Popped
    case Withdraw(t, f) => Pushed(Cancel(f))
    case Return(t) => Popped
    case _ => Keep
  }

  /** A notification, or a withdrawal that takes effect, wakes every sleeper. */
  predicate Wakes(s: State, a: Action)
    requires Enabled(s, a)
  {
    a.Notify? || (a.Withdraw? && s.folds[a.f].registered)
  }

  function StacksAfter(s: State, a: Action): map<Thread, seq<Frame>>
    requires Enabled(s, a)
  {
    var stacks := s.stacks[a.t := Edited(s.stacks[a.t], EditOf(s, a))];
    if Wakes(s, a) then WakeAll(stacks) else stacks
  }

  function FoldsAfter(s: State, a: Action): map<FoldId, FoldState>
    requires Enabled(s, a)
  {
    match a
    case Commit(t, after, _) =>
      var fs := TopFold(s, t);
      s.folds[Top(s, t).fold := fs.(state := after, version := fs.version + 1,
                                    committed := fs.committed + [Top(s, t).event])]
    case Take(_, f) => s.folds[f := Taken(s.folds[f], s.heap)]
    case Collect(t) => s.folds[Top(s, t).fold := Taken(TopFold(s, t), s.heap)]
    case Withdraw(_, f) =>
      if s.folds[f].registered
      then s.folds[f := s.folds[f].(registered := false, active := false)]
      else s.folds
    case Register(_, f) => s.folds[f := s.folds[f].(registered := true)]
    case Restore(_, f, active) => s.folds[f := s.folds[f].(registered := true, active := active)]
    case Abandon(_, f) => s.folds[f := s.folds[f].(active := false)]
    case _ => s.folds
  }

  function DeliveriesAfter(s: State, a: Action): Table
    requires Enabled(s, a)
  {
    match a
    case Begin(t) => if TopFold(s, t).active then Raised(s.deliveries, Top(s, t).fold, t) else s.deliveries
    case End(t) => Lowered(s.deliveries, Top(s, t).fold, t)
    case _ => s.deliveries
  }

  function WaitersAfter(s: State, a: Action): nat
    requires Enabled(s, a)
  {
    match a
    case Join(_) => s.waiters + 1
    case Leave(_) => if s.waiters > 0 then s.waiters - 1 else 0
    case _ => s.waiters
  }

  function HeapAfter(s: State, a: Action): map<Ref, seq<Change>>
    requires Enabled(s, a)
  {
    match a
    case Commit(_, after, holds) => s.heap[after := holds]
    case _ => s.heap
  }

  function Apply(s: State, a: Action): State
    requires Enabled(s, a)
  {
    State(FoldsAfter(s, a), StacksAfter(s, a), DeliveriesAfter(s, a), WaitersAfter(s, a), HeapAfter(s, a))
  }

  // -------------------------------------------------------------------- runs

  predicate Runs(s: State, actions: seq<Action>)
    decreases |actions|
  {
    actions == [] ||
    (Enabled(s, actions[0]) && Runs(Apply(s, actions[0]), actions[1..]))
  }

  function Final(s: State, actions: seq<Action>): State
    requires Runs(s, actions)
    decreases |actions|
  {
    if actions == [] then s else Final(Apply(s, actions[0]), actions[1..])
  }

  /** Nothing in flight, nobody waiting, every fold holding its empty initial object. */
  predicate Initial(s: State) {
    && (forall t | t in s.stacks :: s.stacks[t] == [])
    && s.deliveries == map[]
    && s.waiters == 0
    && (forall f | f in s.folds ::
          var fs := s.folds[f];
          && fs.version == 0 && fs.consumed == 0 && fs.state == fs.initial
          && fs.initial in s.heap && s.heap[fs.initial] == []
          && fs.committed == [] && fs.taken == [] && fs.handed == [])
  }
}
