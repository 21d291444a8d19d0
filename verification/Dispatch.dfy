/** Dispatch of one change to the folds of a snapshot. What a fold's step does to the
    rest of the program, and whether a fold is still admitted at its turn, are
    parameters, so a step may cancel or add folds. */
module Dispatching {
  import opened Sequences
  import opened Atoms
  import opened Matching
  import opened TokenPaths
  import opened RestoreOrder
  import opened FoldRegistries

  /** One change as a step sees it; the stamps are absent when there is none to give. */
  datatype Event = Event(action: string, space: string, atom: Atom, bindings: map<string, Atom>,
                         generation: Option<nat>, sequence: Option<nat>)

  datatype Change = Change(action: string, space: string, atom: Atom, stamp: nat, sequence: Option<nat>)

  /** How a step ends: normally, with an ordinary exception, or with a control signal. */
  datatype Verdict<+E> = Quiet | Failure(error: E) | Signal(error: E)

  datatype Host<!W, E> = Host(admits: (W, Fold) -> bool, step: (W, Fold, Event) -> (W, Verdict<E>))

  /** What dispatch raises in the end. */
  datatype Raised<+E> =
    | Nothing
    | One(fold: Fold, error: E)
    | Group(members: seq<(Fold, E)>)
    | Passed(signal: E)

  /** The fold watches this kind of change and its pattern matches the atom. */
  predicate Wanted(f: Fold, c: Change) {
    (f.on == "both" || f.on == c.action) && Match(f.pattern, c.atom).Some?
  }

  function EventFor(f: Fold, c: Change): Event
    requires Wanted(f, c)
  {
    Event(c.action, c.space, c.atom, Match(f.pattern, c.atom).value,
          if c.stamp > 0 then Some(c.stamp) else None, c.sequence)
  }

  // ------------------------------------------------------------ what must happen

  /** A wanted fold that is admitted when its turn comes is attempted. */
  predicate Attempts<W, E>(h: Host<W, E>, w: W, f: Fold, c: Change) {
    Wanted(f, c) && h.admits(w, f)
  }

  function Turn<W, E>(h: Host<W, E>, w: W, f: Fold, c: Change): (W, Verdict<E>) {
    if Attempts(h, w, f, c) then h.step(w, f, EventFor(f, c)) else (w, Quiet)
  }

  /** The world before the k-th turn, if no earlier turn gave a control signal. */
  function WorldAt<W, E>(h: Host<W, E>, w: W, cs: seq<Fold>, c: Change, k: nat): W
    requires k <= |cs|
  {
    if k == 0 then w else Turn(h, WorldAt(h, w, cs, c, k - 1), cs[k - 1], c).0
  }

  predicate AttemptedAt<W, E>(h: Host<W, E>, w: W, cs: seq<Fold>, c: Change, k: nat)
    requires k < |cs|
  {
    Attempts(h, WorldAt(h, w, cs, c, k), cs[k], c)
  }

  function VerdictAt<W, E>(h: Host<W, E>, w: W, cs: seq<Fold>, c: Change, k: nat): Verdict<E>
    requires k < |cs|
  {
    Turn(h, WorldAt(h, w, cs, c, k), cs[k], c).1
  }

  /** The turns before `n` that were attempted, in order. */
  predicate Tried<W, E>(h: Host<W, E>, w: W, cs: seq<Fold>, c: Change, n: nat, tried: seq<nat>) {
    && (forall i, j | 0 <= i < j < |tried| :: tried[i] < tried[j])
    && (forall k :: k in tried ==> k < n)
    && (n <= |cs| ==> forall k | 0 <= k < n :: k in tried <==> AttemptedAt(h, w, cs, c, k))
  }

  /** The failures of the turns before `n`, in order. */
  function Failures<W, E>(h: Host<W, E>, w: W, cs: seq<Fold>, c: Change, n: nat): (r: seq<(Fold, E)>)
    requires n <= |cs|
  {
    if n == 0 then []
    else
      var before := Failures(h, w, cs, c, n - 1);
      match VerdictAt(h, w, cs, c, n - 1)
      case Failure(error) => before + [(cs[n - 1], error)]
      case _ => before
  }

  function Reported<E>(failures: seq<(Fold, E)>): Raised<E> {
    if failures == [] then Nothing
    else if |failures| == 1 then One(failures[0].0, failures[0].1)
    else Group(failures)
  }

  predicate NoSignal<W, E>(h: Host<W, E>, w: W, cs: seq<Fold>, c: Change, n: nat)
    requires n <= |cs|
  {
    forall k | 0 <= k < n :: !VerdictAt(h, w, cs, c, k).Signal?
  }

  /** Every turn of the snapshot is taken in order until one gives a control signal,
      which passes through alone; otherwise the ordinary failures are raised together. */
  method Deliver<W, E>(h: Host<W, E>, w: W, cs: seq<Fold>, c: Change)
    returns (end: W, tried: seq<nat>, raised: Raised<E>)
    ensures NoSignal(h, w, cs, c, |cs|) ==>
              && Tried(h, w, cs, c, |cs|, tried) && end == WorldAt(h, w, cs, c, |cs|)
              && exists ks :: FailingTurns(h, w, cs, c, |cs|, ks) && RaisedFor(h, w, cs, c, ks, raised)
    ensures !NoSignal(h, w, cs, c, |cs|) ==>
              exists k | 0 <= k < |cs| ::
                && NoSignal(h, w, cs, c, k) && VerdictAt(h, w, cs, c, k).Signal?
                && Tried(h, w, cs, c, k + 1, tried) && end == WorldAt(h, w, cs, c, k + 1)
                && raised == Passed(VerdictAt(h, w, cs, c, k).error)
  {
    TriedNone(h, w, cs, c);
    hide Wanted, EventFor, Tried;
    end, tried := w, [];
    var failures: seq<(Fold, E)> := [];
    for k := 0 to |cs|
      invariant end == WorldAt(h, w, cs, c, k)
      invariant Tried(h, w, cs, c, k, tried)
      invariant failures == Failures(h, w, cs, c, k)
      invariant NoSignal(h, w, cs, c, k)
    {
      var f := cs[k];
      if Wanted(f, c) && h.admits(end, f) {
        var (after, verdict) := h.step(end, f, EventFor(f, c));
        TriedNext(h, w, cs, c, k, tried);
        tried := tried + [k];
        end := after;
        match verdict {
          case Quiet =>
          case Failure(error) => failures := failures + [(f, error)];
          case Signal(error) =>
            assert VerdictAt(h, w, cs, c, k) == Signal(error);
            return end, tried, Passed(error);
        }
      } else {
        TriedNext(h, w, cs, c, k, tried);
      }
    }
    raised := Reported(failures);
    ghost var ks := FailuresAreTurns(h, w, cs, c, |cs|);
    ReportedFor(h, w, cs, c, ks, failures);
  }

  /** The turns before `n` whose step raised an ordinary exception, in order. */
  ghost predicate FailingTurns<W, E>(h: Host<W, E>, w: W, cs: seq<Fold>, c: Change, n: nat, ks: seq<nat>)
    requires n <= |cs|
  {
    && (forall i, j | 0 <= i < j < |ks| :: ks[i] < ks[j])
    && (forall i | 0 <= i < |ks| :: ks[i] < n && VerdictAt(h, w, cs, c, ks[i]).Failure?)
    && (forall k | 0 <= k < n && VerdictAt(h, w, cs, c, k).Failure? :: k in ks)
  }

  ghost predicate IsFailure<W, E>(h: Host<W, E>, w: W, cs: seq<Fold>, c: Change, k: nat, f: Fold, e: E) {
    k < |cs| && cs[k] == f && VerdictAt(h, w, cs, c, k) == Failure(e)
  }

  /** Nothing for no failing turn, the failure itself for one, and for more the group of
      all of them, turn by turn. */
  ghost predicate RaisedFor<W, E>(h: Host<W, E>, w: W, cs: seq<Fold>, c: Change, ks: seq<nat>, raised: Raised<E>) {
    && (raised.Nothing? <==> |ks| == 0)
    && (raised.One? <==> |ks| == 1)
    && (raised.Group? <==> |ks| >= 2)
    && (raised.One? ==> IsFailure(h, w, cs, c, ks[0], raised.fold, raised.error))
    && (raised.Group? ==>
          && |raised.members| == |ks|
          && forall i | 0 <= i < |ks| :: IsFailure(h, w, cs, c, ks[i], raised.members[i].0, raised.members[i].1))
  }

  lemma {:induction false} FailuresAreTurns<W, E>(h: Host<W, E>, w: W, cs: seq<Fold>, c: Change, n: nat)
    returns (ks: seq<nat>)
    requires n <= |cs|
    ensures FailingTurns(h, w, cs, c, n, ks) && |ks| == |Failures(h, w, cs, c, n)|
    ensures forall i | 0 <= i < |ks| ::
              IsFailure(h, w, cs, c, ks[i], Failures(h, w, cs, c, n)[i].0, Failures(h, w, cs, c, n)[i].1)
    decreases n
  {
    hide VerdictAt;
    if n == 0 { return []; }
    ks := FailuresAreTurns(h, w, cs, c, n - 1);
    if VerdictAt(h, w, cs, c, n - 1).Failure? { ks := ks + [n - 1]; }
  }

  lemma ReportedFor<W, E>(h: Host<W, E>, w: W, cs: seq<Fold>, c: Change, ks: seq<nat>, failures: seq<(Fold, E)>)
    requires |ks| == |failures|
    requires forall i | 0 <= i < |ks| :: IsFailure(h, w, cs, c, ks[i], failures[i].0, failures[i].1)
    ensures RaisedFor(h, w, cs, c, ks, Reported(failures))
  {
    hide IsFailure;
  }

  predicate FailsAt<W, E>(h: Host<W, E>, w: W, cs: seq<Fold>, c: Change, k: nat) {
    k < |cs| && VerdictAt(h, w, cs, c, k).Failure?
  }

  /** The same, turn by turn: nothing is raised exactly when no turn failed, one error
      exactly when one turn did, a group exactly when two or more did. */
  lemma RaisedExactly<W, E>(h: Host<W, E>, w: W, cs: seq<Fold>, c: Change, ks: seq<nat>, raised: Raised<E>)
    requires FailingTurns(h, w, cs, c, |cs|, ks) && RaisedFor(h, w, cs, c, ks, raised)
    ensures raised.Nothing? <==> forall k :: !FailsAt(h, w, cs, c, k)
    ensures raised.One? <==>
              exists k :: FailsAt(h, w, cs, c, k) && forall j :: FailsAt(h, w, cs, c, j) ==> j == k
    ensures raised.Group? <==> exists j, k :: j < k && FailsAt(h, w, cs, c, j) && FailsAt(h, w, cs, c, k)
    ensures !raised.Passed?
  {
    hide FailsAt, FailingTurns, RaisedFor, VerdictAt;
    RaisedShape(h, w, cs, c, ks, raised);
    if |ks| == 0 {
      NoneFails(h, w, cs, c, ks);
    } else if |ks| == 1 {
      OneFails(h, w, cs, c, ks);
    } else {
      TwoFail(h, w, cs, c, ks);
    }
  }

  lemma NoneFails<W, E>(h: Host<W, E>, w: W, cs: seq<Fold>, c: Change, ks: seq<nat>)
    requires ks == [] && FailingTurns(h, w, cs, c, |cs|, ks)
    ensures forall k :: !FailsAt(h, w, cs, c, k)
  {
    hide FailsAt, FailingTurns, VerdictAt;
    FailingAre(h, w, cs, c, ks);
  }

  lemma OneFails<W, E>(h: Host<W, E>, w: W, cs: seq<Fold>, c: Change, ks: seq<nat>)
    requires |ks| == 1 && FailingTurns(h, w, cs, c, |cs|, ks)
    ensures FailsAt(h, w, cs, c, ks[0]) && forall k :: FailsAt(h, w, cs, c, k) ==> k == ks[0]
  {
    hide FailsAt, FailingTurns, VerdictAt;
    FailingAre(h, w, cs, c, ks);
    assert ks[0] in ks;
  }

  lemma TwoFail<W, E>(h: Host<W, E>, w: W, cs: seq<Fold>, c: Change, ks: seq<nat>)
    requires |ks| >= 2 && FailingTurns(h, w, cs, c, |cs|, ks)
    ensures ks[0] < ks[1] && FailsAt(h, w, cs, c, ks[0]) && FailsAt(h, w, cs, c, ks[1])
  {
    hide FailsAt, FailingTurns, VerdictAt;
    FailingAre(h, w, cs, c, ks);
    assert ks[0] in ks && ks[1] in ks;
  }

  lemma RaisedShape<W, E>(h: Host<W, E>, w: W, cs: seq<Fold>, c: Change, ks: seq<nat>, raised: Raised<E>)
    requires RaisedFor(h, w, cs, c, ks, raised)
    ensures (raised.Nothing? <==> |ks| == 0) && (raised.One? <==> |ks| == 1) && (raised.Group? <==> |ks| >= 2)
    ensures !raised.Passed?
  {
    hide IsFailure;
  }

  lemma FailingAre<W, E>(h: Host<W, E>, w: W, cs: seq<Fold>, c: Change, ks: seq<nat>)
    requires FailingTurns(h, w, cs, c, |cs|, ks)
    ensures forall k: nat :: k in ks <==> FailsAt(h, w, cs, c, k)
    ensures forall i, j | 0 <= i < j < |ks| :: ks[i] < ks[j]
  {
    hide VerdictAt;
    forall k: nat ensures k in ks <==> FailsAt(h, w, cs, c, k) {
      if k in ks {
        var i :| 0 <= i < |ks| && ks[i] == k;
        assert VerdictAt(h, w, cs, c, ks[i]).Failure?;
      }
    }
  }

  // ---------------------------------------------------------------- what a turn does

  /** What a step is told: the change as it was, bindings that make the pattern equal to
      its atom and bind nothing else, and the stamps there are. */
  ghost predicate Tells(e: Event, f: Fold, c: Change) {
    && e.action == c.action && e.space == c.space && e.atom == c.atom && e.sequence == c.sequence
    && Instance(f.pattern, c.atom, e.bindings) && e.bindings.Keys == BindingNames(f.pattern)
    && (e.generation == None <==> c.stamp == 0) && (e.generation.Some? ==> e.generation.value == c.stamp)
  }

  /** A fold wants a change exactly when it watches that kind and some binding makes its
      pattern equal to the atom; and then the step is told so. */
  lemma WantedExactly(f: Fold, c: Change)
    ensures Wanted(f, c) <==>
              (f.on == "both" || f.on == c.action) && exists b :: Instance(f.pattern, c.atom, b)
    ensures Wanted(f, c) ==> Tells(EventFor(f, c), f, c)
  {
    MatchExact(f.pattern, c.atom);
    if Wanted(f, c) { MatchBindsExactly(f.pattern, c.atom); }
  }

  /** A turn that attempts its fold runs its step on the world the turn finds, told of
      the change; any other turn leaves the world and raises nothing. */
  lemma TurnsRunSteps<W(!new), E>(h: Host<W, E>, w: W, cs: seq<Fold>, c: Change, k: nat)
    requires k < |cs|
    ensures WorldAt(h, w, cs, c, 0) == w
    ensures AttemptedAt(h, w, cs, c, k) <==> Wanted(cs[k], c) && h.admits(WorldAt(h, w, cs, c, k), cs[k])
    ensures AttemptedAt(h, w, cs, c, k) ==>
              exists e :: Tells(e, cs[k], c)
                          && h.step(WorldAt(h, w, cs, c, k), cs[k], e)
                             == (WorldAt(h, w, cs, c, k + 1), VerdictAt(h, w, cs, c, k))
    ensures !AttemptedAt(h, w, cs, c, k) ==>
              WorldAt(h, w, cs, c, k + 1) == WorldAt(h, w, cs, c, k) && VerdictAt(h, w, cs, c, k) == Quiet
  {
    WantedExactly(cs[k], c);
    hide Wanted, EventFor, Tells;
  }

  lemma TriedNone<W, E>(h: Host<W, E>, w: W, cs: seq<Fold>, c: Change)
    ensures Tried(h, w, cs, c, 0, [])
  {
  }

  lemma TriedNext<W, E>(h: Host<W, E>, w: W, cs: seq<Fold>, c: Change, k: nat, tried: seq<nat>)
    requires k < |cs|
    ensures Tried(h, w, cs, c, k, tried) ==>
              Tried(h, w, cs, c, k + 1, if AttemptedAt(h, w, cs, c, k) then tried + [k] else tried)
  {
    hide AttemptedAt;
    assert forall i | 0 <= i < |tried| :: tried[i] in tried;
  }

  // ------------------------------------------------------------ failure isolation

  /** Two steps with the same effect on the world that may differ in whether they raise
      an ordinary exception, and which. */
  ghost predicate SameEffects<W(!new), E>(h: Host<W, E>, g: Host<W, E>, cs: seq<Fold>) {
    && (forall w: W, f | f in cs :: h.admits(w, f) == g.admits(w, f))
    && (forall w: W, f, e: Event | f in cs :: h.step(w, f, e).0 == g.step(w, f, e).0)
    && (forall w: W, f, e: Event | f in cs :: h.step(w, f, e).1.Signal? == g.step(w, f, e).1.Signal?)
  }

  /** Whatever the other steps raise, the same folds are attempted on the same worlds. */
  lemma {:induction false} FailuresAreIsolated<W(!new), E>(h: Host<W, E>, g: Host<W, E>, w: W, cs: seq<Fold>,
                                                           c: Change, k: nat)
    requires SameEffects(h, g, cs) && k <= |cs|
    ensures WorldAt(h, w, cs, c, k) == WorldAt(g, w, cs, c, k)
    ensures NoSignal(h, w, cs, c, k) <==> NoSignal(g, w, cs, c, k)
    ensures k < |cs| ==> (AttemptedAt(h, w, cs, c, k) <==> AttemptedAt(g, w, cs, c, k))
    decreases k
  {
    hide SameEffects, Attempts, Turn, WorldAt, VerdictAt, NoSignal, AttemptedAt;
    if k == 0 {
      AtFirst(h, w, cs, c);
      AtFirst(g, w, cs, c);
    } else {
      FailuresAreIsolated(h, g, w, cs, c, k - 1);
      TurnSame(h, g, WorldAt(h, w, cs, c, k - 1), cs, k - 1, c);
      AtNext(h, w, cs, c, k - 1);
      AtNext(g, w, cs, c, k - 1);
    }
    if k < |cs| {
      TurnSame(h, g, WorldAt(h, w, cs, c, k), cs, k, c);
      AtNext(h, w, cs, c, k);
      AtNext(g, w, cs, c, k);
    }
  }

  lemma AtFirst<W(!new), E>(h: Host<W, E>, w: W, cs: seq<Fold>, c: Change)
    ensures WorldAt(h, w, cs, c, 0) == w && NoSignal(h, w, cs, c, 0)
  {
  }

  lemma AtNext<W(!new), E>(h: Host<W, E>, w: W, cs: seq<Fold>, c: Change, n: nat)
    requires n < |cs|
    ensures WorldAt(h, w, cs, c, n + 1) == Turn(h, WorldAt(h, w, cs, c, n), cs[n], c).0
    ensures AttemptedAt(h, w, cs, c, n) <==> Attempts(h, WorldAt(h, w, cs, c, n), cs[n], c)
    ensures NoSignal(h, w, cs, c, n + 1) <==>
              NoSignal(h, w, cs, c, n) && !Turn(h, WorldAt(h, w, cs, c, n), cs[n], c).1.Signal?
  {
    hide Turn, Attempts;
    assert VerdictAt(h, w, cs, c, n) == Turn(h, WorldAt(h, w, cs, c, n), cs[n], c).1;
  }

  lemma TurnSame<W(!new), E>(h: Host<W, E>, g: Host<W, E>, w: W, cs: seq<Fold>, k: nat, c: Change)
    requires SameEffects(h, g, cs) && k < |cs|
    ensures Attempts(h, w, cs[k], c) == Attempts(g, w, cs[k], c)
    ensures Turn(h, w, cs[k], c).0 == Turn(g, w, cs[k], c).0
    ensures Turn(h, w, cs[k], c).1.Signal? == Turn(g, w, cs[k], c).1.Signal?
  {
    hide Wanted, EventFor;
  }

  /** The failures collected are exactly the ordinary ones of attempted folds. */
  lemma {:induction false} FailuresExactly<W(!new), E>(h: Host<W, E>, w: W, cs: seq<Fold>, c: Change, n: nat,
                                                       f: Fold, e: E)
    requires n <= |cs|
    ensures (f, e) in Failures(h, w, cs, c, n) <==> exists k :: 0 <= k < n && FailedAt(h, w, cs, c, k, f, e)
    decreases n
  {
    NoneAtFirst(h, w, cs, c);
    hide FailedAt, Failures;
    if n > 0 {
      FailuresExactly(h, w, cs, c, n - 1, f, e);
      FailedLast(h, w, cs, c, n - 1, f, e);
      assert FailedAt(h, w, cs, c, n - 1, f, e) ==> exists k :: 0 <= k < n && FailedAt(h, w, cs, c, k, f, e);
    }
  }

  lemma NoneAtFirst<W(!new), E>(h: Host<W, E>, w: W, cs: seq<Fold>, c: Change)
    ensures Failures(h, w, cs, c, 0) == []
  {
  }

  /** The turn was attempted and raised this ordinary exception. */
  ghost predicate FailedAt<W, E>(h: Host<W, E>, w: W, cs: seq<Fold>, c: Change, k: nat, f: Fold, e: E)
    requires k < |cs|
  {
    cs[k] == f && AttemptedAt(h, w, cs, c, k) && VerdictAt(h, w, cs, c, k) == Failure(e)
  }

  lemma FailedLast<W(!new), E>(h: Host<W, E>, w: W, cs: seq<Fold>, c: Change, n: nat, f: Fold, e: E)
    requires n < |cs|
    ensures (f, e) in Failures(h, w, cs, c, n + 1) <==>
              (f, e) in Failures(h, w, cs, c, n) || FailedAt(h, w, cs, c, n, f, e)
  {
    assert VerdictAt(h, w, cs, c, n).Failure? ==> AttemptedAt(h, w, cs, c, n);
    hide VerdictAt, AttemptedAt;
  }
}
