/** What every registry operation does to its folds, and the order of the list from the
    operations of a history alone. */
module FoldOrders {
  import opened Sequences
  import opened Atoms
  import opened RestoreOrder
  import opened FoldRegistries
  import opened Dispatching
  import opened DispatchHistories

  // ------------------------------------------------------- what each operation does

  /** The engine has the candidate's spaces: they did not change, or it took them. */
  predicate InForce(y: System, op: Op, candidate: seq<Fold>)
    requires !op.Abandon?
  {
    Spaces(y.view.folds) == Spaces(candidate) || op.outcome == Accepted
  }

  /** An add is refused for a registered fold; otherwise the fold goes last, filed last
      in its space's tree. */
  lemma AddExactly(y: System, op: Op)
    requires op.Add?
    ensures op.f !in y.view.folds && InForce(y, op, y.view.folds + [op.f]) ==>
              var v := Step(y, op).view;
              && v.folds == y.view.folds + [op.f]
              && (forall g :: g in v.active <==> g in y.view.active || (g == op.f && op.isActive))
              && op.f.space in v.trees && v.trees[op.f.space] == TreeOf(y.view, op.f.space) + [op.f]
    ensures !(op.f !in y.view.folds && InForce(y, op, y.view.folds + [op.f])) ==> Step(y, op).view == y.view
  {
    hide Spaces;
  }

  /** A cancel takes its fold out of the list and its space's tree, keeping the others in
      order, and takes its flag down. */
  lemma CancelExactly(y: System, op: Op)
    requires op.Cancel? && Inv(y.view)
    ensures op.f in y.view.folds && InForce(y, op, Dropped(y.view.folds, op.f)) ==>
              var v, k := Step(y, op).view, IndexOf(y.view.folds, op.f);
              && v.folds == y.view.folds[..k] + y.view.folds[k + 1..] && op.f !in v.folds
              && (forall g :: g in v.active <==> g in y.view.active && g != op.f)
              && op.f !in TreeOf(v, op.f.space)
    ensures !(op.f in y.view.folds && InForce(y, op, Dropped(y.view.folds, op.f))) ==> Step(y, op).view == y.view
  {
    hide Spaces, Keep;
    DroppedIsRemoved(y.view.folds, op.f);
    DroppedDistinct(y.view.folds, op.f);
    if op.f.space in y.view.trees { TreeDistinct(y.view, op.f.space); }
  }

  lemma TreeDistinct(v: View, s: string)
    requires Inv(v) && s in v.trees
    ensures forall f :: f !in Dropped(v.trees[s], f)
  {
    assert TreeInOrder(v, s);
    KeepDistinct(v.folds, Members(v.trees[s]));
    forall f ensures f !in Dropped(v.trees[s], f) { DroppedDistinct(v.trees[s], f); }
  }

  /** A restore puts its fold at its restoration index, as active as told. */
  lemma RestoreExactly(y: System, op: Op)
    requires op.Restore? && op.index < |op.order|
    ensures var k := RestorationIndex(y.view.folds, op.order, op.index);
            var wanted := y.view.folds[..k] + [op.f] + y.view.folds[k..];
            var allowed := op.f !in y.view.folds && op.f !in y.view.active && InForce(y, op, wanted);
            && (allowed ==>
                  && Step(y, op).view.folds == wanted
                  && forall g :: g in Step(y, op).view.active <==> g in y.view.active || (g == op.f && op.isActive))
            && (!allowed ==> Step(y, op).view == y.view)
  {
    hide Spaces, Keep, RestorationIndex;
    var k := RestorationIndex(y.view.folds, op.order, op.index);
    assert Inserted(y.view.folds, k, op.f) == y.view.folds[..k] + [op.f] + y.view.folds[k..];
  }

  /** An abandonment only takes a flag down. */
  lemma AbandonExactly(y: System, op: Op)
    requires op.Abandon?
    ensures Step(y, op).view.folds == y.view.folds && Step(y, op).view.trees == y.view.trees
    ensures Step(y, op).watched == y.watched
    ensures forall g :: g in Step(y, op).view.active <==> g in y.view.active && g != op.f
  {
  }

  // ---------------------------------------------------------- the order of a history

  predicate Before(folds: seq<Fold>, f: Fold, g: Fold) {
    f in folds && g in folds && IndexOf(folds, f) < IndexOf(folds, g)
  }

  function ViewAt(ops: seq<Op>, n: nat): View
    requires n <= |ops|
  {
    Run(START, ops[..n]).view
  }

  /** The operation at `i` is an add that registered `f`, and it stayed registered. */
  ghost predicate AddedLast(ops: seq<Op>, i: nat, f: Fold) {
    && i < |ops| && ops[i].Add? && ops[i].f == f && f !in ViewAt(ops, i).folds
    && forall m | i < m <= |ops| :: f in ViewAt(ops, m).folds
  }

  lemma ViewNext(ops: seq<Op>, n: nat)
    requires n < |ops|
    ensures ViewAt(ops, n + 1) == Step(Run(START, ops[..n]), ops[n]).view
    ensures Inv(ViewAt(ops, n)) && Inv(ViewAt(ops, n + 1))
  {
    hide Step, Inv;
    assert ops[..n + 1] == ops[..n] + [ops[n]];
    RunOn(START, ops[..n], [ops[n]]);
    RunFirst(Run(START, ops[..n]), ops[n], []);
    assert [ops[n]] + [] == [ops[n]];
    RunNothing(Step(Run(START, ops[..n]), ops[n]));
    EmptyIsFine();
    HistoryKeepsOrder(START, ops[..n]);
    HistoryKeepsOrder(START, ops[..n + 1]);
  }

  /** An operation keeps the order of the folds it leaves registered. */
  lemma StepKeepsBefore(y: System, op: Op, f: Fold, g: Fold)
    requires Inv(y.view) && Before(y.view.folds, f, g)
    requires f in Step(y, op).view.folds && g in Step(y, op).view.folds
    ensures Before(Step(y, op).view.folds, f, g)
  {
    var xs, v := y.view.folds, Step(y, op).view;
    match op
    case Add(h, _, _) =>
      AddExactly(y, op);
      hide Step, Inv;
      if v.folds == xs + [h] { AppendKeepsBefore(xs, h, f, g); }
    case Cancel(h, _) =>
      CancelExactly(y, op);
      hide Step;
      if h in xs && v.folds == xs[..IndexOf(xs, h)] + xs[IndexOf(xs, h) + 1..] { RemoveKeepsBefore(xs, h, f, g); }
    case Restore(order, index, h, _, _) =>
      if index < |order| {
        RestoreExactly(y, op);
        hide Step, RestorationIndex;
        var k := RestorationIndex(xs, order, index);
        if h !in xs && v.folds == xs[..k] + [h] + xs[k..] { InsertKeepsBefore(xs, k, h, f, g); }
      }
    case Abandon(h) => AbandonExactly(y, op);
  }

  lemma AppendKeepsBefore(xs: seq<Fold>, h: Fold, f: Fold, g: Fold)
    requires Before(xs, f, g)
    ensures Before(xs + [h], f, g)
  {
    IndexInFront(xs, [h], f);
    IndexInFront(xs, [h], g);
  }

  lemma IndexInFront(xs: seq<Fold>, ys: seq<Fold>, f: Fold)
    requires f in xs
    ensures f in xs + ys && IndexOf(xs + ys, f) == IndexOf(xs, f)
  {
    var k := IndexOf(xs, f);
    assert (xs + ys)[k] == f;
    assert forall j | 0 <= j < k :: (xs + ys)[j] == xs[j];
  }

  lemma RemoveKeepsBefore(xs: seq<Fold>, h: Fold, f: Fold, g: Fold)
    requires Distinct(xs) && h in xs && Before(xs, f, g)
    requires f in Removed(xs, IndexOf(xs, h)) && g in Removed(xs, IndexOf(xs, h))
    ensures Before(Removed(xs, IndexOf(xs, h)), f, g)
  {
    var k := IndexOf(xs, h);
    RemovedPlace(xs, k, f);
    RemovedPlace(xs, k, g);
  }

  lemma RemovedPlace(xs: seq<Fold>, k: nat, f: Fold)
    requires Distinct(xs) && k < |xs| && f in xs && f in Removed(xs, k)
    ensures IndexOf(xs, f) != k
    ensures IndexOf(Removed(xs, k), f) == if IndexOf(xs, f) < k then IndexOf(xs, f) else IndexOf(xs, f) - 1
  {
    var r, i := Removed(xs, k), IndexOf(xs, f);
    RemovedDistinct(xs, k);
    var j :| 0 <= j < |r| && r[j] == f;
    assert r[j] == xs[if j < k then j else j + 1];
    assert i == if j < k then j else j + 1;
    IndexOfIs(r, j);
  }

  lemma InsertKeepsBefore(xs: seq<Fold>, k: nat, h: Fold, f: Fold, g: Fold)
    requires Distinct(xs) && k <= |xs| && h !in xs && Before(xs, f, g)
    ensures Before(xs[..k] + [h] + xs[k..], f, g)
  {
    InsertedPlace(xs, k, h, f);
    InsertedPlace(xs, k, h, g);
  }

  lemma InsertedPlace(xs: seq<Fold>, k: nat, h: Fold, f: Fold)
    requires Distinct(xs) && k <= |xs| && h !in xs && f in xs
    ensures f in xs[..k] + [h] + xs[k..]
    ensures IndexOf(xs[..k] + [h] + xs[k..], f) == if IndexOf(xs, f) < k then IndexOf(xs, f) else IndexOf(xs, f) + 1
  {
    var r, i := Inserted(xs, k, h), IndexOf(xs, f);
    InsertedDistinct(xs, k, h);
    var j := if i < k then i else i + 1;
    assert r[j] == f;
    IndexOfIs(r, j);
  }

  lemma {:induction false} StaysBefore(ops: seq<Op>, n: nat, m: nat, f: Fold, g: Fold)
    requires n <= m <= |ops| && Before(ViewAt(ops, n).folds, f, g)
    requires forall k | n <= k <= m :: f in ViewAt(ops, k).folds && g in ViewAt(ops, k).folds
    ensures Before(ViewAt(ops, m).folds, f, g)
    decreases m - n
  {
    hide Step, Inv, Before, ViewAt;
    if n < m {
      ViewNext(ops, n);
      ViewIs(ops, n);
      StepKeepsBefore(Run(START, ops[..n]), ops[n], f, g);
      StaysBefore(ops, n + 1, m, f, g);
    }
  }

  lemma ViewIs(ops: seq<Op>, n: nat)
    requires n <= |ops|
    ensures ViewAt(ops, n) == Run(START, ops[..n]).view
  {
  }

  /** Registration order: in every history, restores of other folds among it, the fold
      whose add came first stands first. */
  lemma OlderStandsFirst(ops: seq<Op>, i: nat, j: nat, f: Fold, g: Fold)
    requires i < j && AddedLast(ops, i, f) && AddedLast(ops, j, g)
    ensures Before(Run(START, ops).view.folds, f, g)
  {
    hide Step, Inv, Before;
    assert j < |ops|;
    JustAdded(ops, i, j, f, g);
    hide AddedLast;
    NowRegistered(ops, i, f);
    NowRegistered(ops, j, g);
    StaysBefore(ops, j + 1, |ops|, f, g);
    assert ops[..|ops|] == ops;
  }

  lemma JustAdded(ops: seq<Op>, i: nat, j: nat, f: Fold, g: Fold)
    requires i < j && AddedLast(ops, i, f) && AddedLast(ops, j, g)
    ensures Before(ViewAt(ops, j + 1).folds, f, g)
  {
    hide Step, Inv, Before;
    ViewNext(ops, j);
    AddExactly(Run(START, ops[..j]), ops[j]);
    assert f in ViewAt(ops, j).folds && g in ViewAt(ops, j + 1).folds;
    NewStandsLast(ViewAt(ops, j).folds, f, g);
  }

  lemma NowRegistered(ops: seq<Op>, i: nat, f: Fold)
    requires AddedLast(ops, i, f)
    ensures forall m | i < m <= |ops| :: f in ViewAt(ops, m).folds
  {
  }

  lemma NewStandsLast(xs: seq<Fold>, f: Fold, g: Fold)
    requires f in xs && g !in xs
    ensures Before(xs + [g], f, g)
  {
    IndexInFront(xs, [g], f);
    assert (xs + [g])[|xs|] == g;
    assert g in xs + [g];
  }

  /** Every registered fold got there by its last add or restore. */
  lemma {:induction false} RegisteredSince(ops: seq<Op>, n: nat, f: Fold) returns (i: nat)
    requires n <= |ops| && f in ViewAt(ops, n).folds
    ensures i < n && (ops[i].Add? || ops[i].Restore?) && ops[i].f == f && f !in ViewAt(ops, i).folds
    ensures forall m | i < m <= n :: f in ViewAt(ops, m).folds
    decreases n
  {
    hide Step, Inv;
    NothingAtFirst(ops);
    ViewNext(ops, n - 1);
    if f in ViewAt(ops, n - 1).folds {
      i := RegisteredSince(ops, n - 1, f);
    } else {
      i := n - 1;
      OnlyPutInBy(Run(START, ops[..n - 1]), ops[n - 1], f);
    }
  }

  lemma NothingAtFirst(ops: seq<Op>)
    ensures ViewAt(ops, 0).folds == []
  {
    assert ops[..0] == [];
  }

  lemma OnlyPutInBy(y: System, op: Op, f: Fold)
    requires Inv(y.view) && f !in y.view.folds && f in Step(y, op).view.folds
    ensures (op.Add? || op.Restore?) && op.f == f
  {
    match op
    case Add(_, _, _) => AddExactly(y, op); hide Step;
    case Cancel(_, _) => CancelExactly(y, op); hide Step;
    case Restore(order, index, _, _, _) => if index < |order| { RestoreExactly(y, op); hide Step, RestorationIndex; }
    case Abandon(_) => AbandonExactly(y, op);
  }

  // -------------------------------------------------------------- dispatch in order

  lemma {:induction false} KeepOrder(xs: seq<Fold>, s: set<Fold>, f: Fold, g: Fold)
    requires Distinct(xs) && Before(xs, f, g) && f in s && g in s
    ensures Before(Keep(xs, s), f, g)
    decreases |xs|
  {
    var rest := xs[1..];
    if xs[0] == f {
      assert g in rest;
      assert Keep(xs, s) == [f] + Keep(rest, s);
      assert Keep(xs, s)[0] == f && g in Keep(rest, s) && f != g;
    } else {
      RestBefore(xs, f, g);
      KeepOrder(rest, s, f, g);
      if xs[0] in s { HeadKeepsBefore(xs[0], Keep(rest, s), f, g); }
    }
  }

  lemma RestBefore(xs: seq<Fold>, f: Fold, g: Fold)
    requires xs != [] && xs[0] != f && Before(xs, f, g)
    ensures Before(xs[1..], f, g)
  {
    assert IndexOf(xs, f) == 1 + IndexOf(xs[1..], f);
    assert IndexOf(xs, g) == 1 + IndexOf(xs[1..], g);
  }

  lemma HeadKeepsBefore(h: Fold, xs: seq<Fold>, f: Fold, g: Fold)
    requires Before(xs, f, g) && h != f && h != g
    ensures Before([h] + xs, f, g)
  {
    assert ([h] + xs)[1..] == xs;
  }

  /** Of two folds a change is delivered to, the one added first is attempted first. */
  lemma OlderAttemptedFirst<R, E>(h: Host<World<R>, E>, w: World<R>, history: seq<Op>, c: Change,
                                  ops: seq<seq<Op>>, tried: seq<nat>, i: nat, j: nat, f: Fold, g: Fold)
    requires Dispatched(h, w, history, c, ops, |CandidatesOf(w.registry.view, c.space, c.atom)|, tried)
    requires i < j && AddedLast(history, i, f) && AddedLast(history, j, g)
    requires var cs := CandidatesOf(w.registry.view, c.space, c.atom);
             |ops| == |cs| && f in Turned(w.registry, cs, c, ops) && g in Turned(w.registry, cs, c, ops)
    ensures var cs := CandidatesOf(w.registry.view, c.space, c.atom);
            (forall k | 0 <= k < |tried| :: tried[k] < |cs|) && Before(Folds(cs, tried), f, g)
  {
    var cs := CandidatesOf(w.registry.view, c.space, c.atom);
    DispatchExactly(h, w, history, c, ops, |cs|, tried);
    OlderStandsFirst(history, i, j, f, g);
    EmptyIsFine();
    HistoryKeepsOrder(START, history);
    InvIsDistinct(w.registry.view);
    hide Run, Inv, Turned, CandidatesOf, Keep, Before, AddedLast;
    KeepOrder(w.registry.view.folds, Turned(w.registry, cs, c, ops), f, g);
  }

  lemma InvIsDistinct(v: View)
    requires Inv(v)
    ensures Distinct(v.folds)
  {
  }
}
