/** The fold registry: every registered fold in order, one pattern tree per space, and
    the engine's list of watched spaces. */
module FoldRegistries {
  import opened Sequences
  import opened Atoms
  import opened Matching
  import opened TokenPaths
  import opened MatchIndexes
  import opened RestoreOrder
  import Names

  /** One consumer, as the registry sees it. */
  class Fold {
    const space: string
    const pattern: Atom
    const on: string
    var active: bool

    constructor (space: string, pattern: Atom, on: string)
      ensures this.space == space && this.pattern == pattern && this.on == on && active
    {
      this.space, this.pattern, this.on, this.active := space, pattern, on, true;
    }

    /** An abandoned watch stops delivering at once, under no lock. */
    method Abandon()
      modifies this`active
      ensures !active
    {
      active := false;
    }
  }

  // ------------------------------------------------------------- watched spaces

  function SpacesOf(folds: seq<Fold>): (r: seq<string>)
    ensures |r| == |folds|
    ensures forall i | 0 <= i < |folds| :: r[i] == folds[i].space
  {
    seq(|folds|, i requires 0 <= i < |folds| => folds[i].space)
  }

  /** The sorted list of the distinct spaces folds are registered on. */
  function Spaces(folds: seq<Fold>): (r: seq<string>)
    ensures Names.Ascends(r)
    ensures forall s :: s in r <==> exists i :: 0 <= i < |folds| && folds[i].space == s
  {
    assert forall s :: s in SpacesOf(folds) <==> exists i :: 0 <= i < |folds| && folds[i].space == s;
    Names.Sorted(SpacesOf(folds))
  }

  // ------------------------------------------------------------------- the view

  /** The list, the deliverable folds in it, and each tree's folds, oldest entry first. */
  datatype View = View(folds: seq<Fold>, active: set<Fold>, trees: map<string, seq<Fold>>)

  function Members(xs: seq<Fold>): set<Fold> {
    set f | f in xs
  }

  /** A tree holds registered folds of its own space, in list order. */
  predicate TreeInOrder(v: View, s: string)
    requires s in v.trees
  {
    && v.trees[s] == Keep(v.folds, Members(v.trees[s]))
    && forall f | f in v.trees[s] :: f.space == s
  }

  predicate Filed(v: View, f: Fold) {
    f.space in v.trees && f in v.trees[f.space]
  }

  /** Every tree is in list order and every deliverable fold is filed. */
  predicate Inv(v: View) {
    && Distinct(v.folds)
    && (forall s | s in v.trees :: TreeInOrder(v, s))
    && (forall f | f in v.active :: f in v.folds && Filed(v, f))
  }

  /** The deliverable folds on one space, in list order: the scan the trees stand for. */
  function OnSpace(v: View, s: string): seq<Fold> {
    Keep(v.folds, set f | f in v.active && f.space == s)
  }

  function TreeOf(v: View, s: string): seq<Fold> {
    if s in v.trees then v.trees[s] else []
  }

  function WithAdded(v: View, f: Fold, isActive: bool): View {
    View(v.folds + [f], if isActive then v.active + {f} else v.active,
         v.trees[f.space := TreeOf(v, f.space) + [f]])
  }

  function WithCancelled(v: View, f: Fold): View {
    View(Dropped(v.folds, f), v.active - {f},
         if f.space in v.trees then v.trees[f.space := Dropped(v.trees[f.space], f)] else v.trees)
  }

  function WithRestored(v: View, order: seq<Fold>, index: nat, f: Fold, isActive: bool): View
    requires index < |order|
  {
    var folds := Inserted(v.folds, RestorationIndex(v.folds, order, index), f);
    var listed := View(folds, if isActive then v.active + {f} else v.active, v.trees);
    listed.(trees := v.trees[f.space := OnSpace(listed, f.space)])
  }

  function WithAbandoned(v: View, f: Fold): View {
    v.(active := v.active - {f})
  }

  // -------------------------------------------------------- what each change keeps

  lemma {:induction false} KeepSub(xs: seq<Fold>, ys: seq<Fold>, s: set<Fold>)
    requires Keep(xs, Members(ys)) == ys && s <= Members(ys)
    ensures Keep(xs, s) == Keep(ys, s)
    decreases |xs|
  {
    KeepKeep(xs, Members(ys), s);
  }

  lemma {:induction false} KeepKeep(xs: seq<Fold>, r: set<Fold>, s: set<Fold>)
    requires s <= r
    ensures Keep(Keep(xs, r), s) == Keep(xs, s)
    decreases |xs|
  {
    if xs != [] {
      KeepKeep(xs[1..], r, s);
      if xs[0] in r { assert ([xs[0]] + Keep(xs[1..], r))[1..] == Keep(xs[1..], r); }
    }
  }

  /** Keeping exactly the members of a kept list changes nothing. */
  lemma KeepMembers(xs: seq<Fold>, s: set<Fold>)
    ensures Keep(xs, Members(Keep(xs, s))) == Keep(xs, s)
  {
    forall f | f in xs ensures f in s <==> f in Members(Keep(xs, s)) {}
    KeepSame(xs, s, Members(Keep(xs, s)));
  }

  lemma AddedTree(v: View, f: Fold, isActive: bool, s: string)
    requires Inv(v) && f !in v.folds && s in WithAdded(v, f, isActive).trees
    ensures TreeInOrder(WithAdded(v, f, isActive), s)
  {
    var w := WithAdded(v, f, isActive);
    var tree, before := w.trees[s], TreeOf(v, s);
    if s in v.trees { assert TreeInOrder(v, s); } else { KeepNothing(v.folds); }
    assert Members([]) == {};
    assert Keep(v.folds, Members(before)) == before;
    KeepAppend(v.folds, [f], Members(tree));
    forall g | g in v.folds ensures g in Members(before) <==> g in Members(tree) { assert g != f; }
    KeepSame(v.folds, Members(before), Members(tree));
    if s == f.space {
      assert tree == before + [f] && f in tree;
      assert Keep([f], Members(tree)) == [f];
    } else {
      assert tree == before && f !in tree;
      assert Keep([f], Members(tree)) == [];
    }
  }

  lemma AddedKeeps(v: View, f: Fold, isActive: bool)
    requires Inv(v) && f !in v.folds
    ensures Inv(WithAdded(v, f, isActive))
  {
    var w := WithAdded(v, f, isActive);
    forall s | s in w.trees ensures TreeInOrder(w, s) { AddedTree(v, f, isActive, s); }
    forall g | g in w.active ensures g in w.folds && Filed(w, g) {
      if g != f { assert Filed(v, g); }
    }
  }

  lemma {:induction false} KeepNothing(xs: seq<Fold>)
    ensures Keep(xs, {}) == []
    decreases |xs|
  {
    if xs != [] { KeepNothing(xs[1..]); }
  }

  lemma CancelledKeeps(v: View, f: Fold)
    requires Inv(v)
    ensures Inv(WithCancelled(v, f))
  {
    var w := WithCancelled(v, f);
    DroppedDistinct(v.folds, f);
    KeepAll(v.folds);
    DroppedKeep(v.folds, Members(v.folds), f);
    forall s | s in w.trees ensures TreeInOrder(w, s) {
      assert TreeInOrder(v, s);
      CancelledTree(v, f, s);
    }
    forall g | g in w.active ensures g in w.folds && Filed(w, g) {
      assert Filed(v, g);
      StillThere(v.folds, f, g);
      if g.space == f.space { StillThere(v.trees[g.space], f, g); }
    }
  }

  lemma StillThere(xs: seq<Fold>, f: Fold, g: Fold)
    requires g in xs && g != f
    ensures g in Dropped(xs, f)
  {
    DroppedIsRemoved(xs, f);
    if f in xs {
      var k, r := IndexOf(xs, f), Removed(xs, IndexOf(xs, f));
      var j :| 0 <= j < |xs| && xs[j] == g;
      assert g == if j < k then r[j] else r[j - 1];
    }
  }

  lemma {:induction false} KeepAll(xs: seq<Fold>)
    ensures Keep(xs, Members(xs)) == xs
  {
    AllKept(xs, Members(xs));
  }

  lemma CancelledTree(v: View, f: Fold, s: string)
    requires Inv(v) && s in v.trees
    ensures TreeInOrder(WithCancelled(v, f), s)
  {
    var w := WithCancelled(v, f);
    var tree := v.trees[s];
    assert TreeInOrder(v, s);
    KeepDistinct(v.folds, Members(tree));
    DroppedDistinct(tree, f);
    forall g | g in tree ensures g in Members(w.trees[s]) <==> g != f {
      if g != f && s == f.space { StillThere(tree, f, g); }
    }
    assert Members(w.trees[s]) == Members(tree) - {f};
    // keeping from the shortened list is keeping all but `f` from the whole list
    KeepAll(v.folds);
    DroppedKeep(v.folds, Members(v.folds), f);
    KeepKeep(v.folds, Members(v.folds) - {f}, Members(w.trees[s]));
    if s == f.space {
      DroppedKeep(v.folds, Members(tree), f);
    } else {
      assert f !in tree;
    }
  }

  lemma RestoredKeeps(v: View, order: seq<Fold>, index: nat, f: Fold, isActive: bool)
    requires Inv(v) && f !in v.folds && index < |order|
    ensures Inv(WithRestored(v, order, index, f, isActive))
  {
    var w := WithRestored(v, order, index, f, isActive);
    var k := RestorationIndex(v.folds, order, index);
    assert Distinct(w.folds) by { InsertedDistinct(v.folds, k, f); }
    forall s | s in w.trees ensures TreeInOrder(w, s) {
      if s == f.space {
        KeepMembers(w.folds, set g | g in w.active && g.space == s);
      } else {
        assert TreeInOrder(v, s) && f !in v.trees[s];
        InsertedUnkept(v.folds, k, f, Members(v.trees[s]));
      }
    }
    forall g | g in w.active ensures g in w.folds && Filed(w, g) {
      if g in v.active { assert Filed(v, g); }
      assert g in w.folds;
    }
  }

  lemma InsertedDistinct(xs: seq<Fold>, k: nat, f: Fold)
    requires Distinct(xs) && k <= |xs| && f !in xs
    ensures Distinct(Inserted(xs, k, f))
    ensures forall g :: g in Inserted(xs, k, f) <==> g == f || g in xs
  {
    var r := Inserted(xs, k, f);
    assert xs == xs[..k] + xs[k..];
    assert r[k] == f;
    forall g | g in xs ensures g in r {
      var j :| 0 <= j < |xs| && xs[j] == g;
      assert g == if j < k then r[j] else r[j + 1];
    }
  }

  lemma InsertedUnkept(xs: seq<Fold>, k: nat, f: Fold, s: set<Fold>)
    requires k <= |xs| && f !in s
    ensures Keep(Inserted(xs, k, f), s) == Keep(xs, s)
  {
    KeepPast(xs[k..], f, s);
    hide Keep;
    KeepAppend(xs[..k], [f] + xs[k..], s);
    KeepAppend(xs[..k], xs[k..], s);
    assert xs == xs[..k] + xs[k..];
    assert Inserted(xs, k, f) == xs[..k] + ([f] + xs[k..]);
  }

  lemma KeepPast(xs: seq<Fold>, f: Fold, s: set<Fold>)
    requires f !in s
    ensures Keep([f] + xs, s) == Keep(xs, s)
  {
    assert ([f] + xs)[1..] == xs;
  }

  /** Clearing a flag without the lock breaks nothing. */
  lemma AbandonedKeeps(v: View, f: Fold)
    requires Inv(v)
    ensures Inv(WithAbandoned(v, f))
  {
    var w := WithAbandoned(v, f);
    forall s | s in w.trees ensures TreeInOrder(w, s) { assert TreeInOrder(v, s); }
    forall g | g in w.active ensures g in w.folds && Filed(w, g) { assert Filed(v, g); }
  }

  // ---------------------------------------------------------------- candidates

  function Select(xs: seq<Fold>, atom: Atom): (r: seq<Fold>)
    ensures forall f | f in r :: f in xs && Answers(f.pattern, atom)
    ensures forall f | f in xs && Answers(f.pattern, atom) :: f in r
  {
    if xs == [] then []
    else if Answers(xs[0].pattern, atom) then [xs[0]] + Select(xs[1..], atom)
    else Select(xs[1..], atom)
  }

  /** What dispatch is offered: the list for an atom with variables, else the tree. */
  function CandidatesOf(v: View, s: string, atom: Atom): seq<Fold> {
    if !IsGround(atom) then OnSpace(v, s) else Select(TreeOf(v, s), atom)
  }

  /** The folds an atom arriving in a space must reach. */
  function Interested(v: View, s: string, atom: Atom): set<Fold> {
    set f | f in v.active && f.space == s && Match(f.pattern, atom).Some?
  }

  /** Those of them whose pattern has the atom's tokens, if the atom is ground. */
  function Served(v: View, s: string, atom: Atom): set<Fold> {
    set f | f in Interested(v, s, atom) && (IsGround(atom) ==> SameTokens(f.pattern, atom))
  }

  lemma {:induction false} SelectIsKeep(xs: seq<Fold>, atom: Atom, s: set<Fold>)
    requires forall f | f in xs :: f in s <==> Answers(f.pattern, atom)
    ensures Select(xs, atom) == Keep(xs, s)
    decreases |xs|
  {
    if xs != [] {
      assert xs[0] in xs;
      forall f | f in xs[1..] ensures f in s <==> Answers(f.pattern, atom) { assert f in xs; }
      SelectIsKeep(xs[1..], atom, s);
    }
  }

  /** What a candidate must still pass: it is active and its pattern matches. */
  function Reached(v: View, s: string, atom: Atom): seq<Fold> {
    Keep(CandidatesOf(v, s, atom), Interested(v, s, atom))
  }

  /** Dispatch through the trees reaches a fold exactly when the scan does and, for a
      ground atom, its pattern has the atom's tokens; and always in list order. */
  lemma ReachedExactly(v: View, s: string, atom: Atom)
    requires Inv(v)
    ensures Reached(v, s, atom) == Keep(v.folds, Served(v, s, atom))
  {
    hide Match, SameTokens;
    var wanted, found := Interested(v, s, atom), Served(v, s, atom);
    if !IsGround(atom) {
      assert found == wanted;
      KeepKeep(v.folds, (set f | f in v.active && f.space == s), wanted);
    } else {
      var tree := TreeOf(v, s);
      var answering := set f | f in tree && Answers(f.pattern, atom);
      SelectIsKeep(tree, atom, answering);
      if s in v.trees { assert TreeInOrder(v, s); } else { KeepNothing(v.folds); assert Members(tree) == {}; }
      KeepSub(v.folds, tree, answering);
      forall f ensures f in found <==> f in answering && f in wanted {
        if f in found { assert Filed(v, f); }
      }
      assert found == answering * wanted;
      CommonKeep(v.folds, answering, wanted, found);
    }
  }

  lemma CommonKeep(xs: seq<Fold>, a: set<Fold>, b: set<Fold>, c: set<Fold>)
    requires c == a * b
    ensures Keep(Keep(xs, a), b) == Keep(xs, c)
  {
    KeepKeep(xs, a, c);
    forall f | f in Keep(xs, a) ensures f in b <==> f in c {}
    KeepSame(Keep(xs, a), b, c);
  }

  /** Indexed dispatch refines the scan: when no pattern of the space and the atom hold
      a space handle or both a not-a-number, the folds reached are exactly the active
      ones of the space whose pattern matches, in registration order. */
  lemma IndexedDispatchIsScan(v: View, s: string, atom: Atom)
    requires Inv(v)
    requires IsGround(atom) ==> forall f | f in v.active && f.space == s :: Comparable(f.pattern, atom)
    ensures Reached(v, s, atom) == Keep(v.folds, Interested(v, s, atom))
  {
    ReachedExactly(v, s, atom);
    var wanted := Interested(v, s, atom);
    forall f | f in wanted ensures IsGround(atom) ==> SameTokens(f.pattern, atom) {
      if IsGround(atom) {
        MatchExact(f.pattern, atom);
        InstanceSharesTokens(f.pattern, atom, Match(f.pattern, atom).value);
      }
    }
    assert wanted == Served(v, s, atom);
  }

  /** The exact condition: the two agree when, and only when, every interested fold's
      pattern has the ground atom's tokens outside its variables. */
  lemma IndexedDispatchIsScanExactly(v: View, s: string, atom: Atom)
    requires Inv(v) && IsGround(atom)
    ensures Reached(v, s, atom) == Keep(v.folds, Interested(v, s, atom)) <==>
              forall f | f in Interested(v, s, atom) :: SameTokens(f.pattern, atom)
  {
    ReachedExactly(v, s, atom);
    var wanted := Interested(v, s, atom);
    var found := Served(v, s, atom);
    if forall f | f in wanted :: SameTokens(f.pattern, atom) {
      assert found == wanted;
    } else {
      var f :| f in wanted && !SameTokens(f.pattern, atom);
      assert f in Keep(v.folds, wanted) && f !in Keep(v.folds, found);
    }
  }

  /** The candidates are registered folds of the space, in list order. */
  lemma CandidatesInOrder(v: View, s: string, atom: Atom)
    requires Inv(v)
    ensures var cs := CandidatesOf(v, s, atom);
            && cs == Keep(v.folds, Members(cs)) && Distinct(cs)
            && forall f | f in cs :: f in v.folds && f.space == s
  {
    hide Match, SameTokens;
    var cs := CandidatesOf(v, s, atom);
    if IsGround(atom) {
      var tree := TreeOf(v, s);
      var answering := set f | f in tree && Answers(f.pattern, atom);
      SelectIsKeep(tree, atom, answering);
      if s in v.trees { assert TreeInOrder(v, s); } else { KeepNothing(v.folds); assert Members(tree) == {}; }
      KeepSub(v.folds, tree, answering);
      KeepMembers(v.folds, answering);
    } else {
      KeepMembers(v.folds, set f | f in v.active && f.space == s);
    }
    KeepDistinct(v.folds, Members(cs));
  }

  /** A fold the trees serve is a candidate. */
  lemma ServedIsCandidate(v: View, s: string, atom: Atom, f: Fold)
    requires Inv(v) && f in Served(v, s, atom)
    ensures f in CandidatesOf(v, s, atom)
  {
    hide Match, SameTokens;
    ReachedExactly(v, s, atom);
    assert f in v.folds;
    assert f in Keep(v.folds, Served(v, s, atom));
  }

  // -------------------------------------------------------------- whole histories

  /** What became of a publication: the engine took it; it failed and the old list was
      put back; or both failed and the engine's list is whatever it is. */
  datatype Outcome = Accepted | RolledBack | Lost(found: seq<string>)

  /** The registry together with the engine's list of watched spaces. */
  datatype System = System(view: View, watched: seq<string>)

  datatype Op =
    | Add(f: Fold, isActive: bool, outcome: Outcome)
    | Cancel(f: Fold, outcome: Outcome)
    | Restore(order: seq<Fold>, index: nat, f: Fold, isActive: bool, outcome: Outcome)
    | Abandon(f: Fold)

  /** Publish a candidate view; it takes effect only when its spaces are in force. */
  function Publish(y: System, candidate: View, outcome: Outcome): System {
    if Spaces(y.view.folds) == Spaces(candidate.folds) then System(candidate, y.watched)
    else match outcome
         case Accepted => System(candidate, Spaces(candidate.folds))
         case RolledBack => System(y.view, Spaces(y.view.folds))
         case Lost(found) => System(y.view, found)
  }

  /** One operation; a refused one changes nothing. */
  function Step(y: System, op: Op): System {
    match op
    case Add(f, isActive, outcome) =>
      if f in y.view.folds then y else Publish(y, WithAdded(y.view, f, isActive), outcome)
    case Cancel(f, outcome) =>
      if f !in y.view.folds then y else Publish(y, WithCancelled(y.view, f), outcome)
    case Restore(order, index, f, isActive, outcome) =>
      if f in y.view.folds || f in y.view.active || index >= |order| then y
      else Publish(y, WithRestored(y.view, order, index, f, isActive), outcome)
    case Abandon(f) => y.(view := WithAbandoned(y.view, f))
  }

  function Run(y: System, ops: seq<Op>): System
    decreases |ops|
  {
    if ops == [] then y else Run(Step(y, ops[0]), ops[1..])
  }

  lemma StepKeeps(y: System, op: Op)
    requires Inv(y.view)
    ensures Inv(Step(y, op).view)
  {
    hide Inv, WithAdded, WithCancelled, WithRestored, WithAbandoned, Spaces;
    match op
    case Add(f, isActive, outcome) => if f !in y.view.folds { AddedKeeps(y.view, f, isActive); }
    case Cancel(f, outcome) => if f in y.view.folds { CancelledKeeps(y.view, f); }
    case Restore(order, index, f, isActive, outcome) =>
      if f !in y.view.folds && index < |order| { RestoredKeeps(y.view, order, index, f, isActive); }
    case Abandon(f) => AbandonedKeeps(y.view, f);
  }

  /** A registry nothing was ever added to. */
  const START := System(View([], {}, map[]), [])

  /** Every history of adds, cancels, restores and abandonments, publications failing or
      not, keeps every tree in list order with every active fold filed. */
  lemma {:induction false} HistoryKeepsOrder(y: System, ops: seq<Op>)
    requires Inv(y.view)
    ensures Inv(Run(y, ops).view)
    decreases |ops|
  {
    if ops != [] {
      StepKeeps(y, ops[0]);
      HistoryKeepsOrder(Step(y, ops[0]), ops[1..]);
    }
  }

  /** After every history, an atom with variables reaches exactly what the scan would, in
      list order; a ground atom does exactly when the pattern of every interested fold
      has its tokens, which holds when no space handle and no two not-a-numbers meet. */
  lemma HistoryDispatchIsScan(ops: seq<Op>, s: string, atom: Atom)
    ensures var v := Run(START, ops).view;
            && (!IsGround(atom) ==> Reached(v, s, atom) == Keep(v.folds, Interested(v, s, atom)))
            && (IsGround(atom) ==>
                  (Reached(v, s, atom) == Keep(v.folds, Interested(v, s, atom)) <==>
                   forall f | f in Interested(v, s, atom) :: SameTokens(f.pattern, atom)))
            && ((forall f | f in v.active && f.space == s :: Comparable(f.pattern, atom)) ==>
                  Reached(v, s, atom) == Keep(v.folds, Interested(v, s, atom)))
  {
    hide Inv, Reached, Interested, Comparable, Run, SameTokens, Keep;
    EmptyIsFine();
    HistoryKeepsOrder(START, ops);
    var v := Run(START, ops).view;
    if IsGround(atom) { IndexedDispatchIsScanExactly(v, s, atom); } else { IndexedDispatchIsScan(v, s, atom); }
    if forall f | f in v.active && f.space == s :: Comparable(f.pattern, atom) { IndexedDispatchIsScan(v, s, atom); }
  }

  lemma EmptyIsFine()
    ensures Inv(START.view)
  {
  }

  predicate Recovered(op: Op) {
    op.Abandon? || !op.outcome.Lost?
  }

  /** While every failed publication was rolled back, the engine watches exactly the
      sorted list of the spaces folds are registered on. */
  lemma {:induction false} EngineAgrees(y: System, ops: seq<Op>)
    requires y.watched == Spaces(y.view.folds)
    requires forall i | 0 <= i < |ops| :: Recovered(ops[i])
    ensures Run(y, ops).watched == Spaces(Run(y, ops).view.folds)
    decreases |ops|
  {
    hide Step, Spaces, Recovered;
    if ops != [] {
      StepAgrees(y, ops[0]);
      forall i | 0 <= i < |ops[1..]| ensures Recovered(ops[1..][i]) { assert ops[1..][i] == ops[i + 1]; }
      EngineAgrees(Step(y, ops[0]), ops[1..]);
    }
  }

  lemma StepAgrees(y: System, op: Op)
    requires y.watched == Spaces(y.view.folds) && Recovered(op)
    ensures Step(y, op).watched == Spaces(Step(y, op).view.folds)
  {
    hide Spaces, WithAdded, WithCancelled, WithRestored;
  }
}
