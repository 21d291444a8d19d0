/** The registry object, its methods proved against the changes of the plain view. */
module FoldRegistryObject {
  import opened Sequences
  import opened Atoms
  import opened TokenPaths
  import opened MatchIndexes
  import opened RestoreOrder
  import opened FoldRegistries

  /** The engine's side of a publication. A call that fails may have left any list. */
  class Runtime {
    var watched: seq<string>

    constructor ()
      ensures watched == []
    {
      watched := [];
    }

    method Must(spaces: seq<string>) returns (ok: bool)
      modifies this
      ensures ok ==> watched == spaces
    {
      ok := *;
      if ok { watched := spaces; } else { watched := *; }
    }
  }

  datatype Refusal =
    | ForeignRuntime
    | AlreadyRegistered
    | MissingActive
    | NoRuntime
    | NotRestorable
    | Unpublished(rolledBack: bool)

  /** What a cancel hands back for its restore. */
  datatype Cancellation = Cancellation(order: seq<Fold>, index: nat, active: bool, runtime: Runtime)

  datatype Reply<+T> = Done(value: T) | Raised(refusal: Refusal)

  /** The entries of a tree over these folds. */
  function Paired(folds: seq<Fold>): (r: seq<(Atom, Fold)>)
    ensures |r| == |folds|
    ensures forall i | 0 <= i < |folds| :: r[i] == (folds[i].pattern, folds[i])
  {
    seq(|folds|, i requires 0 <= i < |folds| => (folds[i].pattern, folds[i]))
  }

  function Unpaired(entries: seq<(Atom, Fold)>): (r: seq<Fold>)
    ensures |r| == |entries|
    ensures forall i | 0 <= i < |entries| :: r[i] == entries[i].1
  {
    seq(|entries|, i requires 0 <= i < |entries| => entries[i].1)
  }

  lemma KeepNone(s: set<Fold>)
    ensures Keep([], s) == []
  {
  }

  lemma KeepNext(xs: seq<Fold>, i: nat, s: set<Fold>)
    requires i < |xs|
    ensures Keep(xs[..i + 1], s) == if xs[i] in s then Keep(xs[..i], s) + [xs[i]] else Keep(xs[..i], s)
  {
    assert xs[..i + 1] == xs[..i] + [xs[i]];
    KeepAppend(xs[..i], [xs[i]], s);
  }

  lemma PairedAppend(folds: seq<Fold>, f: Fold)
    ensures Paired(folds + [f]) == Paired(folds) + [(f.pattern, f)]
  {
  }

  lemma {:induction false} PairedWithout(folds: seq<Fold>, f: Fold)
    ensures Without(Paired(folds), f.pattern, f) == Paired(Dropped(folds, f))
    decreases |folds|
  {
    if folds != [] {
      assert Paired(folds)[1..] == Paired(folds[1..]);
      AtomEqReflexive(f.pattern);
      PairedWithout(folds[1..], f);
      assert Same(Paired(folds)[0], f.pattern, f) <==> folds[0] == f;
      if folds[0] != f {
        assert [Paired(folds)[0]] + Paired(Dropped(folds[1..], f)) == Paired([folds[0]] + Dropped(folds[1..], f));
      }
    }
  }

  lemma {:induction false} PairedSelect(folds: seq<Fold>, probe: Atom)
    ensures Unpaired(MatchIndexes.Select(Paired(folds), probe)) == FoldRegistries.Select(folds, probe)
    decreases |folds|
  {
    hide Answers;
    if folds != [] {
      var front, last := folds[..|folds| - 1], folds[|folds| - 1];
      assert folds == front + [last];
      hide Paired, Unpaired, MatchIndexes.Select, FoldRegistries.Select;
      PairedSelect(front, probe);
      PairedAppend(front, last);
      EntriesSelectAppend(Paired(front), (last.pattern, last), probe);
      UnpairedAppend(MatchIndexes.Select(Paired(front), probe), (last.pattern, last));
      SelectAppend(front, last, probe);
    }
  }

  lemma EntriesSelectAppend(es: seq<(Atom, Fold)>, e: (Atom, Fold), probe: Atom)
    ensures MatchIndexes.Select(es + [e], probe) ==
            if Answers(e.0, probe) then MatchIndexes.Select(es, probe) + [e] else MatchIndexes.Select(es, probe)
  {
    hide Answers;
    assert (es + [e])[..|es|] == es;
  }

  lemma UnpairedAppend(es: seq<(Atom, Fold)>, e: (Atom, Fold))
    ensures Unpaired(es + [e]) == Unpaired(es) + [e.1]
  {
  }

  lemma {:induction false} SelectAppend(front: seq<Fold>, last: Fold, probe: Atom)
    ensures FoldRegistries.Select(front + [last], probe) ==
            if Answers(last.pattern, probe) then FoldRegistries.Select(front, probe) + [last]
            else FoldRegistries.Select(front, probe)
    decreases |front|
  {
    hide Answers;
    if front == [] {
      assert front + [last] == [last];
    } else {
      assert (front + [last])[1..] == front[1..] + [last];
      SelectAppend(front[1..], last, probe);
    }
  }

  class FoldRegistry {
    var folds: seq<Fold>
    var indexes: map<string, MatchIndex<Fold>>
    var runtime: Runtime?
    ghost var trees: map<string, seq<Fold>>

    ghost function Plain(): View
      reads this`folds, this`trees, folds
    {
      View(folds, (set f | f in folds && f.active), trees)
    }

    /** Every space's index holds exactly its tree's folds, and no two share an object. */
    ghost predicate Indexed()
      reads this`indexes, this`trees, indexes.Values
    {
      && indexes.Keys == trees.Keys
      && (forall s | s in indexes :: indexes[s].Valid() && indexes[s].Entries() == Paired(trees[s]))
      && (forall s, t | s in indexes && t in indexes && s != t :: indexes[s] != indexes[t])
    }

    ghost predicate Valid()
      reads this`folds, this`indexes, this`trees, folds, indexes.Values
    {
      Inv(Plain()) && Indexed()
    }

    constructor ()
      ensures Valid() && Plain() == View([], {}, map[]) && runtime == null && fresh(indexes.Values)
    {
      folds, indexes, runtime, trees := [], map[], null, map[];
    }

    /** Tell the engine the candidate's spaces if they differ from the ones in force. */
    method PublishLocked(rt: Runtime, candidate: seq<Fold>) returns (outcome: Option<Outcome>)
      modifies rt
      ensures outcome == None <==> Spaces(folds) == Spaces(candidate)
      ensures outcome == None ==> rt.watched == old(rt.watched)
      ensures outcome == Some(Accepted) ==> rt.watched == Spaces(candidate)
      ensures outcome == Some(RolledBack) ==> rt.watched == Spaces(folds)
      ensures outcome.Some? && outcome.value.Lost? ==> outcome.value.found == rt.watched
    {
      var current, wanted := Spaces(folds), Spaces(candidate);
      if current == wanted { return None; }
      var ok := rt.Must(wanted);
      if ok { return Some(Accepted); }
      ok := rt.Must(current);
      if ok { return Some(RolledBack); }
      return Some(Lost(rt.watched));
    }

    /** File a fold last in its space's tree, which is made when missing. */
    method FileLocked(f: Fold)
      requires Indexed()
      modifies this`indexes, this`trees, if f.space in indexes then {indexes[f.space]} else {}
      ensures Indexed()
      ensures trees == old(trees)[f.space := (if f.space in old(trees) then old(trees)[f.space] else []) + [f]]
      ensures forall s | s in old(indexes) :: s in indexes && indexes[s] == old(indexes[s])
      ensures forall s | s in indexes && s !in old(indexes) :: fresh(indexes[s])
    {
      hide MatchIndex.Valid, MatchIndex.Entries, Paired;
      ghost var before := if f.space in trees then trees[f.space] else [];
      assert [] + [f] == [f];
      PairedAppend(before, f);
      if f.space in indexes {
        indexes[f.space].Add(f.pattern, f);
      } else {
        var tree := NewTree(f);
        indexes := indexes[f.space := tree];
      }
      trees := trees[f.space := before + [f]];
    }

    /** A tree that holds one fold. */
    method NewTree(f: Fold) returns (tree: MatchIndex<Fold>)
      ensures fresh(tree) && tree.Valid() && tree.Entries() == Paired([f])
    {
      tree := new MatchIndex<Fold>();
      tree.Add(f.pattern, f);
    }

    /** Take a fold out of its space's tree, if it stands there. */
    method UnfileLocked(f: Fold)
      requires Indexed()
      modifies this`trees, if f.space in indexes then {indexes[f.space]} else {}
      ensures Indexed()
      ensures trees == if f.space in old(trees) then old(trees)[f.space := Dropped(old(trees)[f.space], f)]
                       else old(trees)
    {
      hide MatchIndex.Valid, MatchIndex.Entries, Paired, Without, Dropped;
      if f.space in indexes {
        PairedWithout(trees[f.space], f);
        var _ := indexes[f.space].Remove(f.pattern, f);
        trees := trees[f.space := Dropped(trees[f.space], f)];
      }
    }

    /** Refile one space from the list: its deliverable folds, in order. */
    method RebuildLocked(space: string)
      requires Indexed()
      modifies this`indexes, this`trees
      ensures Indexed()
      ensures trees == old(trees)[space := OnSpace(old(Plain()), space)]
      ensures forall s | s in indexes && s != space :: s in old(indexes) && indexes[s] == old(indexes[s])
      ensures fresh(indexes[space])
    {
      hide MatchIndex.Valid, MatchIndex.Entries, Paired, Keep;
      var tree := new MatchIndex<Fold>();
      ghost var chosen := set f | f in Plain().active && f.space == space;
      ghost var filed: seq<Fold> := [];
      assert folds[..0] == [] && Paired(filed) == [];
      KeepNone(chosen);
      for i := 0 to |folds|
        invariant fresh(tree) && tree.Valid()
        invariant tree.Entries() == Paired(filed)
        invariant filed == Keep(folds[..i], chosen)
        invariant Indexed() && folds == old(folds) && indexes == old(indexes) && trees == old(trees)
        invariant forall f | f in folds :: f.active == old(f.active)
      {
        var f := folds[i];
        KeepNext(folds, i, chosen);
        if f.active && f.space == space {
          PairedAppend(filed, f);
          tree.Add(f.pattern, f);
          filed := filed + [f];
        }
      }
      assert folds[..|folds|] == folds;
      indexes := indexes[space := tree];
      trees := trees[space := filed];
    }

    /** Publish a fold, or leave the registry exactly as it was. */
    method Add(rt: Runtime, f: Fold) returns (r: Reply<()>)
      requires Valid()
      modifies this, rt, if f.space in indexes then {indexes[f.space]} else {}
      ensures Valid()
      ensures r.Done? ==> Plain() == WithAdded(old(Plain()), f, f.active) && runtime == rt
      ensures r.Done? ==> folds == old(folds) + [f]
      ensures r.Raised? ==> Plain() == old(Plain()) && runtime == old(runtime)
      ensures r == Raised(ForeignRuntime) <==> old(runtime) != null && old(runtime) != rt
      ensures r == Raised(AlreadyRegistered) <==> !(old(runtime) != null && old(runtime) != rt) && f in old(folds)
      ensures old(rt.watched == Spaces(folds)) && r != Raised(Unpublished(false)) ==> rt.watched == Spaces(folds)
    {
      hide Inv, Spaces, Indexed, Keep, Dropped, Distinct, TreeOf;
      if runtime != null && runtime != rt { return Raised(ForeignRuntime); }
      if f in folds { return Raised(AlreadyRegistered); }
      var candidate := folds + [f];
      var outcome := PublishLocked(rt, candidate);
      if outcome.Some? && !outcome.value.Accepted? { return Raised(Unpublished(outcome.value.RolledBack?)); }
      AddedKeeps(Plain(), f, f.active);
      ghost var before := Plain();
      FileLocked(f);
      assert trees == WithAdded(before, f, f.active).trees by { TreeOrEmpty(before, f.space); }
      runtime := rt;
      folds := candidate;
      assert Plain().active == WithAdded(before, f, f.active).active;
      return Done(());
    }

    /** Withdraw a fold; one no longer registered answers None. */
    method Cancel(f: Fold) returns (r: Reply<Option<Cancellation>>)
      requires Valid()
      modifies this, f`active, (if runtime == null then {} else {runtime}),
               (if f.space in indexes then {indexes[f.space]} else {})
      ensures Valid() && runtime == old(runtime)
      ensures r == Raised(MissingActive) <==> f !in old(folds) && old(f.active)
      ensures r == Raised(NoRuntime) <==> f in old(folds) && old(runtime) == null
      ensures r == Done(None) <==> f !in old(folds) && !old(f.active)
      ensures r.Done? && r.value.Some? ==>
                && Plain() == WithCancelled(old(Plain()), f) && !f.active
                && r.value.value.order == old(folds) && r.value.value.active == old(f.active)
                && r.value.value.runtime == runtime
                && r.value.value.index < |old(folds)| && old(folds)[r.value.value.index] == f
                && folds == old(folds)[..r.value.value.index] + old(folds)[r.value.value.index + 1..]
      ensures !(r.Done? && r.value.Some?) ==> Plain() == old(Plain()) && f.active == old(f.active)
      ensures old(runtime != null && runtime.watched == Spaces(folds)) && r != Raised(Unpublished(false)) ==>
                runtime.watched == Spaces(folds)
    {
      hide Inv, Spaces, Indexed, IndexOf, Dropped, Removed;
      var index := IndexOf(folds, f);
      if index == |folds| {
        if f.active { return Raised(MissingActive); }
        return Done(None);
      }
      if runtime == null { return Raised(NoRuntime); }
      var rt: Runtime := runtime;
      var order := folds;
      var candidate := Removed(folds, index);
      RemovedIs(folds, index);
      DroppedIsRemoved(folds, f);
      var outcome := PublishLocked(rt, candidate);
      if outcome.Some? && !outcome.value.Accepted? { return Raised(Unpublished(outcome.value.RolledBack?)); }
      CancelledKeeps(Plain(), f);
      ghost var before := Plain();
      InvDropped(before, f);
      var active := f.active;
      UnfileLocked(f);
      folds := candidate;
      f.active := false;
      assert folds == Dropped(before.folds, f);
      assert forall g | g in folds :: g.active <==> g in before.active;
      assert Plain().active == before.active - {f};
      assert Plain() == WithCancelled(before, f);
      return Done(Some(Cancellation(order, index, active, rt)));
    }

    /** Put a cancelled fold back where it was, as deliverable as it was. */
    method Restore(c: Cancellation, f: Fold) returns (r: Reply<()>)
      requires Valid() && c.index < |c.order|
      modifies this, f`active, c.runtime
      ensures Valid() && runtime == old(runtime)
      ensures r == Raised(NotRestorable) <==> old(f.active) || f in old(folds)
      ensures r == Raised(ForeignRuntime) <==> !old(f.active) && f !in old(folds) && old(runtime) != c.runtime
      ensures r.Done? ==> Plain() == WithRestored(old(Plain()), c.order, c.index, f, c.active) && f.active == c.active
      ensures r.Done? ==> var k := RestorationIndex(old(folds), c.order, c.index);
                          folds == old(folds)[..k] + [f] + old(folds)[k..]
      ensures r.Raised? ==> Plain() == old(Plain()) && f.active == old(f.active)
      ensures old(c.runtime.watched == Spaces(folds)) && r != Raised(Unpublished(false)) ==>
                c.runtime.watched == Spaces(folds)
    {
      hide Inv, Spaces, Indexed, IndexOf, RestorationIndex, Keep, Distinct, OnSpace;
      if f.active || f in folds { return Raised(NotRestorable); }
      if runtime != c.runtime { return Raised(ForeignRuntime); }
      var at := FindRestorationIndex(folds, c.order, c.index);
      var candidate := Inserted(folds, at, f);
      var outcome := PublishLocked(c.runtime, candidate);
      if outcome.Some? && !outcome.value.Accepted? { return Raised(Unpublished(outcome.value.RolledBack?)); }
      ghost var before := Plain();
      RestoredKeeps(before, c.order, c.index, f, c.active);
      InvInserted(before, at, f);
      folds := candidate;
      f.active := c.active;
      assert Plain().active == if c.active then before.active + {f} else before.active;
      RebuildLocked(f.space);
      assert Plain() == WithRestored(before, c.order, c.index, f, c.active);
      return Done(());
    }

    /** What dispatch is offered for an atom arriving in a space. */
    method Candidates(space: string, atom: Atom) returns (r: seq<Fold>)
      requires Valid()
      ensures r == CandidatesOf(Plain(), space, atom)
    {
      if !IsGround(atom) {
        r := ForSpace(space);
      } else if space !in indexes {
        r := [];
      } else {
        var found := indexes[space].Matches(atom);
        PairedSelect(trees[space], atom);
        r := Unpaired(found);
      }
    }

    /** Every live fold on one space, in registration order. */
    method ForSpace(space: string) returns (r: seq<Fold>)
      ensures r == OnSpace(Plain(), space)
    {
      r := [];
      ghost var chosen := set f | f in Plain().active && f.space == space;
      for i := 0 to |folds|
        invariant r == Keep(folds[..i], chosen)
      {
        KeepNext(folds, i, chosen);
        if folds[i].active && folds[i].space == space { r := r + [folds[i]]; }
      }
      assert folds[..|folds|] == folds;
    }
  }

  lemma RemovedIs(xs: seq<Fold>, i: nat)
    requires i < |xs|
    ensures Removed(xs, i) == xs[..i] + xs[i + 1..]
  {
  }

  lemma TreeOrEmpty(v: View, s: string)
    ensures TreeOf(v, s) == if s in v.trees then v.trees[s] else []
  {
  }

  lemma InvDropped(v: View, f: Fold)
    requires Inv(v)
    ensures forall g | g in v.folds :: g in Dropped(v.folds, f) <==> g != f
    ensures forall g | g in Dropped(v.folds, f) :: g in v.folds && g != f
  {
    DroppedDistinct(v.folds, f);
    forall g | g in v.folds && g != f ensures g in Dropped(v.folds, f) { StillThere(v.folds, f, g); }
  }

  lemma InvInserted(v: View, at: nat, f: Fold)
    requires Inv(v) && f !in v.folds && at <= |v.folds|
    ensures forall g :: g in Inserted(v.folds, at, f) <==> g == f || g in v.folds
  {
    InsertedDistinct(v.folds, at, f);
  }
}
