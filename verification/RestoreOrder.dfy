/** A list of distinct things, its sub-lists, and where a withdrawn one goes back. */
module RestoreOrder {
  import opened Sequences

  function Removed<T>(xs: seq<T>, i: nat): (r: seq<T>)
    requires i < |xs|
    ensures |r| == |xs| - 1
  {
    xs[..i] + xs[i + 1..]
  }

  function Inserted<T>(xs: seq<T>, i: nat, x: T): (r: seq<T>)
    requires i <= |xs|
    ensures |r| == |xs| + 1
  {
    xs[..i] + [x] + xs[i..]
  }

  /** The members of `s`, in the order of `xs`. */
  function Keep<T(==)>(xs: seq<T>, s: set<T>): (r: seq<T>)
    ensures forall x | x in r :: x in xs && x in s
    ensures forall x | x in xs && x in s :: x in r
  {
    if xs == [] then []
    else if xs[0] in s then [xs[0]] + Keep(xs[1..], s)
    else Keep(xs[1..], s)
  }

  lemma {:induction false} KeepExactly<T>(xs: seq<T>, s: set<T>) returns (ks: seq<nat>)
    ensures PicksAt(xs, ks, Keep(xs, s))
    ensures forall k: nat :: k in ks <==> k < |xs| && xs[k] in s
    decreases |xs|
  {
    ks := [];
    if xs != [] {
      var rest := KeepExactly(xs[1..], s);
      PickHead(xs, rest, Keep(xs[1..], s));
      hide PicksAt, Shifted;
      ks := if xs[0] in s then [0] + Shifted(rest) else Shifted(rest);
      forall k: nat ensures k in ks <==> k < |xs| && xs[k] in s {
        if k > 0 { assert k in ks <==> (k - 1) + 1 in Shifted(rest); }
      }
    }
  }

  /** The first position of `x`, or the length. */
  function IndexOf<T(==)>(xs: seq<T>, x: T): (k: nat)
    ensures k <= |xs|
    ensures x in xs <==> k < |xs|
    ensures k < |xs| ==> xs[k] == x
    ensures forall j | 0 <= j < k :: xs[j] != x
  {
    if xs == [] then 0
    else if xs[0] == x then 0
    else
      var k := IndexOf(xs[1..], x);
      assert forall j | 0 < j < 1 + k :: xs[j] == xs[1..][j - 1];
      1 + k
  }

  /** The position of the first candidate that is registered, or the length. */
  function FirstPresent<T(==)>(candidates: seq<T>, folds: seq<T>): (k: nat)
    ensures k <= |candidates|
    ensures k < |candidates| ==> candidates[k] in folds
    ensures forall j | 0 <= j < k :: candidates[j] !in folds
  {
    if candidates == [] then 0
    else if candidates[0] in folds then 0
    else 1 + FirstPresent(candidates[1..], folds)
  }

  /** The position of the last candidate that is registered plus one, or zero. */
  function AfterLastPresent<T(==)>(candidates: seq<T>, folds: seq<T>): (k: nat)
    ensures k <= |candidates|
    ensures k > 0 ==> candidates[k - 1] in folds
    ensures forall j | k <= j < |candidates| :: candidates[j] !in folds
  {
    if candidates == [] then 0
    else if candidates[|candidates| - 1] in folds then |candidates|
    else AfterLastPresent(candidates[..|candidates| - 1], folds)
  }

  function Min(a: nat, b: nat): nat {
    if a < b then a else b
  }

  /** Before the nearest registered successor of the snapshot, else after the nearest
      registered predecessor, else at the old position as far as the list reaches. */
  function RestorationIndex<T(==)>(folds: seq<T>, order: seq<T>, index: nat): (k: nat)
    requires index < |order|
    ensures k <= |folds|
  {
    var successors, predecessors := order[index + 1..], order[..index];
    var s := FirstPresent(successors, folds);
    if s < |successors| then IndexOf(folds, successors[s])
    else
      var p := AfterLastPresent(predecessors, folds);
      if p > 0 then IndexOf(folds, predecessors[p - 1]) + 1
      else Min(index, |folds|)
  }

  /** The two search loops. */
  method FindRestorationIndex<T(==)>(folds: seq<T>, order: seq<T>, index: nat) returns (k: nat)
    requires index < |order|
    ensures k == RestorationIndex(folds, order, index)
  {
    var i := index + 1;
    while i < |order|
      invariant index < i <= |order|
      invariant forall j | index < j < i :: order[j] !in folds
    {
      var at := IndexOf(folds, order[i]);
      if at < |folds| {
        FirstPresentIs(order[index + 1..], folds, i - index - 1);
        return at;
      }
      i := i + 1;
    }
    FirstPresentIs(order[index + 1..], folds, |order| - index - 1);
    i := index;
    while i > 0
      invariant 0 <= i <= index
      invariant forall j | i <= j < index :: order[j] !in folds
    {
      i := i - 1;
      var at := IndexOf(folds, order[i]);
      if at < |folds| {
        AfterLastPresentIs(order[..index], folds, i + 1);
        return at + 1;
      }
    }
    AfterLastPresentIs(order[..index], folds, 0);
    return Min(index, |folds|);
  }

  lemma FirstPresentIs<T>(candidates: seq<T>, folds: seq<T>, k: nat)
    requires k <= |candidates|
    requires k < |candidates| ==> candidates[k] in folds
    requires forall j | 0 <= j < k :: candidates[j] !in folds
    ensures FirstPresent(candidates, folds) == k
  {
  }

  lemma AfterLastPresentIs<T>(candidates: seq<T>, folds: seq<T>, k: nat)
    requires k <= |candidates|
    requires k > 0 ==> candidates[k - 1] in folds
    requires forall j | k <= j < |candidates| :: candidates[j] !in folds
    ensures AfterLastPresent(candidates, folds) == k
  {
  }

  function Restored<T(==)>(folds: seq<T>, order: seq<T>, index: nat): seq<T>
    requires index < |order|
  {
    Inserted(folds, RestorationIndex(folds, order, index), order[index])
  }

  // ----------------------------------------------------- restore inverts cancel

  lemma IndexOfIs<T>(xs: seq<T>, k: nat)
    requires Distinct(xs) && k < |xs|
    ensures IndexOf(xs, xs[k]) == k
  {
  }

  /** Right after its cancel, a fold's restoration index is its old position. */
  lemma RestoresInPlace<T>(folds: seq<T>, i: nat)
    requires Distinct(folds) && i < |folds|
    ensures RestorationIndex(Removed(folds, i), folds, i) == i
  {
    hide Distinct;
    var rest := Removed(folds, i);
    RemovedDistinct(folds, i);
    if i + 1 < |folds| {
      assert rest[i] == folds[i + 1] == folds[i + 1..][0];
      FirstPresentIs(folds[i + 1..], rest, 0);
      IndexOfIs(rest, i);
    } else {
      FirstPresentIs(folds[i + 1..], rest, 0);
      if i > 0 {
        assert rest[i - 1] == folds[i - 1] == folds[..i][i - 1];
        AfterLastPresentIs(folds[..i], rest, i);
        IndexOfIs(rest, i - 1);
      } else {
        AfterLastPresentIs(folds[..i], rest, 0);
      }
    }
  }

  lemma RemovedDistinct<T>(folds: seq<T>, i: nat)
    requires Distinct(folds) && i < |folds|
    ensures Distinct(Removed(folds, i))
  {
  }

  lemma RestoreInvertsCancel<T>(folds: seq<T>, i: nat)
    requires Distinct(folds) && i < |folds|
    ensures Restored(Removed(folds, i), folds, i) == folds
  {
    RestoresInPlace(folds, i);
  }

  /** A cancel at a position, brackets nested inside it, then its restore. */
  datatype Bracket = Bracket(index: nat, inner: seq<Bracket>)

  function RunBrackets<T(==)>(folds: seq<T>, brackets: seq<Bracket>): seq<T>
    decreases brackets, 1
  {
    if brackets == [] then folds
    else RunBrackets(RunBracket(folds, brackets[0]), brackets[1..])
  }

  function RunBracket<T(==)>(folds: seq<T>, b: Bracket): seq<T>
    decreases b, 0
  {
    if b.index >= |folds| then folds
    else Restored(RunBrackets(Removed(folds, b.index), b.inner), folds, b.index)
  }

  /** Every properly nested sequence of cancels and restores returns the exact list. */
  lemma {:induction false} NestingRestores<T>(folds: seq<T>, brackets: seq<Bracket>)
    requires Distinct(folds)
    ensures RunBrackets(folds, brackets) == folds
    decreases brackets, 1
  {
    if brackets != [] {
      BracketRestores(folds, brackets[0]);
      NestingRestores(folds, brackets[1..]);
    }
  }

  lemma {:induction false} BracketRestores<T>(folds: seq<T>, b: Bracket)
    requires Distinct(folds)
    ensures RunBracket(folds, b) == folds
    decreases b, 0
  {
    if b.index < |folds| {
      RemovedDistinct(folds, b.index);
      NestingRestores(Removed(folds, b.index), b.inner);
      RestoreInvertsCancel(folds, b.index);
    }
  }

  // ------------------------------------- restore after other adds and cancels

  /** What may happen between a cancel and its restore. */
  datatype Drift<T> = Added(x: T) | Cancelled(x: T)

  /** The list without the first occurrence of `x`. */
  function Dropped<T(==)>(xs: seq<T>, x: T): seq<T> {
    if xs == [] then []
    else if xs[0] == x then xs[1..]
    else [xs[0]] + Dropped(xs[1..], x)
  }

  lemma {:induction false} DroppedIsRemoved<T>(xs: seq<T>, x: T)
    ensures x !in xs ==> Dropped(xs, x) == xs
    ensures x in xs ==> Dropped(xs, x) == Removed(xs, IndexOf(xs, x))
    decreases |xs|
  {
    if xs != [] {
      var rest := xs[1..];
      if xs[0] == x {
        assert Removed(xs, 0) == rest;
      } else {
        DroppedIsRemoved(rest, x);
        assert xs == [xs[0]] + rest;
        assert x in xs <==> x in rest;
        if x in rest {
          var k := IndexOf(rest, x);
          assert IndexOf(xs, x) == k + 1;
          assert Removed(xs, k + 1) == [xs[0]] + Removed(rest, k);
        }
      }
    }
  }

  function DriftOnce<T(==)>(folds: seq<T>, change: Drift<T>): seq<T> {
    match change
    case Added(x) => if x in folds then folds else folds + [x]
    case Cancelled(x) => Dropped(folds, x)
  }

  function Drifted<T(==)>(folds: seq<T>, changes: seq<Drift<T>>): seq<T>
    decreases |changes|
  {
    if changes == [] then folds else Drifted(DriftOnce(folds, changes[0]), changes[1..])
  }

  /** The members of the snapshot, but the fold itself, that were never cancelled since. */
  function Survivors<T(==)>(order: seq<T>, i: nat, changes: seq<Drift<T>>): set<T>
    requires i < |order|
  {
    set x | x in order && x != order[i] && Cancelled(x) !in changes
  }

  lemma {:induction false} KeepAppend<T>(a: seq<T>, b: seq<T>, s: set<T>)
    ensures Keep(a + b, s) == Keep(a, s) + Keep(b, s)
    decreases |a|
  {
    if a == [] {
      assert a + b == b;
    } else {
      assert (a + b)[1..] == a[1..] + b;
      KeepAppend(a[1..], b, s);
    }
  }

  lemma {:induction false} KeepDistinct<T>(xs: seq<T>, s: set<T>)
    requires Distinct(xs)
    ensures Distinct(Keep(xs, s))
    decreases |xs|
  {
    if xs != [] {
      assert forall j | 0 <= j < |xs[1..]| :: xs[1..][j] == xs[j + 1];
      KeepDistinct(xs[1..], s);
      var rest := Keep(xs[1..], s);
      assert forall j | 0 <= j < |rest| :: rest[j] in rest;
      assert xs[0] !in xs[1..];
    }
  }

  lemma {:induction false} KeepSame<T>(xs: seq<T>, s: set<T>, r: set<T>)
    requires forall x | x in xs :: x in s <==> x in r
    ensures Keep(xs, s) == Keep(xs, r)
    decreases |xs|
  {
    if xs != [] {
      assert xs[0] in xs;
      forall x | x in xs[1..] ensures x in s <==> x in r { assert x in xs; }
      KeepSame(xs[1..], s, r);
    }
  }

  lemma {:induction false} DroppedKeep<T>(xs: seq<T>, s: set<T>, x: T)
    requires Distinct(xs)
    ensures Dropped(Keep(xs, s), x) == Keep(xs, s - {x})
    decreases |xs|
  {
    if xs != [] {
      assert forall j | 0 <= j < |xs[1..]| :: xs[1..][j] == xs[j + 1];
      DroppedKeep(xs[1..], s, x);
      if xs[0] == x {
        forall y | y in xs[1..] ensures y in s <==> y in s - {x} { assert y != xs[0]; }
        KeepSame(xs[1..], s, s - {x});
        if x !in s {
          assert x !in Keep(xs[1..], s);
          DroppedIsRemoved(Keep(xs[1..], s), x);
        }
      } else if xs[0] in s {
        assert ([xs[0]] + Keep(xs[1..], s))[1..] == Keep(xs[1..], s);
      }
    }
  }

  lemma {:induction false} DroppedJoin<T>(a: seq<T>, b: seq<T>, x: T)
    ensures Dropped(a + b, x) == if x in a then Dropped(a, x) + b else a + Dropped(b, x)
    decreases |a|
  {
    hide Dropped;
    if a == [] {
      assert a + b == b && a + Dropped(b, x) == Dropped(b, x);
    } else {
      var head, rest := [a[0]], a[1..];
      assert a == head + rest && (a + b)[0] == a[0] && (a + b)[1..] == rest + b;
      DroppedFirst(a, x);
      DroppedFirst(a + b, x);
      if a[0] != x {
        DroppedJoin(rest, b, x);
        Associates(head, Dropped(rest, x), b);
        Associates(head, rest, Dropped(b, x));
      }
    }
  }

  lemma Associates<T>(a: seq<T>, b: seq<T>, c: seq<T>)
    ensures a + (b + c) == (a + b) + c
  {
  }

  lemma DroppedFirst<T>(xs: seq<T>, x: T)
    requires xs != []
    ensures Dropped(xs, x) == if xs[0] == x then xs[1..] else [xs[0]] + Dropped(xs[1..], x)
  {
  }

  lemma DroppedDistinct<T>(xs: seq<T>, x: T)
    requires Distinct(xs)
    ensures Distinct(Dropped(xs, x)) && forall y | y in Dropped(xs, x) :: y in xs && y != x
  {
    DroppedIsRemoved(xs, x);
    if x in xs {
      var k := IndexOf(xs, x);
      var r := Removed(xs, k);
      forall y | y in r ensures y in xs && y != x {
        var j :| 0 <= j < |r| && r[j] == y;
        assert y == if j < k then xs[j] else xs[j + 1];
      }
    }
  }

  /** The list between a cancel and its restore: what survives of the snapshot, in the
      snapshot's order, then what was added since, in the order of the adds. */
  predicate Shape<T(==)>(folds: seq<T>, order: seq<T>, survivors: set<T>, adds: seq<T>) {
    folds == Keep(order, survivors) + adds && Distinct(adds) && forall x | x in adds :: x !in Keep(order, survivors)
  }

  /** No change adds a member of the snapshot. */
  predicate AddsNewOnly<T(==)>(changes: seq<Drift<T>>, order: seq<T>) {
    forall d | d in changes && d.Added? :: d.x !in order
  }

  predicate Apart<T(==)>(xs: seq<T>, ys: seq<T>) {
    forall x | x in xs :: x !in ys
  }

  function CancelledIn<T(==)>(changes: seq<Drift<T>>): set<T> {
    set d | d in changes && d.Cancelled? :: d.x
  }

  lemma {:induction false} DriftShape<T>(folds: seq<T>, order: seq<T>, changes: seq<Drift<T>>,
                                         survivors: set<T>, adds: seq<T>)
    returns (adds': seq<T>)
    requires Distinct(order) && Shape(folds, order, survivors, adds)
    ensures Shape(Drifted(folds, changes), order, survivors - CancelledIn(changes), adds')
    ensures AddsNewOnly(changes, order) && Apart(adds, order) ==> Apart(adds', order)
    decreases |changes|
  {
    if changes == [] {
      assert survivors - CancelledIn(changes) == survivors;
      return adds;
    }
    var adds1 := DriftOnceShape(folds, order, changes[0], survivors, adds);
    var left := survivors - CancelledIn([changes[0]]);
    hide Shape, DriftOnce, Apart;
    assert changes[0] in changes && forall d | d in changes[1..] :: d in changes;
    adds' := DriftShape(DriftOnce(folds, changes[0]), order, changes[1..], left, adds1);
    assert changes == [changes[0]] + changes[1..];
    assert left - CancelledIn(changes[1..]) == survivors - CancelledIn(changes);
  }

  lemma DriftOnceShape<T>(folds: seq<T>, order: seq<T>, change: Drift<T>, survivors: set<T>, adds: seq<T>)
    returns (adds': seq<T>)
    requires Distinct(order) && Shape(folds, order, survivors, adds)
    ensures Shape(DriftOnce(folds, change), order, survivors - CancelledIn([change]), adds')
    ensures AddsNewOnly([change], order) && Apart(adds, order) ==> Apart(adds', order)
  {
    assert change in [change];
    hide Keep, Dropped;
    var kept := Keep(order, survivors);
    match change
    case Added(x) =>
      assert survivors - CancelledIn([change]) == survivors;
      adds' := if x in folds then adds else adds + [x];
      assert x !in folds ==> folds + [x] == kept + (adds + [x]);
    case Cancelled(x) =>
      assert CancelledIn([change]) == {x};
      DroppedJoin(kept, adds, x);
      DroppedKeep(order, survivors, x);
      KeepFewer(order, survivors, x);
      if x in kept {
        adds' := adds;
      } else {
        DroppedIsRemoved(kept, x);
        DroppedDistinct(adds, x);
        adds' := Dropped(adds, x);
      }
  }

  lemma KeepFewer<T>(order: seq<T>, s: set<T>, x: T)
    ensures forall y | y in Keep(order, s - {x}) :: y in Keep(order, s)
  {
  }

  lemma {:induction false} KeepFirst<T>(xs: seq<T>, s: set<T>) returns (k: nat)
    requires Keep(xs, s) != []
    ensures k < |xs| && xs[k] == Keep(xs, s)[0] && xs[k] in s && forall j | 0 <= j < k :: xs[j] !in s
    decreases |xs|
  {
    if xs[0] in s {
      k := 0;
    } else {
      k := KeepFirst(xs[1..], s);
      assert forall j | 0 < j < k + 1 :: xs[j] == xs[1..][j - 1];
      k := k + 1;
    }
  }

  lemma {:induction false} KeepLast<T>(xs: seq<T>, s: set<T>) returns (k: nat)
    requires Keep(xs, s) != []
    ensures k < |xs| && xs[k] == Keep(xs, s)[|Keep(xs, s)| - 1] && xs[k] in s
    ensures forall j | k < j < |xs| :: xs[j] !in s
    decreases |xs|
  {
    var front, last := xs[..|xs| - 1], xs[|xs| - 1];
    assert xs == front + [last];
    KeepAppend(front, [last], s);
    if last in s {
      k := |xs| - 1;
    } else {
      k := KeepLast(front, s);
      assert forall j | 0 <= j < |front| :: xs[j] == front[j];
    }
  }

  /** Where the restore looks is where the fold belongs: its nearest registered
      successor of the snapshot survived, or heads the adds with no survivor before
      them; or there is none and its nearest registered predecessor survived; or nobody
      of the snapshot is registered and the fold stood first or nothing was added. */
  predicate Belongs<T(==)>(now: seq<T>, order: seq<T>, i: nat, survivors: set<T>, adds: seq<T>)
    requires i < |order|
  {
    var before, after := order[..i], order[i + 1..];
    var s, p := FirstPresent(after, now), AfterLastPresent(before, now);
    if s < |after| then
      after[s] in survivors || (Keep(after, survivors) == [] && adds != [] && adds[0] == after[s])
    else if p > 0 then before[p - 1] in survivors
    else i == 0 || adds == []
  }

  /** Whatever was added and cancelled since, members of the snapshot added again among
      it, a restore gives the snapshot's order of the survivors and the restored fold,
      followed by the adds, exactly when the place it looks for is where the fold
      belongs. */
  lemma RestoreAfterDrift<T>(order: seq<T>, i: nat, changes: seq<Drift<T>>) returns (adds: seq<T>)
    requires Distinct(order) && i < |order| && order[i] !in Drifted(Removed(order, i), changes)
    ensures var now, survivors := Drifted(Removed(order, i), changes), Survivors(order, i, changes);
            && Shape(now, order, survivors, adds) && (AddsNewOnly(changes, order) ==> Apart(adds, order))
            && (Restored(now, order, i) == Keep(order, survivors + {order[i]}) + adds <==>
                Belongs(now, order, i, survivors, adds))
  {
    var start := (set x | x in order) - {order[i]};
    SplitKeep(order, i, start);
    AllKept(order[..i], start);
    AllKept(order[i + 1..], start);
    assert Removed(order, i) == Keep(order, start) + [];
    adds := DriftShape(Removed(order, i), order, changes, start, []);
    assert start - CancelledIn(changes) == Survivors(order, i, changes);
    RestoredShape(order, i, Survivors(order, i, changes), adds);
  }

  /** When only new folds were added, that is exactly when a member of the snapshot
      survives, or the fold stood first, or nothing was added. */
  lemma RestoreAfterNewAdds<T>(order: seq<T>, i: nat, changes: seq<Drift<T>>) returns (adds: seq<T>)
    requires Distinct(order) && i < |order| && AddsNewOnly(changes, order)
    ensures var now, survivors := Drifted(Removed(order, i), changes), Survivors(order, i, changes);
            && Shape(now, order, survivors, adds)
            && (Restored(now, order, i) == Keep(order, survivors + {order[i]}) + adds <==>
                Keep(order, survivors) != [] || i == 0 || adds == [])
  {
    var now, survivors := Drifted(Removed(order, i), changes), Survivors(order, i, changes);
    DriftNew(Removed(order, i), order, changes);
    RemovedWithout(order, i);
    adds := RestoreAfterDrift(order, i, changes);
    hide Drifted, Restored, Survivors;
    NewAddsBelong(now, order, i, survivors, adds);
  }

  lemma RemovedWithout<T>(order: seq<T>, i: nat)
    requires Distinct(order) && i < |order|
    ensures order[i] !in Removed(order, i)
  {
  }

  lemma {:induction false} DriftNew<T>(folds: seq<T>, order: seq<T>, changes: seq<Drift<T>>)
    requires AddsNewOnly(changes, order)
    ensures forall x | x in Drifted(folds, changes) && x in order :: x in folds
    decreases |changes|
  {
    if changes != [] {
      assert forall d | d in changes[1..] :: d in changes;
      assert changes[0] in changes;
      DriftNew(DriftOnce(folds, changes[0]), order, changes[1..]);
      if changes[0].Cancelled? { DroppedIn(folds, changes[0].x); }
    }
  }

  lemma DroppedIn<T>(xs: seq<T>, x: T)
    ensures forall y | y in Dropped(xs, x) :: y in xs
  {
    DroppedIsRemoved(xs, x);
  }

  lemma NewAddsBelong<T>(now: seq<T>, order: seq<T>, i: nat, survivors: set<T>, adds: seq<T>)
    requires i < |order| && Shape(now, order, survivors, adds) && order[i] !in survivors
    requires Apart(adds, order)
    ensures Belongs(now, order, i, survivors, adds) <==> Keep(order, survivors) != [] || i == 0 || adds == []
  {
    var before, after := order[..i], order[i + 1..];
    SplitKeep(order, i, survivors);
    var p, q := Keep(before, survivors), Keep(after, survivors);
    assert forall j | 0 <= j < |after| :: after[j] in order;
    assert forall j | 0 <= j < |before| :: before[j] in order;
    if q != [] {
      assert q[0] in after && q[0] in now;
    } else if p != [] {
      assert p[0] in before && p[0] in now;
      NoneKept(after, survivors);
    } else {
      NoneKept(after, survivors);
      NoneKept(before, survivors);
    }
  }

  lemma NoneKept<T>(xs: seq<T>, s: set<T>)
    requires Keep(xs, s) == []
    ensures forall j | 0 <= j < |xs| :: xs[j] !in s
  {
    forall j | 0 <= j < |xs| ensures xs[j] !in s {
      assert xs[j] in xs;
    }
  }

  lemma JoinDistinct<T>(a: seq<T>, b: seq<T>)
    requires Distinct(a) && Distinct(b) && forall x | x in b :: x !in a
    ensures Distinct(a + b)
  {
    forall i, j | 0 <= i < j < |a + b| ensures (a + b)[i] != (a + b)[j] {
      if i < |a| <= j { assert b[j - |a|] in b; }
    }
  }

  /** Keeping splits at a position whose member is not kept. */
  lemma SplitKeep<T>(order: seq<T>, i: nat, s: set<T>)
    requires i < |order|
    ensures order[i] !in s ==> Keep(order, s) == Keep(order[..i], s) + Keep(order[i + 1..], s)
    ensures order[i] in s ==> Keep(order, s) == Keep(order[..i], s) + [order[i]] + Keep(order[i + 1..], s)
  {
    assert order == order[..i] + ([order[i]] + order[i + 1..]);
    KeepAppend(order[..i], [order[i]] + order[i + 1..], s);
    KeepAppend([order[i]], order[i + 1..], s);
  }

  lemma {:induction false} AllKept<T>(xs: seq<T>, s: set<T>)
    requires forall x | x in xs :: x in s
    ensures Keep(xs, s) == xs
    decreases |xs|
  {
    if xs != [] {
      assert xs[0] in xs;
      forall x | x in xs[1..] ensures x in s { assert x in xs; }
      AllKept(xs[1..], s);
    }
  }

  /** Restoring gives the wanted list exactly when it inserts right after the surviving
      predecessors. */
  lemma RestoredShape<T>(order: seq<T>, i: nat, survivors: set<T>, adds: seq<T>)
    requires Distinct(order) && i < |order| && order[i] !in survivors
    requires Shape(Keep(order, survivors) + adds, order, survivors, adds) && order[i] !in Keep(order, survivors) + adds
    ensures var now := Keep(order, survivors) + adds;
            Restored(now, order, i) == Keep(order, survivors + {order[i]}) + adds <==>
              Belongs(now, order, i, survivors, adds)
  {
    var f, now := order[i], Keep(order, survivors) + adds;
    var p, q := Keep(order[..i], survivors), Keep(order[i + 1..], survivors);
    SplitKeep(order, i, survivors);
    KeptWith(order, i, survivors);
    RestoresAt(order, i, survivors, adds, p, q);
    RestoredIs(now, order, i);
    hide *;
    assert now == p + q + adds;
    InsertedShape(p, q, adds, f, RestorationIndex(now, order, i));
  }

  lemma RestoredIs<T>(now: seq<T>, order: seq<T>, i: nat)
    requires i < |order|
    ensures Restored(now, order, i) == Inserted(now, RestorationIndex(now, order, i), order[i])
  {
  }

  lemma InsertedShape<T>(p: seq<T>, q: seq<T>, adds: seq<T>, f: T, k: nat)
    requires f !in p + q + adds && k <= |p + q + adds|
    ensures Inserted(p + q + adds, k, f) == p + [f] + q + adds <==> k == |p|
  {
    var now := p + q + adds;
    assert Inserted(now, |p|, f) == p + [f] + q + adds by {
      assert now[..|p|] == p && now[|p|..] == q + adds;
    }
    InsertedApart(now, k, |p|, f);
  }

  lemma KeptWith<T>(order: seq<T>, i: nat, survivors: set<T>)
    requires Distinct(order) && i < |order|
    ensures Keep(order, survivors + {order[i]}) ==
            Keep(order[..i], survivors) + [order[i]] + Keep(order[i + 1..], survivors)
  {
    var f := order[i];
    SplitKeep(order, i, survivors + {f});
    forall x | x in order[..i] ensures x in survivors <==> x in survivors + {f} { assert x != f; }
    forall x | x in order[i + 1..] ensures x in survivors <==> x in survivors + {f} { assert x != f; }
    KeepSame(order[..i], survivors, survivors + {f});
    KeepSame(order[i + 1..], survivors, survivors + {f});
  }

  lemma InsertedApart<T>(xs: seq<T>, j: nat, k: nat, x: T)
    requires j <= |xs| && k <= |xs| && x !in xs
    ensures Inserted(xs, j, x) == Inserted(xs, k, x) <==> j == k
  {
    if j < k { assert Inserted(xs, j, x)[j] == x && Inserted(xs, k, x)[j] == xs[j]; }
    if k < j { assert Inserted(xs, k, x)[k] == x && Inserted(xs, j, x)[k] == xs[k]; }
  }

  /** The place looked for is right after the surviving predecessors exactly where the
      fold belongs. */
  lemma RestoresAt<T>(order: seq<T>, i: nat, survivors: set<T>, adds: seq<T>, p: seq<T>, q: seq<T>)
    requires Distinct(order) && i < |order| && order[i] !in survivors
    requires Shape(Keep(order, survivors) + adds, order, survivors, adds)
    requires p == Keep(order[..i], survivors) && q == Keep(order[i + 1..], survivors)
    ensures var now := Keep(order, survivors) + adds;
            RestorationIndex(now, order, i) == |p| <==> Belongs(now, order, i, survivors, adds)
  {
    hide *;
    var kept := Keep(order, survivors);
    var now, before, after := kept + adds, order[..i], order[i + 1..];
    SplitKeep(order, i, survivors);
    KeepDistinct(order, survivors);
    ShapeParts(now, order, survivors, adds);
    JoinDistinct(kept, adds);
    Associates(p, q, adds);
    IndexLooks(now, order, i);
    BelongsThere(now, order, i, survivors, adds);
    var s, e := FirstPresent(after, now), AfterLastPresent(before, now);
    if s < |after| {
      SuccessorPlace(now, after, s, survivors, p, q, adds);
    } else if e > 0 {
      NothingKept(now, after, survivors, p, q, adds);
      PredecessorPlace(now, before, e, survivors, p, adds);
    } else {
      NothingKept(now, after, survivors, p, q, adds);
      NothingBefore(now, before, survivors, p, q, adds);
      MinNought(i, |adds|);
    }
  }

  lemma MinNought(a: nat, b: nat)
    ensures Min(a, b) == 0 <==> a == 0 || b == 0
  {
  }

  lemma ShapeParts<T>(now: seq<T>, order: seq<T>, survivors: set<T>, adds: seq<T>)
    requires Shape(now, order, survivors, adds)
    ensures Distinct(adds) && forall x | x in adds :: x !in Keep(order, survivors)
  {
  }

  lemma BelongsThere<T>(now: seq<T>, order: seq<T>, i: nat, survivors: set<T>, adds: seq<T>)
    requires i < |order|
    ensures var before, after := order[..i], order[i + 1..];
            var s, e := FirstPresent(after, now), AfterLastPresent(before, now);
            Belongs(now, order, i, survivors, adds) <==>
              if s < |after| then
                after[s] in survivors || (Keep(after, survivors) == [] && adds != [] && adds[0] == after[s])
              else if e > 0 then before[e - 1] in survivors
              else i == 0 || adds == []
  {
    hide FirstPresent, AfterLastPresent, Keep;
  }

  lemma IndexLooks<T>(now: seq<T>, order: seq<T>, i: nat)
    requires i < |order|
    ensures var s, e := FirstPresent(order[i + 1..], now), AfterLastPresent(order[..i], now);
            RestorationIndex(now, order, i) ==
            if s < |order| - i - 1 then IndexOf(now, order[i + 1..][s])
            else if e > 0 then IndexOf(now, order[..i][e - 1]) + 1
            else Min(i, |now|)
  {
    hide FirstPresent, AfterLastPresent, IndexOf;
  }

  lemma SuccessorPlace<T>(now: seq<T>, after: seq<T>, s: nat, survivors: set<T>, p: seq<T>, q: seq<T>, adds: seq<T>)
    requires Distinct(now) && Distinct(adds) && now == p + (q + adds) && q == Keep(after, survivors)
    requires s < |after| && s == FirstPresent(after, now)
    ensures IndexOf(now, after[s]) == |p| <==>
              after[s] in survivors || (q == [] && adds != [] && adds[0] == after[s])
  {
    hide FirstPresent, IndexOf;
    var x := after[s];
    FirstPresentHere(after, now, s);
    assert x in after;
    if x in survivors {
      assert x in q;
      var k := KeepFirst(after, survivors);
      assert q[0] in q && q[0] in now && after[k] in now;
      assert k == s;
      assert now[|p|] == x;
      IndexOfIs(now, |p|);
    } else {
      assert x !in q;
      PlaceOf(now, x, |p|);
    }
  }

  lemma FirstPresentHere<T>(after: seq<T>, now: seq<T>, s: nat)
    requires s < |after| && s == FirstPresent(after, now)
    ensures after[s] in now && forall j | 0 <= j < s :: after[j] !in now
  {
  }

  /** A member stands at a place exactly when that place holds it. */
  lemma PlaceOf<T>(now: seq<T>, x: T, k: nat)
    requires Distinct(now) && x in now
    ensures IndexOf(now, x) == k <==> k < |now| && now[k] == x
  {
    if k < |now| && now[k] == x { IndexOfIs(now, k); }
  }

  lemma NothingKept<T>(now: seq<T>, after: seq<T>, survivors: set<T>, p: seq<T>, q: seq<T>, adds: seq<T>)
    requires now == p + (q + adds) && q == Keep(after, survivors)
    requires FirstPresent(after, now) == |after|
    ensures q == []
  {
    FirstPresentNone(after, now);
    assert forall x | x in q :: x in after && x in now;
    NoMembers(q);
  }

  lemma PredecessorPlace<T>(now: seq<T>, before: seq<T>, e: nat, survivors: set<T>, p: seq<T>, adds: seq<T>)
    requires Distinct(now) && now == p + ([] + adds) && p == Keep(before, survivors)
    requires 0 < e <= |before| && e == AfterLastPresent(before, now)
    ensures IndexOf(now, before[e - 1]) + 1 == |p| <==> before[e - 1] in survivors
  {
    hide AfterLastPresent, IndexOf;
    var x := before[e - 1];
    LastPresentHere(before, now, e);
    assert x in before;
    PlaceOf(now, x, if p == [] then |now| else |p| - 1);
    if x in survivors {
      assert x in p;
      var k := KeepLast(before, survivors);
      assert p[|p| - 1] in p && p[|p| - 1] in now && before[k] in now;
      assert k == e - 1;
    } else if p != [] {
      assert p[|p| - 1] in p;
    }
  }

  lemma LastPresentHere<T>(before: seq<T>, now: seq<T>, e: nat)
    requires 0 < e <= |before| && e == AfterLastPresent(before, now)
    ensures before[e - 1] in now && forall j | e <= j < |before| :: before[j] !in now
  {
  }

  lemma NoMembers<T>(xs: seq<T>)
    requires forall x :: x !in xs
    ensures xs == []
  {
    HeadIn(xs);
  }

  lemma FirstPresentNone<T>(after: seq<T>, now: seq<T>)
    requires FirstPresent(after, now) == |after|
    ensures forall x | x in after :: x !in now
  {
  }

  lemma NonePresent<T>(before: seq<T>, now: seq<T>)
    requires AfterLastPresent(before, now) == 0
    ensures forall x | x in before :: x !in now
  {
  }

  lemma NothingBefore<T>(now: seq<T>, before: seq<T>, survivors: set<T>, p: seq<T>, q: seq<T>, adds: seq<T>)
    requires now == p + (q + adds) && p == Keep(before, survivors) && q == []
    requires AfterLastPresent(before, now) == 0
    ensures p == [] && now == adds
  {
    NonePresent(before, now);
    assert forall x | x in p :: x in before && x in now;
    NoMembers(p);
  }

  lemma DriftCons<T>(folds: seq<T>, change: Drift<T>, rest: seq<Drift<T>>)
    ensures Drifted(folds, [change] + rest) == Drifted(DriftOnce(folds, change), rest)
  {
    assert ([change] + rest)[1..] == rest;
  }

  /** Adding a cancelled member of the snapshot again is enough to break its order:
      of 0, 1, 2, 3, cancel 1, then cancel 2, add 4, add 2 again, and restore 1. */
  lemma ReaddBreaksOrder()
    ensures Drifted<int>([0, 2, 3], [Cancelled(2)] + ([Added(4)] + ([Added(2)] + []))) == [0, 3, 4, 2]
    ensures Removed([0, 1, 2, 3], 1) == [0, 2, 3]
    ensures Restored([0, 3, 4, 2], [0, 1, 2, 3], 1) == [0, 3, 4, 1, 2]
  {
    DriftCons([0, 2, 3], Cancelled(2), [Added(4)] + ([Added(2)] + []));
    DriftCons([0, 3], Added(4), [Added(2)] + []);
    DriftCons([0, 3, 4], Added(2), []);
    assert [2, 3][1..] == [3] && [0, 2, 3][1..] == [2, 3];
    assert Dropped([0, 2, 3], 2) == [0] + Dropped([2, 3], 2) == [0, 3];
    assert DriftOnce([0, 3], Added(4)) == [0, 3, 4];
    assert DriftOnce([0, 3, 4], Added(2)) == [0, 3, 4, 2];
    RestoresBefore([0, 1, 2, 3], [0, 3, 4, 2]);
  }

  lemma RestoresBefore(order: seq<int>, now: seq<int>)
    requires order == [0, 1, 2, 3] && now == [0, 3, 4, 2]
    ensures Restored(now, order, 1) == [0, 3, 4, 1, 2]
  {
    assert now[3] == 2 && order[2..][0] == 2;
    FirstPresentIs(order[2..], now, 0);
    IndexOfIs(now, 3);
  }
}
