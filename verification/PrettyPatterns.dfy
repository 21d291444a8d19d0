/** What the display renaming does to an atom read as a pattern, where `$_` matches
    anything and a named variable matches equal atoms. */
module PrettyPatterns {
  import opened Atoms
  import opened Matching
  import opened RestoreOrder
  import opened Renaming

  // ------------------------------------------- what stands at a pattern's variables

  /** The parts of an atom at the pattern's variables, in order, if the rest agrees. */
  function Values(p: Atom, x: Atom): Option<seq<Atom>>
    decreases p, 1
  {
    match p
    case Variable(_) => Some([x])
    case Expression(ps) => if x.Expression? && |x.children| == |ps| then ValuesAll(ps, x.children) else None
    case _ => if AtomEq(p, x) then Some([]) else None
  }

  function ValuesAll(ps: seq<Atom>, xs: seq<Atom>): Option<seq<Atom>>
    requires |ps| == |xs|
    decreases ps, 0
  {
    if ps == [] then Some([])
    else
      var first, rest := Values(ps[0], xs[0]), ValuesAll(ps[1..], xs[1..]);
      if first.Some? && rest.Some? then Some(first.value + rest.value) else None
  }

  predicate FitsOne(n: string, v: Atom, b: map<string, Atom>) {
    n == "_" || (n in b && AtomEq(b[n], v))
  }

  predicate AllFit(vars: seq<string>, vals: seq<Atom>, b: map<string, Atom>) {
    |vars| == |vals| && forall i | 0 <= i < |vars| :: FitsOne(vars[i], vals[i], b)
  }

  lemma AllFitJoin(v: seq<string>, w: seq<string>, x: seq<Atom>, y: seq<Atom>, b: map<string, Atom>)
    requires |v| == |x| && |w| == |y|
    ensures AllFit(v + w, x + y, b) <==> AllFit(v, x, b) && AllFit(w, y, b)
  {
    hide FitsOne;
    if AllFit(v + w, x + y, b) {
      forall i | 0 <= i < |v| ensures FitsOne(v[i], x[i], b) { assert FitsOne((v + w)[i], (x + y)[i], b); }
      forall i | 0 <= i < |w| ensures FitsOne(w[i], y[i], b) {
        assert FitsOne((v + w)[|v| + i], (x + y)[|v| + i], b);
      }
    }
  }

  lemma {:induction false} ValuesCount(p: Atom, x: Atom)
    ensures Values(p, x).Some? ==> |Values(p, x).value| == |Vars(p)|
    decreases p, 1
  {
    if p.Expression? && x.Expression? && |x.children| == |p.children| { ValuesAllCount(p.children, x.children); }
  }

  lemma {:induction false} ValuesAllCount(ps: seq<Atom>, xs: seq<Atom>)
    requires |ps| == |xs|
    ensures ValuesAll(ps, xs).Some? ==> |ValuesAll(ps, xs).value| == |VarsAll(ps)|
    decreases ps, 0
  {
    if ps != [] {
      ValuesCount(ps[0], xs[0]);
      ValuesAllCount(ps[1..], xs[1..]);
    }
  }

  lemma {:induction false} InstanceIs(p: Atom, x: Atom, b: map<string, Atom>)
    ensures Instance(p, x, b) <==> Values(p, x).Some? && AllFit(Vars(p), Values(p, x).value, b)
    decreases p, 1
  {
    match p
    case Variable(n) =>
      assert Vars(p) == [n] && Values(p, x) == Some([x]);
      assert AllFit([n], [x], b) <==> FitsOne([n][0], [x][0], b);
    case Expression(ps) =>
      if x.Expression? && |x.children| == |ps| { InstanceIsAll(ps, x.children, b); }
    case _ =>
  }

  lemma {:induction false} InstanceIsAll(ps: seq<Atom>, xs: seq<Atom>, b: map<string, Atom>)
    requires |ps| == |xs|
    ensures (forall i | 0 <= i < |ps| :: Instance(ps[i], xs[i], b)) <==>
              ValuesAll(ps, xs).Some? && AllFit(VarsAll(ps), ValuesAll(ps, xs).value, b)
    decreases ps, 0
  {
    hide AllFit, Instance;
    if ps == [] {
      NoneFit(b);
    } else {
      InstanceIs(ps[0], xs[0], b);
      InstanceIsAll(ps[1..], xs[1..], b);
      InstancesFirst(ps, xs, b);
      ValuesCount(ps[0], xs[0]);
      ValuesAllCount(ps[1..], xs[1..]);
      if Values(ps[0], xs[0]).Some? && ValuesAll(ps[1..], xs[1..]).Some? {
        AllFitJoin(Vars(ps[0]), VarsAll(ps[1..]), Values(ps[0], xs[0]).value, ValuesAll(ps[1..], xs[1..]).value, b);
      }
    }
  }

  lemma NoneFit(b: map<string, Atom>)
    ensures AllFit([], [], b)
  {
  }

  lemma InstancesFirst(ps: seq<Atom>, xs: seq<Atom>, b: map<string, Atom>)
    requires |ps| == |xs| && ps != []
    ensures (forall i | 0 <= i < |ps| :: Instance(ps[i], xs[i], b)) <==>
              Instance(ps[0], xs[0], b) && forall i | 0 <= i < |ps[1..]| :: Instance(ps[1..][i], xs[1..][i], b)
  {
    hide Instance;
    assert forall i | 0 < i < |ps| :: ps[i] == ps[1..][i - 1] && xs[i] == xs[1..][i - 1];
    if forall i | 0 <= i < |ps| :: Instance(ps[i], xs[i], b) {
      forall i | 0 <= i < |ps[1..]| ensures Instance(ps[1..][i], xs[1..][i], b) {
        assert Instance(ps[i + 1], xs[i + 1], b);
      }
    }
  }

  // ------------------------------------------------------------------ some binding

  ghost predicate Matches(p: Atom, x: Atom) {
    exists b :: Instance(p, x, b)
  }

  /** Places with one name, other than `_`, hold equal atoms. */
  predicate Agree(vars: seq<string>, vals: seq<Atom>) {
    && |vars| == |vals|
    && forall i, j | 0 <= i < j < |vars| && vars[i] == vars[j] && vars[i] != "_" :: AtomEq(vals[i], vals[j])
  }

  lemma SomeBinding(vars: seq<string>, vals: seq<Atom>)
    ensures (exists b :: AllFit(vars, vals, b)) <==> Agree(vars, vals)
  {
    forall b | AllFit(vars, vals, b) ensures Agree(vars, vals) {
      forall i, j | 0 <= i < j < |vars| && vars[i] == vars[j] && vars[i] != "_" ensures AtomEq(vals[i], vals[j]) {
        assert FitsOne(vars[i], vals[i], b) && FitsOne(vars[j], vals[j], b);
        AtomEqSymmetric(b[vars[i]], vals[i]);
        AtomEqTransitive(vals[i], b[vars[i]], vals[j]);
      }
    }
    if Agree(vars, vals) {
      var b := map n | n in vars :: vals[IndexOf(vars, n)];
      forall i | 0 <= i < |vars| ensures FitsOne(vars[i], vals[i], b) {
        var k := IndexOf(vars, vars[i]);
        AtomEqReflexive(vals[i]);
        assert vars[i] in vars && k <= i;
      }
      assert AllFit(vars, vals, b);
    }
  }

  lemma MatchesIs(p: Atom, x: Atom)
    ensures Matches(p, x) <==> Values(p, x).Some? && Agree(Vars(p), Values(p, x).value)
  {
    hide Instance, AllFit, Agree;
    if Values(p, x).Some? { SomeBinding(Vars(p), Values(p, x).value); }
    forall b ensures Instance(p, x, b) <==> Values(p, x).Some? && AllFit(Vars(p), Values(p, x).value, b) {
      InstanceIs(p, x, b);
    }
  }

  lemma {:induction false} RenamedValues(a: Atom, names: seq<string>, x: Atom)
    ensures Values(Rename(a, names), x) == Values(a, x)
    decreases a, 1
  {
    if a.Expression? && x.Expression? && |x.children| == |a.children| {
      RenamedValuesAll(a.children, names, x.children);
    }
  }

  lemma {:induction false} RenamedValuesAll(ps: seq<Atom>, names: seq<string>, xs: seq<Atom>)
    requires |ps| == |xs|
    ensures ValuesAll(RenameAll(ps, names), xs) == ValuesAll(ps, xs)
    decreases ps, 0
  {
    if ps != [] {
      RenamedValues(ps[0], names, xs[0]);
      RenamedValuesAll(ps[1..], names, xs[1..]);
      assert RenameAll(ps, names)[1..] == RenameAll(ps[1..], names);
    }
  }

  // ------------------------------------------------------- an atom with given values

  /** The pattern with these atoms in place of its variables. */
  function Fill(p: Atom, vals: seq<Atom>): Atom
    requires |vals| == |Vars(p)|
    decreases p, 1
  {
    match p
    case Variable(_) => vals[0]
    case Expression(ps) => Expression(FillAll(ps, vals))
    case _ => p
  }

  function FillAll(ps: seq<Atom>, vals: seq<Atom>): (r: seq<Atom>)
    requires |vals| == |VarsAll(ps)|
    ensures |r| == |ps|
    decreases ps, 0
  {
    if ps == [] then []
    else
      var k := |Vars(ps[0])|;
      [Fill(ps[0], vals[..k])] + FillAll(ps[1..], vals[k..])
  }

  lemma {:induction false} FilledValues(p: Atom, vals: seq<Atom>)
    requires |vals| == |Vars(p)|
    ensures Values(p, Fill(p, vals)) == Some(vals)
    decreases p, 1
  {
    match p
    case Variable(_) => assert vals == [vals[0]];
    case Expression(ps) => FilledValuesAll(ps, vals);
    case _ =>
      AtomEqReflexive(p);
      assert vals == [];
  }

  lemma {:induction false} FilledValuesAll(ps: seq<Atom>, vals: seq<Atom>)
    requires |vals| == |VarsAll(ps)|
    ensures ValuesAll(ps, FillAll(ps, vals)) == Some(vals)
    decreases ps, 0
  {
    if ps == [] {
      assert vals == [];
    } else {
      FillFirst(ps, vals);
      var k, xs := |Vars(ps[0])|, FillAll(ps, vals);
      hide Fill, FillAll, Values, Vars;
      FilledValues(ps[0], vals[..k]);
      FilledValuesAll(ps[1..], vals[k..]);
      assert vals[..k] + vals[k..] == vals;
    }
  }

  lemma FillFirst(ps: seq<Atom>, vals: seq<Atom>)
    requires |vals| == |VarsAll(ps)| && ps != []
    ensures var k := |Vars(ps[0])|;
            && k <= |vals| && |vals[k..]| == |VarsAll(ps[1..])|
            && FillAll(ps, vals)[0] == Fill(ps[0], vals[..k]) && FillAll(ps, vals)[1..] == FillAll(ps[1..], vals[k..])
  {
    hide Fill, Vars;
  }

  // --------------------------------------------------------------- the same patterns

  /** `$_` occurs at most once. */
  predicate OneBlank(a: Atom) {
    forall i, j | 0 <= i < j < |Vars(a)| :: !(Vars(a)[i] == "_" && Vars(a)[j] == "_")
  }

  /** Two places share a new name exactly when they shared a name that binds. */
  predicate Faithful(vars: seq<string>, renamed: seq<string>) {
    && |vars| == |renamed|
    && forall i, j | 0 <= i < j < |vars| :: renamed[i] == renamed[j] <==> vars[i] == vars[j] && vars[i] != "_"
  }

  lemma NewNameBinds(names: seq<string>, n: string)
    requires n in names || !Machine(n)
    ensures NewName(names, n) != "_"
  {
  }

  lemma FaithfulExactly(a: Atom)
    ensures Faithful(Vars(a), NewNames(Vars(a), Order(Vars(a)))) <==> !Captured(a) && OneBlank(a)
  {
    var vars := Vars(a);
    var names := Order(vars);
    var renamed := NewNames(vars, names);
    if !Captured(a) && OneBlank(a) {
      forall i, j | 0 <= i < j < |vars|
        ensures renamed[i] == renamed[j] <==> vars[i] == vars[j] && vars[i] != "_"
      {
        if renamed[i] == renamed[j] { SameNameUnlessCaptured(a, vars[i], vars[j]); }
      }
    }
    if Faithful(vars, renamed) {
      forall i, j | 0 <= i < j < |vars| ensures !(vars[i] == "_" && vars[j] == "_") {
        assert renamed[i] == renamed[j] <==> vars[i] == vars[j] && vars[i] != "_";
      }
      if Captured(a) { CapturedMeets(a); }
    }
  }

  lemma SameNameUnlessCaptured(a: Atom, m: string, n: string)
    requires m in Vars(a) && n in Vars(a) && !Captured(a)
    requires NewName(Order(Vars(a)), m) == NewName(Order(Vars(a)), n)
    ensures m == n
  {
    if Machine(m) && Machine(n) {
      PrettyInjective(a, m, n);
    } else {
      hide Captured;
      SharedIsCaptured(a, m, n);
      SharedIsCaptured(a, n, m);
    }
  }

  lemma CapturedMeets(a: Atom)
    requires Captured(a)
    ensures !Faithful(Vars(a), NewNames(Vars(a), Order(Vars(a))))
  {
    var vars := Vars(a);
    var names := Order(vars);
    var n :| n in vars && !Machine(n) && exists i :: 0 <= i < |names| && Generated(i) == n;
    var k :| 0 <= k < |names| && Generated(k) == n;
    IndexOfIs(names, k);
    assert names[k] in names && names[k] in vars;
    assert NewName(names, names[k]) == n && NewName(names, n) == n;
    hide Order, NewName, Generated, IndexOf;
    var i :| 0 <= i < |vars| && vars[i] == n;
    var j :| 0 <= j < |vars| && vars[j] == names[k];
    Meet(vars, NewNames(vars, names), i, j);
  }

  lemma Meet(vars: seq<string>, renamed: seq<string>, i: nat, j: nat)
    requires |vars| == |renamed| && i < |vars| && j < |vars|
    requires vars[i] != vars[j] && renamed[i] == renamed[j]
    ensures !Faithful(vars, renamed)
    decreases if i > j then 1 else 0
  {
    if i > j { Meet(vars, renamed, j, i); }
  }

  /** Atoms that tell two places apart while places that shared a name still agree. */
  function Telling(vars: seq<string>, j: nat): (vals: seq<Atom>)
    requires j < |vars|
    ensures |vals| == |vars|
    ensures forall m | 0 <= m < |vars| ::
              vals[m] == if (if vars[j] == "_" then m == j else vars[m] == vars[j]) then Symbol("1") else Symbol("0")
  {
    seq(|vars|, m requires 0 <= m < |vars| =>
      if (if vars[j] == "_" then m == j else vars[m] == vars[j]) then Symbol("1") else Symbol("0"))
  }

  lemma TellingAgrees(vars: seq<string>, j: nat)
    requires j < |vars|
    ensures Agree(vars, Telling(vars, j))
  {
    forall m, k | 0 <= m < k < |vars| && vars[m] == vars[k] && vars[m] != "_"
      ensures AtomEq(Telling(vars, j)[m], Telling(vars, j)[k])
    {
      AtomEqReflexive(Telling(vars, j)[m]);
    }
  }

  /** The display has the instances of the atom exactly when no name the author wrote is
      generated for it and it has at most one `$_`. */
  lemma PrettyKeepsInstancesExactly(a: Atom)
    ensures (forall x :: Matches(a, x) <==> Matches(Pretty(a), x)) <==> !Captured(a) && OneBlank(a)
  {
    var vars := Vars(a);
    var names := Order(vars);
    var renamed := NewNames(vars, names);
    FaithfulExactly(a);
    RenamedVars(a, names);
    hide Order, Captured, OneBlank, Matches, Vars;
    forall x ensures Matches(a, x) <==> Values(a, x).Some? && Agree(vars, Values(a, x).value) { MatchesIs(a, x); }
    forall x ensures Matches(Pretty(a), x) <==> Values(a, x).Some? && Agree(renamed, Values(a, x).value) {
      MatchesIs(Pretty(a), x);
      RenamedValues(a, names, x);
    }
    if Faithful(vars, renamed) {
      NamesBind(a);
      forall x ensures Matches(a, x) <==> Matches(Pretty(a), x) {
        if Values(a, x).Some? { SameAgreement(vars, renamed, Values(a, x).value); }
      }
    } else {
      NamesBind(a);
      var x := Apart(a, renamed);
      assert Matches(a, x) && !Matches(Pretty(a), x);
    }
  }

  lemma NamesBind(a: Atom)
    ensures forall i | 0 <= i < |Vars(a)| :: NewNames(Vars(a), Order(Vars(a)))[i] != "_"
    ensures forall i, j | 0 <= i < j < |Vars(a)| && Vars(a)[i] == Vars(a)[j] ::
              NewNames(Vars(a), Order(Vars(a)))[i] == NewNames(Vars(a), Order(Vars(a)))[j]
  {
    forall i | 0 <= i < |Vars(a)| ensures NewNames(Vars(a), Order(Vars(a)))[i] != "_" {
      assert Vars(a)[i] in Vars(a);
      NewNameBinds(Order(Vars(a)), Vars(a)[i]);
    }
  }

  lemma SameAgreement(vars: seq<string>, renamed: seq<string>, vals: seq<Atom>)
    requires Faithful(vars, renamed) && forall i | 0 <= i < |renamed| :: renamed[i] != "_"
    ensures Agree(vars, vals) <==> Agree(renamed, vals)
  {
  }

  /** An atom the pattern matches and its renaming does not. */
  lemma Apart(a: Atom, renamed: seq<string>) returns (x: Atom)
    requires |renamed| == |Vars(a)| && !Faithful(Vars(a), renamed)
    requires forall i | 0 <= i < |renamed| :: renamed[i] != "_"
    requires forall i, j | 0 <= i < j < |renamed| && Vars(a)[i] == Vars(a)[j] :: renamed[i] == renamed[j]
    ensures Values(a, x).Some? && Agree(Vars(a), Values(a, x).value) && !Agree(renamed, Values(a, x).value)
  {
    var vars := Vars(a);
    var i, j :| 0 <= i < j < |vars| && !(renamed[i] == renamed[j] <==> vars[i] == vars[j] && vars[i] != "_");
    var k := if vars[j] == "_" && vars[i] != "_" then i else j;
    var vals := Telling(vars, k);
    TellingAgrees(vars, k);
    FilledValues(a, vals);
    x := Fill(a, vals);
    assert !AtomEq(vals[i], vals[j]);
  }
}
