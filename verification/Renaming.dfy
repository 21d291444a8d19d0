/** Display names for machine variables: a renaming over an explicit stack, and when it
    is a consistent one. */
module Renaming {
  import opened Sequences
  import opened Atoms
  import opened RestoreOrder

  // ------------------------------------------------------------------------ names

  function Digit(d: nat): char
    requires d < 10
  {
    "0123456789"[d]
  }

  function Decimal(n: nat): (r: string)
    ensures r != ""
  {
    if n < 10 then [Digit(n)] else Decimal(n / 10) + [Digit(n % 10)]
  }

  lemma {:induction false} DecimalInjective(m: nat, n: nat)
    requires Decimal(m) == Decimal(n)
    ensures m == n
    decreases m
  {
    var a, b := Decimal(m), Decimal(n);
    assert a[|a| - 1] == b[|b| - 1];
    if m >= 10 && n >= 10 {
      assert a[..|a| - 1] == Decimal(m / 10) && b[..|b| - 1] == Decimal(n / 10);
      DecimalInjective(m / 10, n / 10);
    }
  }

  /** The name generated for the machine variable seen in place `i`. */
  function Generated(i: nat): (r: string)
    ensures r != "" && r[0] != '_'
  {
    if i < 26 then ["abcdefghijklmnopqrstuvwxyz"[i]] else "v" + Decimal(i)
  }

  lemma GeneratedInjective(i: nat, j: nat)
    requires Generated(i) == Generated(j)
    ensures i == j
  {
    if i >= 26 && j >= 26 {
      assert Decimal(i) == Generated(i)[1..] && Decimal(j) == Generated(j)[1..];
      DecimalInjective(i, j);
    }
  }

  /** The number that decimal digits spell. */
  function NumberOf(digits: string): int {
    if digits == "" then 0
    else 10 * NumberOf(digits[..|digits| - 1]) + (digits[|digits| - 1] as int - '0' as int)
  }

  /** The decimal form spells the number in digits alone, with no leading zero. */
  lemma {:induction false} DecimalExactly(n: nat)
    ensures NumberOf(Decimal(n)) == n && (n > 0 ==> Decimal(n)[0] != '0')
    ensures forall i | 0 <= i < |Decimal(n)| :: '0' <= Decimal(n)[i] <= '9'
  {
    if n < 10 {
      assert Decimal(n)[..0] == "";
    } else {
      DecimalExactly(n / 10);
      var front, all := Decimal(n / 10), Decimal(n);
      assert all[..|all| - 1] == front && all == front + [Digit(n % 10)];
      assert all[0] == front[0];
    }
  }

  /** The first twenty-six names are the small letters in order; after them comes the
      letter v and the place's number. */
  lemma GeneratedExactly(i: nat)
    ensures i < 26 ==> |Generated(i)| == 1 && Generated(i)[0] as int == 'a' as int + i
    ensures i >= 26 ==> Generated(i)[0] == 'v' && NumberOf(Generated(i)[1..]) == i
    ensures i >= 26 ==> forall k | 1 <= k < |Generated(i)| :: '0' <= Generated(i)[k] <= '9'
  {
    if i >= 26 {
      DecimalExactly(i);
      assert Generated(i)[1..] == Decimal(i);
    }
  }

  predicate Machine(name: string) {
    name != "" && name[0] == '_'
  }

  // --------------------------------------------------------------------- renaming

  /** The variable names of an atom in order of appearance, repeats and all. */
  function Vars(a: Atom): seq<string>
    decreases a, 1
  {
    match a
    case Variable(n) => [n]
    case Expression(xs) => VarsAll(xs)
    case _ => []
  }

  function VarsAll(xs: seq<Atom>): seq<string>
    decreases xs, 0
  {
    if xs == [] then [] else Vars(xs[0]) + VarsAll(xs[1..])
  }

  /** The machine names among these, each once, in order of first appearance. */
  function Order(vars: seq<string>): (r: seq<string>)
    ensures Distinct(r)
    ensures forall n :: n in r <==> n in vars && Machine(n)
  {
    if vars == [] then []
    else
      var before, last := Order(vars[..|vars| - 1]), vars[|vars| - 1];
      assert vars == vars[..|vars| - 1] + [last];
      if Machine(last) && last !in before then before + [last] else before
  }

  function NewName(names: seq<string>, n: string): string {
    if n in names then Generated(IndexOf(names, n)) else n
  }

  function Rename(a: Atom, names: seq<string>): Atom
    decreases a, 1
  {
    match a
    case Variable(n) => Variable(NewName(names, n))
    case Expression(xs) => Expression(RenameAll(xs, names))
    case _ => a
  }

  function RenameAll(xs: seq<Atom>, names: seq<string>): (r: seq<Atom>)
    ensures |r| == |xs|
    ensures forall i | 0 <= i < |xs| :: r[i] == Rename(xs[i], names)
    decreases xs, 0
  {
    if xs == [] then [] else [Rename(xs[0], names)] + RenameAll(xs[1..], names)
  }

  /** The atom with its machine names replaced by readable ones. */
  function Pretty(a: Atom): Atom {
    Rename(a, Order(Vars(a)))
  }

  /** The variables of an atom are met left to right. */
  lemma VarsLeftToRight(n: string, a: Atom, xs: seq<Atom>, ys: seq<Atom>)
    ensures Vars(Variable(n)) == [n] && (!a.Variable? && !a.Expression? ==> Vars(a) == [])
    ensures Vars(Expression([])) == [] && Vars(Expression([a])) == Vars(a)
    ensures Vars(Expression(xs + ys)) == Vars(Expression(xs)) + Vars(Expression(ys))
  {
    VarsAllJoin(xs, ys);
    assert [a][1..] == [] && VarsAll([a]) == Vars(a) + VarsAll([]);
  }

  lemma {:induction false} VarsAllJoin(xs: seq<Atom>, ys: seq<Atom>)
    ensures VarsAll(xs + ys) == VarsAll(xs) + VarsAll(ys)
    decreases |xs|
  {
    hide Vars;
    if xs == [] {
      assert xs + ys == ys;
    } else {
      assert (xs + ys)[1..] == xs[1..] + ys;
      VarsAllJoin(xs[1..], ys);
    }
  }

  // ---------------------------------------------------------- what the renaming keeps

  /** Two machine names never share a display name, however many there are. */
  lemma PrettyInjective(a: Atom, m: string, n: string)
    requires m in Vars(a) && n in Vars(a) && Machine(m) && Machine(n)
    requires NewName(Order(Vars(a)), m) == NewName(Order(Vars(a)), n)
    ensures m == n
  {
    var names := Order(Vars(a));
    GeneratedInjective(IndexOf(names, m), IndexOf(names, n));
  }

  function NewNames(vars: seq<string>, names: seq<string>): (r: seq<string>)
    ensures |r| == |vars|
    ensures forall i | 0 <= i < |vars| :: r[i] == NewName(names, vars[i])
  {
    seq(|vars|, i requires 0 <= i < |vars| => NewName(names, vars[i]))
  }

  lemma {:induction false} RenamedVars(a: Atom, names: seq<string>)
    ensures Vars(Rename(a, names)) == NewNames(Vars(a), names)
    decreases a, 1
  {
    if a.Expression? { RenamedVarsAll(a.children, names); }
  }

  lemma {:induction false} RenamedVarsAll(xs: seq<Atom>, names: seq<string>)
    ensures VarsAll(RenameAll(xs, names)) == NewNames(VarsAll(xs), names)
    decreases xs, 0
  {
    if xs != [] {
      RenamedVars(xs[0], names);
      RenamedVarsAll(xs[1..], names);
      assert RenameAll(xs, names)[1..] == RenameAll(xs[1..], names);
    }
  }

  lemma {:induction false} RenameNothing(a: Atom)
    ensures Rename(a, []) == a
    decreases a, 1
  {
    if a.Expression? {
      forall i | 0 <= i < |a.children| ensures Rename(a.children[i], []) == a.children[i] {
        RenameNothing(a.children[i]);
      }
      assert RenameAll(a.children, []) == a.children;
    }
  }

  /** Renaming again changes nothing: no machine name is left. */
  lemma PrettyIdempotent(a: Atom)
    ensures Pretty(Pretty(a)) == Pretty(a)
  {
    var names := Order(Vars(a));
    RenamedVars(a, names);
    var left := Order(Vars(Pretty(a)));
    NoneLeft(Vars(a));
    HeadIn(left);
    RenameNothing(Pretty(a));
  }

  lemma NoneLeft(vars: seq<string>)
    ensures forall n | n in NewNames(vars, Order(vars)) :: !Machine(n)
  {
  }

  // ----------------------------------------------------------------- alpha equivalence

  /** The atoms are the same up to the renaming `there` and its inverse `back`. */
  predicate Alike(a: Atom, b: Atom, there: map<string, string>, back: map<string, string>)
    decreases a
  {
    match a
    case Variable(n) =>
      b.Variable? && n in there && there[n] == b.name && b.name in back && back[b.name] == n
    case Expression(xs) =>
      b.Expression? && |xs| == |b.children| &&
      forall i | 0 <= i < |xs| :: Alike(xs[i], b.children[i], there, back)
    case _ => AtomEq(a, b)
  }

  ghost predicate AlphaEq(a: Atom, b: Atom) {
    exists there, back :: Alike(a, b, there, back)
  }

  predicate Fits(names: seq<string>, n: string, there: map<string, string>, back: map<string, string>) {
    var m := NewName(names, n);
    n in there && there[n] == m && m in back && back[m] == n
  }

  lemma {:induction false} AlikeRenamed(a: Atom, names: seq<string>, there: map<string, string>, back: map<string, string>)
    ensures Alike(a, Rename(a, names), there, back) <==> forall n | n in Vars(a) :: Fits(names, n, there, back)
    decreases a, 1
  {
    if a.Expression? {
      AlikeRenamedAll(a.children, names, there, back);
    } else if a.Variable? {
      assert Vars(a) == [a.name] && a.name in Vars(a);
      assert Alike(a, Rename(a, names), there, back) <==> Fits(names, a.name, there, back);
    } else {
      AtomEqReflexive(a);
    }
  }

  lemma {:induction false} AlikeRenamedAll(xs: seq<Atom>, names: seq<string>, there: map<string, string>, back: map<string, string>)
    ensures (forall i | 0 <= i < |xs| :: Alike(xs[i], Rename(xs[i], names), there, back)) <==>
              forall n | n in VarsAll(xs) :: Fits(names, n, there, back)
    decreases xs, 0
  {
    hide Fits;
    if xs != [] {
      AlikeRenamed(xs[0], names, there, back);
      AlikeRenamedAll(xs[1..], names, there, back);
      assert forall n :: n in VarsAll(xs) <==> n in Vars(xs[0]) || n in VarsAll(xs[1..]);
      assert forall i | 0 < i < |xs| :: xs[i] == xs[1..][i - 1];
      assert forall i | 0 <= i < |xs[1..]| :: xs[1..][i] == xs[i + 1];
    }
  }

  /** A name the author wrote is one of the names generated for this atom. */
  predicate Captured(a: Atom) {
    exists n :: n in Vars(a) && !Machine(n) && exists i :: 0 <= i < |Order(Vars(a))| && Generated(i) == n
  }

  /** The renaming is a consistent one exactly when no name the author wrote equals one
      generated for this atom. */
  lemma PrettyIsRenamingExactly(a: Atom)
    ensures AlphaEq(a, Pretty(a)) <==> !Captured(a)
  {
    var vars := Vars(a);
    var names := Order(vars);
    if Captured(a) {
      forall there, back ensures !Alike(a, Pretty(a), there, back) {
        AlikeRenamed(a, names, there, back);
        var n :| n in vars && !Machine(n) && exists i :: 0 <= i < |names| && Generated(i) == n;
        var i :| 0 <= i < |names| && Generated(i) == n;
        assert names[i] in vars;
        assert NewName(names, names[i]) == n by { IndexOfIs(names, i); }
        assert NewName(names, n) == n;
        assert Fits(names, names[i], there, back) ==> !Fits(names, n, there, back);
      }
    } else {
      forall m, n | m in vars && n in vars && NewName(names, m) == NewName(names, n) ensures m == n {
        if m in names && n in names {
          PrettyInjective(a, m, n);
        } else {
          SharedIsCaptured(a, m, n);
          SharedIsCaptured(a, n, m);
        }
      }
      var there := map n | n in vars :: NewName(names, n);
      var back := map m | m in NewNames(vars, names) :: Source(vars, names, m);
      forall n | n in vars ensures Fits(names, n, there, back) {
        var k :| 0 <= k < |vars| && vars[k] == n;
        assert NewNames(vars, names)[k] == NewName(names, n);
      }
      AlikeRenamed(a, names, there, back);
    }
  }

  lemma SharedIsCaptured(a: Atom, m: string, n: string)
    requires m in Vars(a) && n in Vars(a)
    requires NewName(Order(Vars(a)), m) == NewName(Order(Vars(a)), n)
    ensures m in Order(Vars(a)) && n !in Order(Vars(a)) ==> Captured(a)
  {
    var names := Order(Vars(a));
    if m in names && n !in names { assert Generated(IndexOf(names, m)) == n; }
  }

  /** The first of these names that is renamed to `m`. */
  function Source(vars: seq<string>, names: seq<string>, m: string): (n: string)
    requires m in NewNames(vars, names)
    ensures n in vars && NewName(names, n) == m
  {
    if NewName(names, vars[0]) == m then vars[0]
    else
      assert NewNames(vars, names)[1..] == NewNames(vars[1..], names);
      Source(vars[1..], names, m)
  }

  /** The renaming loses a distinction the author made: `$a` and a machine name meet. */
  lemma PrettyMergesAuthorName()
    ensures Pretty(Expression([Variable("a"), Variable("_1")])) == Expression([Variable("a"), Variable("a")])
  {
    var x := [Variable("a"), Variable("_1")];
    TwoVars("a", "_1");
    MachineSecond("a", "_1");
    FirstName();
    hide Order, Vars, Generated, IndexOf, Rename, RenameAll;
    var r := RenameAll(x, ["_1"]);
    assert r[0] == Rename(x[0], ["_1"]) && r[1] == Rename(x[1], ["_1"]);
    RenamedVariable("a", ["_1"]);
    RenamedVariable("_1", ["_1"]);
    assert r == [Variable("a"), Variable("a")];
    RenamedExpression(x, ["_1"]);
  }

  lemma FirstName()
    ensures Generated(0) == "a"
  {
  }

  lemma RenamedExpression(xs: seq<Atom>, names: seq<string>)
    ensures Rename(Expression(xs), names) == Expression(RenameAll(xs, names))
  {
  }

  lemma TwoVars(m: string, n: string)
    ensures Vars(Expression([Variable(m), Variable(n)])) == [m, n]
  {
    var x := [Variable(m), Variable(n)];
    assert x[1..] == [Variable(n)] && x[1..][1..] == [];
    assert VarsAll(x[1..]) == [n];
    assert VarsAll(x) == [m] + [n];
  }

  lemma MachineSecond(m: string, n: string)
    requires !Machine(m) && Machine(n)
    ensures Order([m, n]) == [n]
  {
    assert [m, n][..1] == [m] && [m][..0] == [];
    assert Order([m]) == [];
  }

  // ------------------------------------------------------------------ the stack form

  /** What is still to be done, the next item last: an atom to enter, or an expression
      whose children's results stand on top of the results. */
  datatype Item = Enter(atom: Atom) | Leave(width: nat)

  function Todo(xs: seq<Atom>): (r: seq<Item>)
    ensures |r| == |xs|
    decreases |xs|
  {
    if xs == [] then [] else Todo(xs[1..]) + [Enter(xs[0])]
  }

  /** Every expression being left finds its children's results. */
  predicate Ready(stack: seq<Item>, built: nat) {
    if stack == [] then true
    else
      var rest := stack[..|stack| - 1];
      match stack[|stack| - 1]
      case Enter(_) => Ready(rest, built + 1)
      case Leave(w) => w <= built && Ready(rest, built - w + 1)
  }

  /** The results once the stack is worked off. */
  function Finish(stack: seq<Item>, results: seq<Atom>, names: seq<string>): seq<Atom>
    requires Ready(stack, |results|)
  {
    if stack == [] then results
    else
      var rest := stack[..|stack| - 1];
      match stack[|stack| - 1]
      case Enter(a) => Finish(rest, results + [Rename(a, names)], names)
      case Leave(w) =>
        Finish(rest, results[..|results| - w] + [Expression(results[|results| - w..])], names)
  }

  /** The variables still to be met, in order. */
  function Ahead(stack: seq<Item>): seq<string> {
    if stack == [] then []
    else
      var rest := stack[..|stack| - 1];
      match stack[|stack| - 1]
      case Enter(a) => Vars(a) + Ahead(rest)
      case Leave(_) => Ahead(rest)
  }

  function Load(stack: seq<Item>): nat {
    if stack == [] then 0
    else Load(stack[..|stack| - 1]) + match stack[|stack| - 1] case Enter(a) => 2 * Size(a) case Leave(_) => 1
  }

  lemma {:induction false} TodoMeans(rest: seq<Item>, xs: seq<Atom>, results: seq<Atom>, names: seq<string>)
    ensures Ready(rest + Todo(xs), |results|) <==> Ready(rest, |results| + |xs|)
    ensures Ready(rest, |results| + |xs|) ==>
              Finish(rest + Todo(xs), results, names) == Finish(rest, results + RenameAll(xs, names), names)
    ensures Ahead(rest + Todo(xs)) == VarsAll(xs) + Ahead(rest)
    ensures Load(rest + Todo(xs)) == Load(rest) + 2 * SizeAll(xs)
    decreases |xs|
  {
    hide Ready, Finish, Ahead, Load, Rename, Vars, Size;
    if xs == [] {
      assert rest + Todo(xs) == rest && results + RenameAll(xs, names) == results;
    } else {
      var first := results + [Rename(xs[0], names)];
      assert rest + Todo(xs) == rest + Todo(xs[1..]) + [Enter(xs[0])];
      Pushed(rest + Todo(xs[1..]), xs[0], results, names);
      TodoMeans(rest, xs[1..], first, names);
      assert first + RenameAll(xs[1..], names) == results + RenameAll(xs, names);
      assert Vars(xs[0]) + (VarsAll(xs[1..]) + Ahead(rest)) == VarsAll(xs) + Ahead(rest);
    }
  }

  lemma Pushed(rest: seq<Item>, a: Atom, results: seq<Atom>, names: seq<string>)
    ensures var stack := rest + [Enter(a)];
            && (Ready(stack, |results|) <==> Ready(rest, |results| + 1))
            && (Ready(rest, |results| + 1) ==>
                  Finish(stack, results, names) == Finish(rest, results + [Rename(a, names)], names))
            && Ahead(stack) == Vars(a) + Ahead(rest)
            && Load(stack) == Load(rest) + 2 * Size(a)
  {
    var stack := rest + [Enter(a)];
    assert stack[..|stack| - 1] == rest;
  }

  /** The display names given so far. */
  ghost predicate Given(mapping: map<string, string>, names: seq<string>) {
    && (forall n :: n in mapping <==> n in names)
    && |mapping| == |names|
    && (forall i | 0 <= i < |names| :: mapping[names[i]] == Generated(i))
  }

  lemma {:induction false} OrderGrows(seen: seq<string>, more: seq<string>)
    ensures |Order(seen)| <= |Order(seen + more)| && Order(seen + more)[..|Order(seen)|] == Order(seen)
    decreases |more|
  {
    if more == [] {
      assert seen + more == seen;
    } else {
      var front := more[..|more| - 1];
      OrderGrows(seen, front);
      assert (seen + more)[..|seen + more| - 1] == seen + front;
    }
  }

  /** The machine names among the first `k` variables. */
  function MachinesBefore(vars: seq<string>, k: nat): set<string>
    requires k <= |vars|
  {
    set j | 0 <= j < k && Machine(vars[j]) :: vars[j]
  }

  lemma {:induction false} DistinctSize(names: seq<string>, s: set<string>)
    requires Distinct(names) && forall n :: n in names <==> n in s
    ensures |names| == |s|
    decreases |names|
  {
    if names == [] {
      assert s == {};
    } else {
      assert names[0] in s && names[0] !in names[1..];
      DistinctSize(names[1..], s - {names[0]});
    }
  }

  /** A machine name's place is how many were met before its own first appearance. */
  lemma PlaceMet(vars: seq<string>, n: string)
    requires n in vars && Machine(n)
    ensures n in Order(vars) && IndexOf(Order(vars), n) == |MachinesBefore(vars, IndexOf(vars, n))|
  {
    var j := IndexOf(vars, n);
    var seen, more := vars[..j], vars[j + 1..];
    assert vars == seen + [n] + more;
    assert n !in seen;
    OrderNext(seen, n);
    OrderGrows(seen + [n], more);
    OrderIsMachinesBefore(vars, j);
    var order, k := Order(vars), |Order(seen)|;
    assert order[..k + 1][k] == n;
    hide Order, IndexOf, MachinesBefore, Machine;
    IndexOfIs(order, k);
  }

  lemma OrderIsMachinesBefore(vars: seq<string>, k: nat)
    requires k <= |vars|
    ensures |Order(vars[..k])| == |MachinesBefore(vars, k)|
  {
    assert forall j | 0 <= j < k :: vars[..k][j] == vars[j];
    DistinctSize(Order(vars[..k]), MachinesBefore(vars, k));
  }

  /** A variable the author named is shown as it is; a machine one under the name of its
      place. */
  lemma DisplayedExactly(a: Atom, i: nat)
    requires i < |Vars(a)|
    ensures |Vars(Pretty(a))| == |Vars(a)|
    ensures var n := Vars(a)[i];
            Vars(Pretty(a))[i] ==
            if Machine(n) then Generated(|MachinesBefore(Vars(a), IndexOf(Vars(a), n))|) else n
  {
    RenamedVars(a, Order(Vars(a)));
    hide Vars, Generated, IndexOf, MachinesBefore, Rename, Machine;
    if Machine(Vars(a)[i]) { PlaceMet(Vars(a), Vars(a)[i]); }
  }

  /** A machine name met after `seen` has its final display name already. */
  lemma NameIsFinal(seen: seq<string>, n: string, more: seq<string>, mapping: map<string, string>)
    requires Given(mapping, Order(seen)) && Machine(n)
    ensures var next := if n in mapping then mapping else mapping[n := Generated(|mapping|)];
            Given(next, Order(seen + [n])) && next[n] == NewName(Order(seen + [n] + more), n)
  {
    var next := if n in mapping then mapping else mapping[n := Generated(|mapping|)];
    OrderNext(seen, n);
    var names, final := Order(seen + [n]), Order(seen + [n] + more);
    OrderGrows(seen + [n], more);
    hide Order, Generated, NewName;
    if n !in Order(seen) { GivenNext(mapping, Order(seen), n); }
    PlaceIsFinal(names, final, n, next);
  }

  lemma GivenNext(mapping: map<string, string>, names: seq<string>, n: string)
    requires Given(mapping, names) && n !in names
    ensures Given(mapping[n := Generated(|mapping|)], names + [n])
  {
    hide Generated;
    assert |mapping[n := Generated(|mapping|)]| == |mapping| + 1;
    forall m ensures m in names + [n] <==> m == n || m in names {}
    assert forall i | 0 <= i < |names| :: names[i] in names;
  }

  lemma PlaceIsFinal(names: seq<string>, final: seq<string>, n: string, mapping: map<string, string>)
    requires Given(mapping, names) && Distinct(final) && n in names
    requires |names| <= |final| && final[..|names|] == names
    ensures mapping[n] == NewName(final, n)
  {
    hide Generated;
    var i := IndexOf(names, n);
    assert final[i] == names[i] == n;
    IndexOfIs(final, i);
  }

  lemma OrderNext(seen: seq<string>, n: string)
    ensures Order(seen + [n]) ==
            if Machine(n) && n !in Order(seen) then Order(seen) + [n] else Order(seen)
  {
    assert (seen + [n])[..|seen|] == seen;
  }

  /** The renaming over an explicit stack, names given as they are met. */
  method RunPretty(atom: Atom) returns (r: Atom)
    ensures r == Pretty(atom)
  {
    hide Rename, RenameAll, Given, Order, NewName, Ahead, Vars, VarsAll, Finish, Ready, Load, Size, Todo, Generated;
    ghost var names, seen := Order(Vars(atom)), [];
    var mapping: map<string, string> := map[];
    var stack: seq<Item>, results: seq<Atom> := [Enter(atom)], [];
    Starts(atom, names);
    while stack != []
      invariant Ready(stack, |results|) && Finish(stack, results, names) == [Pretty(atom)]
      invariant seen + Ahead(stack) == Vars(atom)
      invariant Given(mapping, Order(seen))
      decreases Load(stack)
    {
      var item, rest := stack[|stack| - 1], stack[..|stack| - 1];
      Pops(stack, results, names);
      match item {
        case Leave(w) =>
          results := results[..|results| - w] + [Expression(results[|results| - w..])];
          stack := rest;
        case Enter(a) =>
          match a {
            case Expression(xs) =>
              Expands(rest, xs, results, names);
              stack := rest + [Leave(|xs|)] + Todo(xs);
            case Variable(n) =>
              RenamedVariable(n, names);
              assert seen + [n] + Ahead(rest) == Vars(atom);
              if Machine(n) {
                NameIsFinal(seen, n, Ahead(rest), mapping);
                if n !in mapping { mapping := mapping[n := Generated(|mapping|)]; }
                results := results + [Variable(mapping[n])];
              } else {
                Unnamed(seen, n, Ahead(rest));
                results := results + [a];
              }
              seen := seen + [n];
              stack := rest;
            case _ =>
              Constant(a, names);
              results := results + [a];
              stack := rest;
          }
      }
    }
    Stops(results, names);
    return results[0];
  }

  lemma Starts(atom: Atom, names: seq<string>)
    requires names == Order(Vars(atom))
    ensures Ready([Enter(atom)], 0) && Finish([Enter(atom)], [], names) == [Pretty(atom)]
    ensures [] + Ahead([Enter(atom)]) == Vars(atom) && Given(map[], Order([]))
  {
    var stack := [Enter(atom)];
    assert stack[..0] == [];
    assert [] + [Rename(atom, names)] == [Pretty(atom)];
  }

  lemma Stops(results: seq<Atom>, names: seq<string>)
    requires Ready([], |results|)
    ensures Finish([], results, names) == results
  {
  }

  lemma Pops(stack: seq<Item>, results: seq<Atom>, names: seq<string>)
    requires stack != [] && Ready(stack, |results|)
    ensures var rest := stack[..|stack| - 1];
            match stack[|stack| - 1]
            case Enter(a) =>
              Ready(rest, |results| + 1) && Ahead(stack) == Vars(a) + Ahead(rest)
              && Load(stack) == Load(rest) + 2 * Size(a) && Load(rest) < Load(stack)
              && Finish(stack, results, names) == Finish(rest, results + [Rename(a, names)], names)
            case Leave(w) =>
              w <= |results| && Ready(rest, |results| - w + 1) && Ahead(stack) == Ahead(rest)
              && Load(rest) < Load(stack)
              && Finish(stack, results, names) ==
                 Finish(rest, results[..|results| - w] + [Expression(results[|results| - w..])], names)
  {
  }

  lemma Expands(rest: seq<Item>, xs: seq<Atom>, results: seq<Atom>, names: seq<string>)
    requires Ready(rest, |results| + 1)
    ensures var stack := rest + [Leave(|xs|)] + Todo(xs);
            && Ready(stack, |results|)
            && Finish(stack, results, names) == Finish(rest, results + [Rename(Expression(xs), names)], names)
            && Ahead(stack) == Vars(Expression(xs)) + Ahead(rest)
            && Load(stack) < Load(rest) + 2 * Size(Expression(xs))
  {
    var under := rest + [Leave(|xs|)];
    assert under[..|under| - 1] == rest;
    TodoMeans(under, xs, results, names);
    var built := results + RenameAll(xs, names);
    assert built[..|built| - |xs|] == results && built[|built| - |xs|..] == RenameAll(xs, names);
  }

  lemma RenamedVariable(n: string, names: seq<string>)
    ensures Rename(Variable(n), names) == Variable(NewName(names, n))
    ensures Vars(Variable(n)) == [n]
  {
  }

  lemma Unnamed(seen: seq<string>, n: string, more: seq<string>)
    requires !Machine(n)
    ensures Order(seen + [n]) == Order(seen) && NewName(Order(seen + [n] + more), n) == n
  {
    assert (seen + [n])[..|seen|] == seen;
  }

  lemma Constant(a: Atom, names: seq<string>)
    requires !a.Variable? && !a.Expression?
    ensures Rename(a, names) == a && Vars(a) == []
  {
  }
}
