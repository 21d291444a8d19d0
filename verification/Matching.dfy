/** One-way matching: only the pattern's variables bind. */
module Matching {
  import opened Atoms

  /** `binding` makes an instance of the pattern equal to the atom. The variable `_`
      matches anything and constrains nothing. */
  predicate Instance(p: Atom, a: Atom, binding: map<string, Atom>)
    decreases p
  {
    match p
    case Variable(n) => n == "_" || (n in binding && AtomEq(binding[n], a))
    case Expression(xs) =>
      a.Expression? && |xs| == |a.children| &&
      forall i | 0 <= i < |xs| :: Instance(xs[i], a.children[i], binding)
    case _ => AtomEq(p, a)
  }

  /** The pending pairs, the next one last. */
  type Work = seq<(Atom, Atom)>

  function Pairs(xs: seq<Atom>, ys: seq<Atom>): (w: Work)
    requires |xs| == |ys|
    ensures |w| == |xs|
  {
    seq(|xs|, i requires 0 <= i < |xs| => (xs[i], ys[i]))
  }

  function Weight(w: Work): nat {
    if w == [] then 0 else Size(w[0].0) + Weight(w[1..])
  }

  lemma {:induction false} WeightAppend(v: Work, w: Work)
    ensures Weight(v + w) == Weight(v) + Weight(w)
    decreases |v|
  {
    if v == [] {
      assert v + w == w;
    } else {
      assert (v + w)[1..] == v[1..] + w;
      WeightAppend(v[1..], w);
    }
  }

  lemma {:induction false} WeightPairs(xs: seq<Atom>, ys: seq<Atom>)
    requires |xs| == |ys|
    ensures Weight(Pairs(xs, ys)) == SizeAll(xs)
    decreases |xs|
  {
    if xs != [] {
      assert Pairs(xs, ys)[1..] == Pairs(xs[1..], ys[1..]);
      WeightPairs(xs[1..], ys[1..]);
    }
  }

  predicate AllInstances(w: Work, binding: map<string, Atom>) {
    forall i | 0 <= i < |w| :: Instance(w[i].0, w[i].1, binding)
  }

  /** Everything `partial` has settled, `full` agrees with up to atom equality. */
  predicate Extends(full: map<string, Atom>, partial: map<string, Atom>) {
    forall n | n in partial :: n in full && AtomEq(full[n], partial[n])
  }

  lemma {:induction false} InstanceWider(p: Atom, a: Atom, full: map<string, Atom>, partial: map<string, Atom>)
    requires Instance(p, a, partial) && Extends(full, partial)
    ensures Instance(p, a, full)
    decreases p
  {
    match p
    case Variable(n) => if n != "_" { AtomEqTransitive(full[n], partial[n], a); }
    case Expression(xs) =>
      forall i | 0 <= i < |xs| ensures Instance(xs[i], a.children[i], full) {
        InstanceWider(xs[i], a.children[i], full, partial);
      }
    case _ =>
  }

  lemma ExtendsReflexive(b: map<string, Atom>)
    ensures Extends(b, b)
  {
    forall n | n in b ensures AtomEq(b[n], b[n]) { AtomEqReflexive(b[n]); }
  }

  /** The pairs left after the last one is taken apart. */
  function Rest(w: Work): Work
    requires w != []
  {
    var (x, y) := w[|w| - 1];
    var rest := w[..|w| - 1];
    if x.Expression? && y.Expression? && |x.children| == |y.children|
    then rest + Pairs(x.children, y.children)
    else rest
  }

  lemma RestLighter(w: Work)
    requires w != []
    ensures Weight(Rest(w)) < Weight(w)
  {
    var (x, y) := w[|w| - 1];
    var rest := w[..|w| - 1];
    assert w == rest + [(x, y)];
    WeightAppend(rest, [(x, y)]);
    assert Weight([(x, y)]) == Size(x);
    if x.Expression? && y.Expression? && |x.children| == |y.children| {
      WeightAppend(rest, Pairs(x.children, y.children));
      WeightPairs(x.children, y.children);
    }
  }

  /** The work-list matcher, last pair first. */
  function Unify(w: Work, b: map<string, Atom>): Option<map<string, Atom>>
    decreases Weight(w)
  {
    if w == [] then Some(b)
    else
      RestLighter(w);
      var (x, y) := w[|w| - 1];
      if x.Variable? then
        if x.name == "_" then Unify(Rest(w), b)
        else if x.name !in b then Unify(Rest(w), b[x.name := y])
        else if AtomEq(b[x.name], y) then Unify(Rest(w), b)
        else None
      else if x.Expression? && y.Expression? then
        if |x.children| == |y.children| then Unify(Rest(w), b) else None
      else if AtomEq(x, y) then Unify(Rest(w), b)
      else None
  }

  function Match(p: Atom, a: Atom): Option<map<string, Atom>> {
    Unify([(p, a)], map[])
  }

  lemma AllInstancesRest(w: Work, full: map<string, Atom>)
    requires w != []
    requires var (x, y) := w[|w| - 1];
             x.Expression? && y.Expression? && |x.children| == |y.children|
    ensures AllInstances(w, full) <==> AllInstances(Rest(w), full)
  {
    var (x, y) := w[|w| - 1];
    var rest := w[..|w| - 1];
    var r := Rest(w);
    if AllInstances(w, full) {
      assert Instance(w[|w| - 1].0, w[|w| - 1].1, full);
    }
    if AllInstances(r, full) {
      forall i | 0 <= i < |x.children| ensures Instance(x.children[i], y.children[i], full) {
        assert r[|rest| + i] == (x.children[i], y.children[i]);
        assert Instance(r[|rest| + i].0, r[|rest| + i].1, full);
      }
      forall i | 0 <= i < |w| - 1 ensures Instance(w[i].0, w[i].1, full) {
        assert r[i] == w[i];
      }
    }
  }

  /** Soundness: the answered binding settles every pair and keeps what was settled. */
  lemma {:induction false} UnifySound(w: Work, b: map<string, Atom>)
    requires Unify(w, b).Some?
    ensures AllInstances(w, Unify(w, b).value) && Extends(Unify(w, b).value, b)
    decreases Weight(w)
  {
    if w == [] {
      ExtendsReflexive(b);
    } else {
      RestLighter(w);
      var (x, y) := w[|w| - 1];
      var full := Unify(w, b).value;
      if x.Variable? && x.name != "_" && x.name !in b {
        UnifySound(Rest(w), b[x.name := y]);
        assert Extends(full, b[x.name := y]);
        assert x.name in b[x.name := y];
        forall n | n in b ensures n in full && AtomEq(full[n], b[n]) {
          assert n in b[x.name := y];
        }
      } else {
        UnifySound(Rest(w), b);
        if x.Expression? && y.Expression? {
          AllInstancesRest(w, full);
        } else if x.Variable? && x.name != "_" {
          AtomEqTransitive(full[x.name], b[x.name], y);
        }
      }
      if !(x.Expression? && y.Expression?) { LastInstance(w, full); }
    }
  }

  lemma LastInstance(w: Work, full: map<string, Atom>)
    requires w != []
    requires AllInstances(w[..|w| - 1], full) && Instance(w[|w| - 1].0, w[|w| - 1].1, full)
    ensures AllInstances(w, full)
  {
    forall i | 0 <= i < |w| ensures Instance(w[i].0, w[i].1, full) {
      if i < |w| - 1 { assert w[..|w| - 1][i] == w[i]; }
    }
  }

  /** Completeness: a binding that settles every pair keeps the matcher from refusing. */
  lemma {:induction false} UnifyComplete(w: Work, b: map<string, Atom>, full: map<string, Atom>)
    requires AllInstances(w, full) && Extends(full, b)
    ensures Unify(w, b).Some?
    decreases Weight(w)
  {
    if w != [] {
      RestLighter(w);
      var (x, y) := w[|w| - 1];
      assert Instance(w[|w| - 1].0, w[|w| - 1].1, full);
      if x.Expression? {
        AllInstancesRest(w, full);
        UnifyComplete(Rest(w), b, full);
      } else if x.Variable? && x.name != "_" && x.name !in b {
        UnifyComplete(Rest(w), b[x.name := y], full);
      } else {
        if x.Variable? && x.name != "_" {
          AtomEqSymmetric(full[x.name], b[x.name]);
          AtomEqTransitive(b[x.name], full[x.name], y);
        }
        UnifyComplete(Rest(w), b, full);
      }
    }
  }

  /** The matcher answers exactly when some binding makes the pattern an instance
      equal to the atom, and then answers such a binding. */
  lemma MatchExact(p: Atom, a: Atom)
    ensures Match(p, a).Some? <==> exists b :: Instance(p, a, b)
    ensures Match(p, a).Some? ==> Instance(p, a, Match(p, a).value)
  {
    var w := [(p, a)];
    if Match(p, a).Some? {
      UnifySound(w, map[]);
      assert Instance(w[0].0, w[0].1, Match(p, a).value);
    }
    if b :| Instance(p, a, b) {
      UnifyComplete(w, map[], b);
    }
  }

  /** The names a match of the pattern binds: its variables but `_`. */
  function BindingNames(p: Atom): set<string>
    decreases p, 1
  {
    match p
    case Variable(n) => if n == "_" then {} else {n}
    case Expression(xs) => BindingNamesAll(xs)
    case _ => {}
  }

  function BindingNamesAll(xs: seq<Atom>): set<string>
    decreases xs, 0
  {
    if xs == [] then {} else BindingNames(xs[0]) + BindingNamesAll(xs[1..])
  }

  function NamesOf(w: Work): set<string> {
    if w == [] then {} else NamesOf(w[..|w| - 1]) + BindingNames(w[|w| - 1].0)
  }

  lemma {:induction false} NamesOfPairs(w: Work, xs: seq<Atom>, ys: seq<Atom>)
    requires |xs| == |ys|
    ensures NamesOf(w + Pairs(xs, ys)) == NamesOf(w) + BindingNamesAll(xs)
    decreases |xs|
  {
    if xs == [] {
      assert w + Pairs(xs, ys) == w;
    } else {
      NamesOfPairs(w + [(xs[0], ys[0])], xs[1..], ys[1..]);
      assert w + Pairs(xs, ys) == w + [(xs[0], ys[0])] + Pairs(xs[1..], ys[1..]);
      assert (w + [(xs[0], ys[0])])[..|w|] == w;
    }
  }

  lemma {:induction false} UnifyBinds(w: Work, b: map<string, Atom>)
    requires Unify(w, b).Some?
    ensures Unify(w, b).value.Keys == b.Keys + NamesOf(w)
    decreases Weight(w)
  {
    if w != [] {
      RestLighter(w);
      var (x, y) := w[|w| - 1];
      var below := w[..|w| - 1];
      if x.Expression? && y.Expression? {
        NamesOfPairs(below, x.children, y.children);
        UnifyBinds(Rest(w), b);
      } else if x.Variable? && x.name != "_" && x.name !in b {
        assert Rest(w) == below;
        UnifyBinds(below, b[x.name := y]);
      } else {
        assert Rest(w) == below;
        UnifyBinds(below, b);
      }
    }
  }

  /** A match binds exactly the pattern's variables, `_` aside. */
  lemma MatchBindsExactly(p: Atom, a: Atom)
    requires Match(p, a).Some?
    ensures Match(p, a).value.Keys == BindingNames(p)
  {
    UnifyBinds([(p, a)], map[]);
    assert [(p, a)][..0] == [];
    assert NamesOf([(p, a)]) == NamesOf([]) + BindingNames(p);
  }

  /** The matching loop over an explicit stack of pairs. */
  method RunMatch(p: Atom, a: Atom) returns (r: Option<map<string, Atom>>)
    ensures r == Match(p, a)
  {
    var stack: Work := [(p, a)];
    var b: map<string, Atom> := map[];
    while stack != []
      invariant Unify(stack, b) == Match(p, a)
      decreases Weight(stack)
    {
      RestLighter(stack);
      var (x, y) := stack[|stack| - 1];
      var below := stack[..|stack| - 1];
      if x.Variable? {
        if x.name == "_" {
          stack := below;
          continue;
        }
        if x.name !in b {
          b := b[x.name := y];
        } else if !AtomEq(b[x.name], y) {
          return None;
        }
        stack := below;
      } else if x.Expression? && y.Expression? {
        if |x.children| != |y.children| { return None; }
        stack := below + Pairs(x.children, y.children);
      } else if !AtomEq(x, y) {
        return None;
      } else {
        stack := below;
      }
    }
    return Some(b);
  }
}
