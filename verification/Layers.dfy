/** Package foundations: a named graph, its longest-chain orders and the transitive
    foundations of each package, computed together over a topological order. */
module Layering {
  import Names

  /** Each package's direct foundations. */
  type Graph = map<string, seq<string>>

  // ------------------------------------------------------- paths, the reference

  /** A walk from each package to one of its direct foundations. */
  predicate IsPath(g: Graph, p: seq<string>)
    decreases |p|
  {
    p != [] && (|p| == 1 || (p[0] in g && p[1] in g[p[0]] && IsPath(g, p[1..])))
  }

  ghost predicate Reaches(g: Graph, a: string, b: string) {
    exists p :: IsPath(g, p) && |p| >= 2 && p[0] == a && p[|p| - 1] == b
  }

  ghost predicate Acyclic(g: Graph) {
    forall a :: !Reaches(g, a, a)
  }

  /** The longest chain of foundations from `a` has `n` steps. */
  ghost predicate LongestChain(g: Graph, a: string, n: nat) {
    && (exists p :: IsPath(g, p) && p[0] == a && |p| == n + 1)
    && (forall p | IsPath(g, p) && p[0] == a :: |p| <= n + 1)
  }

  function Named(g: Graph): set<string> {
    set n, b | n in g && b in g[n] :: b
  }

  predicate Closed(g: Graph) {
    Named(g) <= g.Keys
  }

  lemma {:induction false} PathJoin(g: Graph, p: seq<string>, q: seq<string>)
    requires IsPath(g, p) && IsPath(g, q) && p[|p| - 1] == q[0]
    ensures IsPath(g, p + q[1..])
    ensures (p + q[1..])[0] == p[0] && (p + q[1..])[|p| + |q| - 2] == q[|q| - 1]
    decreases |p|
  {
    var r := p + q[1..];
    if |p| == 1 {
      assert r == q;
    } else {
      PathJoin(g, p[1..], q);
      assert r[1..] == p[1..] + q[1..];
    }
  }

  lemma {:induction false} PathSlice(g: Graph, p: seq<string>, i: nat, j: nat)
    requires IsPath(g, p) && i < j <= |p|
    ensures IsPath(g, p[i..j])
    decreases |p|
  {
    if i > 0 {
      PathSlice(g, p[1..], i - 1, j - 1);
      assert p[1..][i - 1..j - 1] == p[i..j];
    } else if j > 1 {
      PathSlice(g, p[1..], 0, j - 1);
      assert p[1..][..j - 1] == p[0..j][1..];
    }
  }

  lemma PathTail(g: Graph, p: seq<string>)
    requires IsPath(g, p)
    ensures p != []
    ensures |p| >= 2 ==> p[0] in g && p[1] in g[p[0]] && IsPath(g, p[1..])
  {
  }

  lemma PathPair(g: Graph, n: string, f: string)
    requires n in g && f in g[n]
    ensures IsPath(g, [n, f])
  {
  }

  lemma PathFrom(g: Graph, n: string, p: seq<string>)
    requires IsPath(g, p) && n in g && p[0] in g[n]
    ensures IsPath(g, [n] + p) && p != [] && ([n] + p)[|p|] == p[|p| - 1]
  {
    assert ([n] + p)[1..] == p;
  }

  lemma ReachesTrans(g: Graph, a: string, b: string, c: string)
    requires Reaches(g, a, b) && Reaches(g, b, c)
    ensures Reaches(g, a, c)
  {
    var p :| IsPath(g, p) && |p| >= 2 && p[0] == a && p[|p| - 1] == b;
    var q :| IsPath(g, q) && |q| >= 2 && q[0] == b && q[|q| - 1] == c;
    PathJoin(g, p, q);
    var r := p + q[1..];
    assert IsPath(g, r) && |r| >= 2 && r[0] == a && r[|r| - 1] == c;
  }

  // ------------------------------------------------------------ one package's row

  type Orders = map<string, nat>
  type Foundations = map<string, set<string>>

  /** The largest order among the bases plus one, or zero without bases. */
  function Above(bases: seq<string>, order: Orders): (r: nat)
    requires forall b | b in bases :: b in order
    ensures forall b | b in bases :: order[b] < r
  {
    if bases == [] then 0
    else
      var rest := Above(bases[1..], order);
      if order[bases[0]] + 1 > rest then order[bases[0]] + 1 else rest
  }

  lemma {:induction false} AboveMet(bases: seq<string>, order: Orders) returns (b: string)
    requires forall b | b in bases :: b in order
    requires Above(bases, order) > 0
    ensures b in bases && order[b] + 1 == Above(bases, order)
    decreases |bases|
  {
    if order[bases[0]] + 1 > Above(bases[1..], order) { b := bases[0]; }
    else { b := AboveMet(bases[1..], order); }
  }

  lemma AboveBounds(bases: seq<string>, order: Orders, b: string)
    requires (forall b | b in bases :: b in order) && b in bases
    ensures order[b] < Above(bases, order)
  {
  }

  function Below(bases: seq<string>, foundations: Foundations): (r: set<string>)
    requires forall b | b in bases :: b in foundations
  {
    (set b | b in bases) + (set b, f | b in bases && f in foundations[b] :: f)
  }

  /** A package's row is filled from its bases' rows, which are filled already. */
  predicate RowFilled(g: Graph, order: Orders, foundations: Foundations, n: string)
    requires n in order && n in foundations && n in g && order.Keys == foundations.Keys
  {
    && (forall b | b in g[n] :: b in order)
    && order[n] == Above(g[n], order)
    && foundations[n] == Below(g[n], foundations)
  }

  predicate Filled(g: Graph, order: Orders, foundations: Foundations) {
    && order.Keys == foundations.Keys <= g.Keys
    && forall n | n in order :: RowFilled(g, order, foundations, n)
  }

  /** Filling one more row leaves every filled row as it was. */
  lemma FilledNext(g: Graph, order: Orders, foundations: Foundations, n: string)
    requires Filled(g, order, foundations)
    requires n in g && n !in order && forall b | b in g[n] :: b in order
    ensures Filled(g, order[n := Above(g[n], order)], foundations[n := Below(g[n], foundations)])
  {
    hide Above, Below;
    var order' := order[n := Above(g[n], order)];
    var foundations' := foundations[n := Below(g[n], foundations)];
    forall m | m in order' ensures RowFilled(g, order', foundations', m) {
      if m != n { assert RowFilled(g, order, foundations, m); }
      assert forall b | b in g[m] :: b in order && b != n;
      AboveSame(g[m], order, order');
      BelowSame(g[m], foundations, foundations');
    }
  }

  lemma BelowSame(bases: seq<string>, foundations: Foundations, other: Foundations)
    requires forall b | b in bases :: b in foundations && b in other && foundations[b] == other[b]
    ensures Below(bases, foundations) == Below(bases, other)
  {
  }

  lemma {:induction false} AboveSame(bases: seq<string>, order: Orders, other: Orders)
    requires forall b | b in bases :: b in order && b in other && order[b] == other[b]
    ensures Above(bases, order) == Above(bases, other)
    decreases |bases|
  {
    if bases != [] { AboveSame(bases[1..], order, other); }
  }

  // ---------------------------------------------- filled rows say what paths say

  /** A path from a filled package stays in filled rows and goes down at every step. */
  lemma {:induction false} PathDescends(g: Graph, order: Orders, foundations: Foundations, p: seq<string>,
                                        n: string, last: string)
    requires Filled(g, order, foundations) && IsPath(g, p) && p[0] == n && p[|p| - 1] == last && n in order
    ensures last in order && n in foundations && order[last] + |p| - 1 <= order[n]
    ensures |p| >= 2 ==> last in foundations[n]
    decreases |p|
  {
    hide Filled, Above, Below, IsPath;
    InBoth(g, order, foundations, n);
    PathTail(g, p);
    if |p| >= 2 {
      RowStep(g, order, foundations, n, p[1], last);
      PathDescends(g, order, foundations, p[1..], p[1], last);
    }
  }

  lemma InBoth(g: Graph, order: Orders, foundations: Foundations, n: string)
    requires Filled(g, order, foundations) && n in order
    ensures n in foundations
  {
  }

  lemma RowStep(g: Graph, order: Orders, foundations: Foundations, n: string, b: string, last: string)
    requires Filled(g, order, foundations) && n in order && n in g && b in g[n]
    ensures b in order && b in foundations && order[b] < order[n]
    ensures n in foundations && b in foundations[n] && (last in foundations[b] ==> last in foundations[n])
  {
    assert RowFilled(g, order, foundations, n);
  }

  lemma RowIn(g: Graph, order: Orders, foundations: Foundations, n: string)
    requires Filled(g, order, foundations) && n in order
    ensures n in foundations && n in g
    ensures forall b | b in g[n] :: b in order && b in foundations
    ensures order[n] == Above(g[n], order) && foundations[n] == Below(g[n], foundations)
  {
    assert RowFilled(g, order, foundations, n);
  }

  /** What is below a package but is not a base of it is below one of its bases. */
  lemma BelowMet(bases: seq<string>, foundations: Foundations, f: string) returns (b: string)
    requires forall b | b in bases :: b in foundations
    requires f in Below(bases, foundations) && f !in bases
    ensures b in bases && f in foundations[b]
  {
    b :| b in bases && f in foundations[b];
  }

  lemma {:induction false} ChainOf(g: Graph, order: Orders, foundations: Foundations, n: string) returns (p: seq<string>)
    requires Filled(g, order, foundations) && n in order
    ensures IsPath(g, p) && p[0] == n && |p| == order[n] + 1
    decreases order[n]
  {
    RowIn(g, order, foundations, n);
    hide Filled, Above;
    if order[n] == 0 {
      p := [n];
    } else {
      var b := AboveMet(g[n], order);
      AboveBounds(g[n], order, b);
      var q := ChainOf(g, order, foundations, b);
      PathFrom(g, n, q);
      p := [n] + q;
    }
  }

  /** Something below a package is a base of it, or below a base, which is lower. */
  lemma NextTo(g: Graph, order: Orders, foundations: Foundations, n: string, f: string) returns (b: string)
    requires Filled(g, order, foundations) && n in order && n in foundations && f in foundations[n]
    ensures n in g && (f in g[n] || (b in g[n] && b in order && b in foundations && f in foundations[b] && order[b] < order[n]))
  {
    RowIn(g, order, foundations, n);
    hide Filled, Below, Above;
    b := n;
    if f !in g[n] {
      b := BelowMet(g[n], foundations, f);
      AboveBounds(g[n], order, b);
    }
  }

  lemma {:induction false} PathTo(g: Graph, order: Orders, foundations: Foundations, n: string, f: string)
    returns (p: seq<string>)
    requires Filled(g, order, foundations) && n in order && n in foundations && f in foundations[n]
    ensures IsPath(g, p) && |p| >= 2 && p[0] == n && p[|p| - 1] == f
    decreases order[n]
  {
    hide Filled, IsPath;
    var b := NextTo(g, order, foundations, n, f);
    if f in g[n] {
      PathPair(g, n, f);
      p := [n, f];
    } else {
      var q := PathTo(g, order, foundations, b, f);
      PathFrom(g, n, q);
      p := [n] + q;
    }
  }

  /** Every filled row holds the longest chain and exactly the packages reached. */
  lemma RowIsExact(g: Graph, order: Orders, foundations: Foundations, n: string)
    requires Filled(g, order, foundations) && n in order
    ensures LongestChain(g, n, order[n])
    ensures forall f :: f in foundations[n] <==> Reaches(g, n, f)
  {
    var chain := ChainOf(g, order, foundations, n);
    assert IsPath(g, chain) && chain[0] == n && |chain| == order[n] + 1;
    forall p | IsPath(g, p) && p[0] == n ensures |p| <= order[n] + 1 {
      PathDescends(g, order, foundations, p, p[0], p[|p| - 1]);
    }
    forall f ensures f in foundations[n] <==> Reaches(g, n, f) {
      if f in foundations[n] {
        var p := PathTo(g, order, foundations, n, f);
        assert IsPath(g, p) && |p| >= 2 && p[0] == n && p[|p| - 1] == f;
      }
      if Reaches(g, n, f) {
        var p :| IsPath(g, p) && |p| >= 2 && p[0] == n && p[|p| - 1] == f;
        PathDescends(g, order, foundations, p, p[0], p[|p| - 1]);
      }
    }
  }

  lemma CompleteIsAcyclic(g: Graph, order: Orders, foundations: Foundations)
    requires Filled(g, order, foundations) && order.Keys == g.Keys
    ensures Acyclic(g)
  {
    forall a ensures !Reaches(g, a, a) {
      if Reaches(g, a, a) {
        var p :| IsPath(g, p) && |p| >= 2 && p[0] == a && p[|p| - 1] == a;
        PathDescends(g, order, foundations, p, p[0], p[|p| - 1]);
        assert false;
      }
    }
  }

  // ------------------------------------------------------- stuck only on a cycle

  /** Every package left has a foundation that is left too. */
  predicate Stuck(g: Graph, rest: set<string>) {
    rest <= g.Keys && forall n | n in rest :: MeetsIn(g[n], rest)
  }

  predicate MeetsIn(bases: seq<string>, rest: set<string>) {
    exists b :: b in bases && b in rest
  }

  lemma {:induction false} WalkOn(g: Graph, rest: set<string>, n: string, k: nat) returns (p: seq<string>)
    requires Stuck(g, rest) && n in rest
    ensures IsPath(g, p) && p[0] == n && |p| == k + 1 && forall i | 0 <= i < |p| :: p[i] in rest
    decreases k
  {
    hide MeetsIn;
    if k == 0 {
      p := [n];
    } else {
      var b := Met(g[n], rest);
      var q := WalkOn(g, rest, b, k - 1);
      PathFrom(g, n, q);
      p := [n] + q;
    }
  }

  lemma Met(bases: seq<string>, rest: set<string>) returns (b: string)
    requires MeetsIn(bases, rest)
    ensures b in bases && b in rest
  {
    b :| b in bases && b in rest;
  }

  lemma {:induction false} TooLong(p: seq<string>, rest: set<string>) returns (i: nat, j: nat)
    requires |p| > |rest| && forall k | 0 <= k < |p| :: p[k] in rest
    ensures i < j < |p| && p[i] == p[j]
    decreases |p|
  {
    var last := |p| - 1;
    if k :| 0 <= k < last && p[k] == p[last] {
      i, j := k, last;
    } else {
      assert p[last] in rest && |rest - {p[last]}| == |rest| - 1;
      i, j := TooLong(p[..last], rest - {p[last]});
    }
  }

  lemma StuckHasCycle(g: Graph, rest: set<string>)
    requires Stuck(g, rest) && rest != {}
    ensures !Acyclic(g)
  {
    hide Stuck;
    var n :| n in rest;
    var p := WalkOn(g, rest, n, |rest|);
    var i, j := TooLong(p, rest);
    var c := p[i..j + 1];
    PathSlice(g, p, i, j + 1);
    assert IsPath(g, c) && |c| >= 2 && c[0] == p[i] && c[|c| - 1] == p[i];
    assert Reaches(g, p[i], p[i]);
  }

  // ------------------------------------------------------------------- the analysis

  datatype Analysis =
    | Layers(order: Orders, foundations: Foundations)
    | Undeclared(names: seq<string>)
    | Cyclic

  /** What the analysis of a graph must be. */
  ghost predicate IsAnalysis(g: Graph, order: Orders, foundations: Foundations) {
    && order.Keys == g.Keys && foundations.Keys == g.Keys
    && (forall n | n in g :: LongestChain(g, n, order[n]))
    && (forall n, f | n in g :: f in foundations[n] <==> Reaches(g, n, f))
  }

  /** Orders and foundations, filled package by package in any order that puts each
      package after its foundations. */
  method Analyse(g: Graph) returns (r: Analysis)
    ensures r.Undeclared? <==> !Closed(g)
    ensures r.Undeclared? ==> Names.Ascends(r.names) && forall n :: n in r.names <==> n in Named(g) - g.Keys
    ensures r.Cyclic? <==> Closed(g) && !Acyclic(g)
    ensures r.Layers? ==> IsAnalysis(g, r.order, r.foundations)
  {
    hide Acyclic, Reaches, LongestChain, IsPath, Above, Below;
    var unknown := Named(g) - g.Keys;
    if unknown != {} {
      var names := SortedSet(unknown);
      return Undeclared(names);
    }
    assert Closed(g) by {
      forall b | b in Named(g) ensures b in g.Keys { assert b !in unknown; }
    }
    var order: Orders, foundations: Foundations := map[], map[];
    while order.Keys != g.Keys
      invariant Filled(g, order, foundations)
      decreases g.Keys - order.Keys
    {
      var ready := set n | n in g.Keys - order.Keys && forall b | b in g[n] :: b in order;
      if ready == {} {
        StuckFound(g, order);
        StuckHasCycle(g, g.Keys - order.Keys);
        return Cyclic;
      }
      var n :| n in ready;
      FilledNext(g, order, foundations, n);
      ghost var before := order.Keys;
      order, foundations :=
        order[n := Above(g[n], order)], foundations[n := Below(g[n], foundations)];
      assert g.Keys - order.Keys == (g.Keys - before) - {n};
    }
    CompleteIsAcyclic(g, order, foundations);
    forall n | n in g
      ensures LongestChain(g, n, order[n])
      ensures forall f :: f in foundations[n] <==> Reaches(g, n, f)
    {
      RowIsExact(g, order, foundations, n);
    }
    return Layers(order, foundations);
  }

  lemma StuckFound(g: Graph, order: Orders)
    requires Closed(g) && order.Keys <= g.Keys
    requires forall n | n in g.Keys - order.Keys :: exists b :: b in g[n] && b !in order
    ensures Stuck(g, g.Keys - order.Keys)
  {
    var rest := g.Keys - order.Keys;
    forall n | n in rest ensures MeetsIn(g[n], rest) {
      var b :| b in g[n] && b !in order;
      assert b in Named(g);
    }
  }

  method SortedSet(names: set<string>) returns (r: seq<string>)
    ensures Names.Ascends(r) && forall n :: n in r <==> n in names
  {
    var rest := names;
    r := [];
    while rest != {}
      invariant rest <= names && Names.Ascends(r)
      invariant forall n :: n in r <==> n in names - rest
      decreases rest
    {
      var n :| n in rest;
      rest, r := rest - {n}, Names.Placed(n, r);
    }
  }

  /** Whatever order the packages were taken in, the answer is the same. */
  lemma AnalysisUnique(g: Graph, o1: Orders, f1: Foundations, o2: Orders, f2: Foundations)
    requires IsAnalysis(g, o1, f1) && IsAnalysis(g, o2, f2)
    ensures o1 == o2 && f1 == f2
  {
    hide LongestChain, Reaches;
    forall n | n in g ensures o1[n] == o2[n] && f1[n] == f2[n] {
      LongestUnique(g, n, o1[n], o2[n]);
      assert forall f :: f in f1[n] <==> f in f2[n];
    }
  }

  lemma LongestUnique(g: Graph, n: string, a: nat, b: nat)
    requires LongestChain(g, n, a) && LongestChain(g, n, b)
    ensures a == b
  {
    var p :| IsPath(g, p) && p[0] == n && |p| == a + 1;
    var q :| IsPath(g, q) && q[0] == n && |q| == b + 1;
  }

  /** A foundation has a strictly smaller order. */
  lemma FoundationIsLower(g: Graph, order: Orders, foundations: Foundations, n: string, f: string)
    requires IsAnalysis(g, order, foundations) && n in g && f in g && f in foundations[n]
    ensures order[f] < order[n]
  {
    assert Reaches(g, n, f) && LongestChain(g, f, order[f]);
    var p :| IsPath(g, p) && |p| >= 2 && p[0] == n && p[|p| - 1] == f;
    var q :| IsPath(g, q) && q[0] == f && |q| == order[f] + 1;
    PathJoin(g, p, q);
    assert |p + q[1..]| <= order[n] + 1;
  }
}
