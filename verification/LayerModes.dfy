/** What an analysed package graph decides: the package of a module, how one package
    imports another, and the published layers. */
module ImportModes {
  import opened Sequences
  import opened Layering
  import Names

  const ROOT := "metta"

  // -------------------------------------------------------------- package of a module

  datatype Package = Unit(name: string) | NotThisPackage | UndeclaredPackage(name: string)

  /** The text before the first dot. */
  function UpToDot(s: string): (r: string)
    ensures |r| <= |s| && s[..|r|] == r && '.' !in r
    ensures |r| == |s| || s[|r|] == '.'
  {
    if s == "" || s[0] == '.' then "" else [s[0]] + UpToDot(s[1..])
  }

  lemma {:induction false} UpToDotIs(name: string, rest: string)
    requires '.' !in name && (rest == "" || rest[0] == '.')
    ensures UpToDot(name + rest) == name
    decreases |name|
  {
    if name == "" {
      assert name + rest == rest;
    } else {
      assert (name + rest)[1..] == name[1..] + rest;
      UpToDotIs(name[1..], rest);
    }
  }

  function PackageOf(declared: set<string>, m: string): Package {
    if m == ROOT then Unit(m)
    else if |m| < 6 || m[..6] != "metta." then NotThisPackage
    else
      var name := UpToDot(m[6..]);
      if name in declared then Unit(name) else UndeclaredPackage(name)
  }

  /** A module belongs to the declared package its second component names. */
  lemma PackageExactly(declared: set<string>, m: string, n: string)
    ensures PackageOf(declared, m) == Unit(n) <==>
              (m == ROOT && n == ROOT)
              || (n in declared && '.' !in n
                  && exists rest :: m == "metta." + n + rest && (rest == "" || rest[0] == '.'))
  {
    if n in declared && '.' !in n {
      forall rest | m == "metta." + n + rest && (rest == "" || rest[0] == '.')
        ensures PackageOf(declared, m) == Unit(n)
      {
        assert m[..6] == "metta." && m[6..] == n + rest;
        UpToDotIs(n, rest);
      }
    }
    if PackageOf(declared, m) == Unit(n) && m != ROOT {
      var rest := m[6 + |n|..];
      assert m == m[..6] + m[6..] && m[6..] == m[6..][..|n|] + m[6..][|n|..] && m[6..][|n|..] == rest;
      assert m == "metta." + n + rest && (rest == "" || rest[0] == '.');
    }
  }

  // -------------------------------------------------------------------- import modes

  /** How an importer reaches a package; an importer or target outside the tables is a
      missing key. */
  datatype Mode = Direct | Lazy | Refused | MissingKey

  function ModeOf(order: Orders, foundations: Foundations, target: string, importer: string): Mode {
    if target == importer then Direct
    else if importer !in foundations then MissingKey
    else if target in foundations[importer] then Direct
    else if target !in order || importer !in order then MissingKey
    else if order[target] > order[importer] then Lazy
    else Refused
  }

  datatype Decision = Import(mode: Mode) | NoPackage(found: Package)

  function BindingMode(order: Orders, foundations: Foundations, m: string, importer: string): Decision {
    match PackageOf(order.Keys, m)
    case Unit(target) => Import(ModeOf(order, foundations, target, importer))
    case found => NoPackage(found)
  }

  /** A package imports a module directly exactly when the module is its own or its
      package is reached from it, and every decision is one of three when both are
      packages of the graph, the root module's among them. */
  lemma ModuleIsDirectExactly(g: Graph, order: Orders, foundations: Foundations, m: string, n: string, importer: string)
    requires IsAnalysis(g, order, foundations) && n in g && importer in g
    requires PackageOf(g.Keys, m) == Unit(n)
    ensures BindingMode(order, foundations, m, importer) == Import(Direct) <==>
              n == importer || Reaches(g, importer, n)
    ensures BindingMode(order, foundations, m, importer) == Import(Lazy) <==>
              !Reaches(g, importer, n) && order[n] > order[importer]
    ensures BindingMode(order, foundations, m, importer) == Import(Refused) <==>
              n != importer && !Reaches(g, importer, n) && order[n] <= order[importer]
  {
    hide LongestChain, Reaches, PackageOf;
    assert order.Keys == g.Keys;
  }

  /** Direct import is a partial order on the packages. */
  lemma DirectIsPartialOrder(g: Graph, order: Orders, foundations: Foundations, a: string, b: string, c: string)
    requires IsAnalysis(g, order, foundations) && a in g && b in g && c in g
    ensures ModeOf(order, foundations, a, a) == Direct
    ensures ModeOf(order, foundations, a, b) == Direct && ModeOf(order, foundations, b, a) == Direct ==> a == b
    ensures ModeOf(order, foundations, a, b) == Direct && ModeOf(order, foundations, b, c) == Direct ==>
              ModeOf(order, foundations, a, c) == Direct
  {
    hide LongestChain, Reaches;
    if a in foundations[b] && b in foundations[a] {
      FoundationIsLower(g, order, foundations, b, a);
      FoundationIsLower(g, order, foundations, a, b);
    }
    if a in foundations[b] && b in foundations[c] {
      assert Reaches(g, b, a) && Reaches(g, c, b);
      ReachesTrans(g, c, b, a);
    }
  }

  /** Two different packages are related one way: direct down and lazy back exactly when
      one is reached from the other; otherwise lazy up and refused down by order, and
      refused both ways at the same order. */
  lemma ModesExactly(g: Graph, order: Orders, foundations: Foundations, low: string, high: string)
    requires IsAnalysis(g, order, foundations) && low in g && high in g && low != high
    ensures ModeOf(order, foundations, low, high) == Direct <==> Reaches(g, high, low)
    ensures ModeOf(order, foundations, low, high) == Direct ==> ModeOf(order, foundations, high, low) == Lazy
    ensures !Reaches(g, high, low) && !Reaches(g, low, high) ==>
              (ModeOf(order, foundations, high, low) == Lazy <==> order[high] > order[low])
              && (ModeOf(order, foundations, low, high) == Refused <==> order[high] >= order[low])
  {
    hide LongestChain, Reaches;
    if low in foundations[high] {
      FoundationIsLower(g, order, foundations, high, low);
      if high in foundations[low] { FoundationIsLower(g, order, foundations, low, high); }
    }
  }

  // ------------------------------------------------------------------ published layers

  type Levels = map<nat, seq<string>>

  /** The levels below `n` that are in use, highest first. */
  function DownFrom(used: set<nat>, n: nat): (r: seq<nat>)
    ensures forall i, j | 0 <= i < j < |r| :: r[i] > r[j]
    ensures forall k :: k in r <==> k in used && k < n
  {
    if n == 0 then []
    else
      var rest := DownFrom(used, n - 1);
      assert forall i | 0 <= i < |rest| :: rest[i] in rest;
      if n - 1 in used then [n - 1] + rest else rest
  }

  /** Every package but the root in its order's layer, layers strictly downwards,
      siblings sorted, no layer empty. */
  ghost predicate IsLayers(order: Orders, levels: seq<nat>, groups: seq<seq<string>>) {
    && |levels| == |groups|
    && (forall i, j | 0 <= i < j < |levels| :: levels[i] > levels[j])
    && (forall i | 0 <= i < |groups| :: groups[i] != [] && Names.Ascends(groups[i]))
    && (forall i, n | 0 <= i < |groups| :: n in groups[i] <==> n in order && n != ROOT && order[n] == levels[i])
    && (forall n | n in order && n != ROOT :: order[n] in levels)
  }

  /** The packages of `done` filed under their orders, each once. */
  ghost predicate FiledLevels(order: Orders, done: set<string>, levels: Levels, top: nat) {
    && (forall l | l in levels :: l < top && levels[l] != [])
    && (forall l, n | l in levels :: n in levels[l] <==> n in done && n in order && n != ROOT && order[n] == l)
    && (forall n | n in done && n in order && n != ROOT :: order[n] in levels)
  }

  method LayerGroups(order: Orders) returns (groups: seq<seq<string>>)
    ensures exists heights :: IsLayers(order, heights, groups)
  {
    NoneFiled(order);
    hide FiledLevels, IsLayers, Files;
    var levels: Levels, rest, top := map[], order.Keys, 0;
    assert order.Keys - rest == {};
    while rest != {}
      invariant rest <= order.Keys
      invariant FiledLevels(order, order.Keys - rest, levels, top)
      decreases rest
    {
      var name :| name in rest;
      ghost var done := order.Keys - rest;
      FiledNext(order, done, levels, top, name);
      rest := rest - {name};
      assert order.Keys - rest == done + {name};
      levels, top := Files(order, levels, name), if order[name] >= top then order[name] + 1 else top;
    }
    assert order.Keys - rest == order.Keys;
    var descending := DownFrom(levels.Keys, top);
    groups := [];
    for i := 0 to |descending|
      invariant |groups| == i
      invariant forall j | 0 <= j < i :: Holds(groups[j], levels, descending[j])
    {
      assert descending[i] in descending;
      groups := groups + [Names.Sorted(levels[descending[i]])];
    }
    SortedLayers(order, levels, top, descending, groups);
  }

  lemma NoneFiled(order: Orders)
    ensures FiledLevels(order, {}, map[], 0)
  {
  }

  /** The sorted packages of one level. */
  ghost predicate Holds(group: seq<string>, levels: Levels, l: nat) {
    l in levels && Names.Ascends(group) && forall n :: n in group <==> n in levels[l]
  }

  function Files(order: Orders, levels: Levels, name: string): Levels
    requires name in order
  {
    if name == ROOT then levels
    else levels[order[name] := (if order[name] in levels then levels[order[name]] else []) + [name]]
  }

  lemma FiledNext(order: Orders, done: set<string>, levels: Levels, top: nat, name: string)
    requires FiledLevels(order, done, levels, top) && name in order && name !in done
    ensures FiledLevels(order, done + {name}, Files(order, levels, name),
                        if order[name] >= top then order[name] + 1 else top)
  {
  }

  lemma SortedLayers(order: Orders, levels: Levels, top: nat, heights: seq<nat>, groups: seq<seq<string>>)
    requires FiledLevels(order, order.Keys, levels, top)
    requires heights == DownFrom(levels.Keys, top) && |groups| == |heights|
    requires forall j | 0 <= j < |groups| :: Holds(groups[j], levels, heights[j])
    ensures IsLayers(order, heights, groups)
  {
    LevelsCover(order, levels, top, heights);
    hide FiledLevels, Holds, DownFrom;
    forall i | 0 <= i < |groups|
      ensures groups[i] != [] && Names.Ascends(groups[i])
      ensures forall n :: n in groups[i] <==> n in order && n != ROOT && order[n] == heights[i]
    {
      GroupIsLevel(order, levels, top, heights[i], groups[i]);
    }
  }

  lemma LevelsCover(order: Orders, levels: Levels, top: nat, heights: seq<nat>)
    requires FiledLevels(order, order.Keys, levels, top) && heights == DownFrom(levels.Keys, top)
    ensures forall i, j | 0 <= i < j < |heights| :: heights[i] > heights[j]
    ensures forall n | n in order && n != ROOT :: order[n] in heights
  {
  }

  lemma GroupIsLevel(order: Orders, levels: Levels, top: nat, l: nat, group: seq<string>)
    requires FiledLevels(order, order.Keys, levels, top) && Holds(group, levels, l)
    ensures group != [] && Names.Ascends(group)
    ensures forall n :: n in group <==> n in order && n != ROOT && order[n] == l
  {
    hide Names.Ascends;
    assert levels[l][0] in levels[l];
  }

  /** The layers are determined by the orders, in whatever order packages are filed. */
  lemma {:induction false} LayersUnique(order: Orders, l1: seq<nat>, g1: seq<seq<string>>, l2: seq<nat>, g2: seq<seq<string>>)
    requires IsLayers(order, l1, g1) && IsLayers(order, l2, g2)
    ensures l1 == l2 && g1 == g2
  {
    forall l ensures l in l1 <==> l in l2 {
      LevelUsed(order, l1, g1, l);
      LevelUsed(order, l2, g2, l);
    }
    DescendingUnique(l1, l2);
    forall i | 0 <= i < |g1| ensures g1[i] == g2[i] {
      assert l1[i] == l2[i];
      forall n ensures n in g1[i] <==> n in g2[i] {
        assert n in g1[i] <==> n in order && n != ROOT && order[n] == l1[i];
        assert n in g2[i] <==> n in order && n != ROOT && order[n] == l2[i];
      }
      Names.AscendsUnique(g1[i], g2[i]);
    }
  }

  lemma LevelUsed(order: Orders, levels: seq<nat>, groups: seq<seq<string>>, l: nat)
    requires IsLayers(order, levels, groups)
    ensures l in levels <==> exists n :: n in order && n != ROOT && order[n] == l
  {
    if l in levels {
      var i :| 0 <= i < |levels| && levels[i] == l;
      var n := groups[i][0];
      assert n in groups[i];
      assert n in order && n != ROOT && order[n] == l;
    }
  }

  lemma {:induction false} DescendingUnique(a: seq<nat>, b: seq<nat>)
    requires forall i, j | 0 <= i < j < |a| :: a[i] > a[j]
    requires forall i, j | 0 <= i < j < |b| :: b[i] > b[j]
    requires forall k: nat :: k in a <==> k in b
    ensures a == b
    decreases |a|
  {
    HeadIn(a);
    HeadIn(b);
    if a != [] && b != [] {
      forall k: nat ensures k in a[1..] <==> k in b[1..] {
        if k in a[1..] { assert k in b && k < a[0]; }
        if k in b[1..] { assert k in a && k < b[0]; }
      }
      DescendingUnique(a[1..], b[1..]);
      assert a == [a[0]] + a[1..] && b == [b[0]] + b[1..];
    }
  }

  /** Every package but the root stands in one layer, once, and each of its foundations
      but the root in a strictly later, lower one. */
  lemma LayersRespectFoundations(g: Graph, order: Orders, foundations: Foundations, levels: seq<nat>,
                                 groups: seq<seq<string>>, n: string)
    requires IsAnalysis(g, order, foundations) && IsLayers(order, levels, groups) && n in g && n != ROOT
    ensures exists i, j :: 0 <= i < |groups| && 0 <= j < |groups[i]| && groups[i][j] == n
    ensures forall i, j, k, l | 0 <= i < |groups| && 0 <= j < |groups[i]| && groups[i][j] == n
                                && 0 <= k < |groups| && 0 <= l < |groups[k]| && groups[k][l] == n :: i == k && j == l
    ensures forall i, k, f | 0 <= i < |groups| && 0 <= k < |groups| && n in groups[i] && f in groups[k]
                             && Reaches(g, n, f) :: i < k
  {
    hide LongestChain, Reaches;
    var i :| 0 <= i < |levels| && levels[i] == order[n];
    assert n in groups[i];
    forall i, j, k, l | 0 <= i < |groups| && 0 <= j < |groups[i]| && groups[i][j] == n
                        && 0 <= k < |groups| && 0 <= l < |groups[k]| && groups[k][l] == n
      ensures i == k && j == l
    {
      assert n in groups[i] && n in groups[k];
      Names.LessIrreflexive(n);
    }
    forall i, k, f | 0 <= i < |groups| && 0 <= k < |groups| && n in groups[i] && f in groups[k] && Reaches(g, n, f)
      ensures i < k
    {
      FoundationIsLower(g, order, foundations, n, f);
    }
  }
}
