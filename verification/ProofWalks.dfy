/** What is read off a proof tree: its nodes in pre-order, its rendering, the facts and
    rules it rests on, and whether it is complete. */
module ProofWalks {
  import opened Sequences
  import opened Atoms
  import opened ProofTrees
  import Renaming

  // ------------------------------------------------------------------------ pre-order

  function NodeSize(node: Node): (n: nat)
    ensures n > 0
    decreases node, 1
  {
    match node
    case Step(_, _, _, children) => 1 + NodesSize(children)
    case _ => 1
  }

  function NodesSize(nodes: seq<Node>): nat
    decreases nodes, 0
  {
    if nodes == [] then 0 else NodeSize(nodes[0]) + NodesSize(nodes[1..])
  }

  /** A node, then its children's nodes. */
  function Below(node: Node): seq<Node>
    decreases node, 1
  {
    match node
    case Step(_, _, _, children) => [node] + PreOrder(children)
    case _ => [node]
  }

  function PreOrder(nodes: seq<Node>): seq<Node>
    decreases nodes, 0
  {
    if nodes == [] then [] else Below(nodes[0]) + PreOrder(nodes[1..])
  }

  /** What a stack of nodes still yields, the last node first. */
  function Yet(stack: seq<Node>): seq<Node> {
    if stack == [] then [] else Below(stack[|stack| - 1]) + Yet(stack[..|stack| - 1])
  }

  function StackSize(stack: seq<Node>): nat {
    if stack == [] then 0 else NodeSize(stack[|stack| - 1]) + StackSize(stack[..|stack| - 1])
  }

  lemma {:induction false} PushedAll(rest: seq<Node>, nodes: seq<Node>)
    ensures Yet(rest + Reversed(nodes)) == PreOrder(nodes) + Yet(rest)
    ensures StackSize(rest + Reversed(nodes)) == StackSize(rest) + NodesSize(nodes)
    decreases |nodes|
  {
    hide Below, NodeSize, Yet, StackSize;
    if nodes == [] {
      assert rest + Reversed(nodes) == rest;
    } else {
      assert rest + Reversed(nodes) == rest + Reversed(nodes[1..]) + [nodes[0]];
      PushedOne(rest + Reversed(nodes[1..]), nodes[0]);
      PushedAll(rest, nodes[1..]);
    }
  }

  lemma PushedOne(rest: seq<Node>, node: Node)
    ensures Yet(rest + [node]) == Below(node) + Yet(rest)
    ensures StackSize(rest + [node]) == StackSize(rest) + NodeSize(node)
  {
    hide Below, NodeSize;
    var stack := rest + [node];
    assert stack[..|stack| - 1] == rest && stack[|stack| - 1] == node;
  }

  lemma NodeFirst(node: Node)
    ensures Below(node) == [node] + if node.Step? then PreOrder(node.children) else []
    ensures NodeSize(node) == 1 + if node.Step? then NodesSize(node.children) else 0
  {
  }

  /** The walk over an explicit stack. */
  method Walk(nodes: seq<Node>) returns (r: seq<Node>)
    ensures r == PreOrder(nodes)
  {
    hide PreOrder, Below, NodeSize, NodesSize;
    PushedAll([], nodes);
    assert [] + Reversed(nodes) == Reversed(nodes);
    var stack := Reversed(nodes);
    r := [];
    while stack != []
      invariant r + Yet(stack) == PreOrder(nodes)
      decreases StackSize(stack)
    {
      var node, rest := stack[|stack| - 1], stack[..|stack| - 1];
      NodeFirst(node);
      r := r + [node];
      stack := rest;
      if node.Step? {
        PushedAll(rest, node.children);
        stack := rest + Reversed(node.children);
      }
    }
  }

  // ------------------------------------------------ pre-order is every place, once each

  /** The node at a place: which tree, which child, and so on. */
  function At(nodes: seq<Node>, place: seq<nat>): Option<Node>
    decreases |place|
  {
    if place == [] || place[0] >= |nodes| then None
    else if |place| == 1 then Some(nodes[place[0]])
    else if nodes[place[0]].Step? then At(nodes[place[0]].children, place[1..])
    else None
  }

  /** The places of a tree's nodes, each node's before its children's, left to right. */
  function Places(nodes: seq<Node>, k: nat): seq<seq<nat>>
    requires k <= |nodes|
    decreases nodes, |nodes| - k
  {
    if k == |nodes| then [] else [[k]] + Under(k, PlacesBelow(nodes[k])) + Places(nodes, k + 1)
  }

  function PlacesBelow(node: Node): seq<seq<nat>>
    decreases node
  {
    if node.Step? then Places(node.children, 0) else []
  }

  function Under(k: nat, places: seq<seq<nat>>): (r: seq<seq<nat>>)
    ensures |r| == |places|
    ensures forall i | 0 <= i < |places| :: r[i] == [k] + places[i]
  {
    seq(|places|, i requires 0 <= i < |places| => [k] + places[i])
  }

  /** Of two places of one list, the earlier in pre-order. */
  predicate Earlier(p: seq<nat>, q: seq<nat>)
    decreases |p|
  {
    if q == [] then false
    else if p == [] then true
    else if p[0] != q[0] then p[0] < q[0]
    else Earlier(p[1..], q[1..])
  }

  ghost predicate InTurn(places: seq<seq<nat>>) {
    forall i, j | 0 <= i < j < |places| :: Earlier(places[i], places[j])
  }

  predicate StartAt(places: seq<seq<nat>>, k: nat) {
    forall i | 0 <= i < |places| :: places[i] != [] && places[i][0] == k
  }

  predicate StartFrom(places: seq<seq<nat>>, k: nat) {
    forall i | 0 <= i < |places| :: places[i] != [] && places[i][0] >= k
  }

  lemma UnderInTurn(k: nat, deep: seq<seq<nat>>)
    requires InTurn(deep) && StartFrom(deep, 0)
    ensures InTurn([[k]] + Under(k, deep)) && StartAt([[k]] + Under(k, deep), k)
  {
    var here := [[k]] + Under(k, deep);
    forall i | 0 < i < |here| ensures here[i] == [k] + deep[i - 1] && here[i][1..] == deep[i - 1] {}
    forall i, j | 0 <= i < j < |here| ensures Earlier(here[i], here[j]) {
      if i > 0 { assert Earlier(deep[i - 1], deep[j - 1]); }
    }
  }

  lemma JoinInTurn(a: seq<seq<nat>>, b: seq<seq<nat>>, k: nat)
    requires InTurn(a) && InTurn(b) && StartAt(a, k) && StartFrom(b, k + 1)
    ensures InTurn(a + b) && StartFrom(a + b, k)
  {
    forall i, j | 0 <= i < j < |a + b| ensures Earlier((a + b)[i], (a + b)[j]) {
      if j < |a| {
        assert Earlier(a[i], a[j]);
      } else if i >= |a| {
        assert Earlier(b[i - |a|], b[j - |a|]);
      } else {
        assert a[i] != [] && a[i][0] == k && b[j - |a|] != [] && b[j - |a|][0] > k;
      }
    }
  }

  lemma {:induction false} PlacesInTurn(nodes: seq<Node>, k: nat)
    requires k <= |nodes|
    ensures InTurn(Places(nodes, k)) && StartFrom(Places(nodes, k), k)
    ensures forall p | p in Places(nodes, k) :: p != [] && p[0] >= k
    decreases nodes, |nodes| - k
  {
    hide InTurn, Earlier;
    if k < |nodes| {
      var deep := PlacesBelow(nodes[k]);
      if nodes[k].Step? { PlacesInTurn(nodes[k].children, 0); } else { NoPlaces(); }
      PlacesInTurn(nodes, k + 1);
      UnderInTurn(k, deep);
      JoinInTurn([[k]] + Under(k, deep), Places(nodes, k + 1), k);
    } else {
      NoPlaces();
    }
  }

  lemma NoPlaces()
    ensures InTurn([])
  {
  }

  lemma {:induction false} PlacesHold(nodes: seq<Node>, k: nat)
    requires k <= |nodes|
    ensures |Places(nodes, k)| == |PreOrder(nodes[k..])|
    ensures forall i | 0 <= i < |Places(nodes, k)| :: At(nodes, Places(nodes, k)[i]) == Some(PreOrder(nodes[k..])[i])
    decreases nodes, |nodes| - k
  {
    if k < |nodes| {
      var node := nodes[k];
      assert nodes[k..][1..] == nodes[k + 1..];
      PlacesHold(nodes, k + 1);
      var deep := PlacesBelow(node);
      PlacesInTurn(nodes, k);
      if node.Step? {
        PlacesInTurn(node.children, 0);
        PlacesHold(node.children, 0);
        assert node.children[0..] == node.children;
        forall i | 0 <= i < |deep| ensures At(nodes, [k] + deep[i]) == Some(PreOrder(node.children)[i]) {
          assert deep[i] in deep && ([k] + deep[i])[1..] == deep[i];
        }
      }
      assert |Below(node)| == 1 + |deep|;
    }
  }

  lemma {:induction false} EveryPlace(nodes: seq<Node>, k: nat, place: seq<nat>)
    requires k <= |nodes| && At(nodes, place).Some? && place[0] >= k
    ensures place in Places(nodes, k)
    decreases nodes, |nodes| - k
  {
    if place[0] > k {
      EveryPlace(nodes, k + 1, place);
    } else if |place| == 1 {
      assert place == [k];
    } else {
      var deep := PlacesBelow(nodes[k]);
      EveryPlace(nodes[k].children, 0, place[1..]);
      var i :| 0 <= i < |deep| && deep[i] == place[1..];
      assert Under(k, deep)[i] == [k] + place[1..] == place;
      assert place in Under(k, deep);
    }
  }

  /** The walk yields the node of every place of the tree and nothing else, each place
      once, parents before children and left before right. */
  lemma WalkIsEveryPlace(nodes: seq<Node>)
    ensures var places := Places(nodes, 0);
            && |PreOrder(nodes)| == |places| && InTurn(places)
            && (forall i | 0 <= i < |places| :: At(nodes, places[i]) == Some(PreOrder(nodes)[i]))
            && (forall p | At(nodes, p).Some? :: p in places)
  {
    PlacesInTurn(nodes, 0);
    PlacesHold(nodes, 0);
    assert nodes[0..] == nodes;
    forall p | At(nodes, p).Some? ensures p in Places(nodes, 0) { EveryPlace(nodes, 0, p); }
  }

  // ----------------------------------------------------------------------- truncations

  /** The points where a finite depth stopped the proof. */
  function Truncations(nodes: seq<Node>): seq<Node> {
    Only(PreOrder(nodes), IsTruncated)
  }

  predicate IsTruncated(node: Node) {
    node.Truncated?
  }

  predicate IsFact(node: Node) {
    node.Fact?
  }

  function Only<T>(xs: seq<T>, keep: T -> bool): (r: seq<T>)
    ensures forall x | x in r :: x in xs && keep(x)
    ensures forall x | x in xs && keep(x) :: x in r
  {
    if xs == [] then [] else if keep(xs[0]) then [xs[0]] + Only(xs[1..], keep) else Only(xs[1..], keep)
  }

  lemma {:induction false} OnlyExactly<T>(xs: seq<T>, keep: T -> bool) returns (ks: seq<nat>)
    ensures PicksAt(xs, ks, Only(xs, keep))
    ensures forall k: nat :: k in ks <==> k < |xs| && keep(xs[k])
    decreases |xs|
  {
    ks := [];
    if xs != [] {
      var rest := OnlyExactly(xs[1..], keep);
      PickHead(xs, rest, Only(xs[1..], keep));
      hide PicksAt, Shifted;
      ks := if keep(xs[0]) then [0] + Shifted(rest) else Shifted(rest);
      forall k: nat ensures k in ks <==> k < |xs| && keep(xs[k]) {
        if k > 0 { assert k in ks <==> (k - 1) + 1 in Shifted(rest); }
      }
    }
  }

  function Complete(d: Derivation): bool {
    Truncations(d.children) == []
  }

  /** This place of the tree holds a node that passes. */
  predicate Stands(nodes: seq<Node>, place: seq<nat>, passes: Node -> bool) {
    At(nodes, place).Some? && passes(At(nodes, place).value)
  }

  lemma PlaceOf(nodes: seq<Node>, node: Node) returns (place: seq<nat>)
    requires node in PreOrder(nodes)
    ensures At(nodes, place) == Some(node)
  {
    WalkIsEveryPlace(nodes);
    var i :| 0 <= i < |PreOrder(nodes)| && PreOrder(nodes)[i] == node;
    place := Places(nodes, 0)[i];
  }

  lemma NodeAt(nodes: seq<Node>, place: seq<nat>)
    requires At(nodes, place).Some?
    ensures At(nodes, place).value in PreOrder(nodes)
  {
    WalkIsEveryPlace(nodes);
    var i :| 0 <= i < |Places(nodes, 0)| && Places(nodes, 0)[i] == place;
    assert PreOrder(nodes)[i] in PreOrder(nodes);
  }

  /** A derivation is complete exactly when no place of its tree holds a truncation. */
  lemma CompleteExactly(d: Derivation)
    ensures Complete(d) <==> !exists p :: Stands(d.children, p, IsTruncated)
  {
    var nodes := d.children;
    hide At, PreOrder;
    if !Complete(d) {
      assert Truncations(nodes)[0] in Truncations(nodes);
      var p := PlaceOf(nodes, Truncations(nodes)[0]);
      assert Stands(nodes, p, IsTruncated);
    }
    forall p | Stands(nodes, p, IsTruncated) ensures !Complete(d) {
      NodeAt(nodes, p);
      assert At(nodes, p).value in Truncations(nodes);
    }
  }

  // -------------------------------------------------------------- first-seen projections

  ghost predicate Equivalence<T(!new)>(same: (T, T) -> bool) {
    && (forall x :: same(x, x))
    && (forall x, y | same(x, y) :: same(y, x))
    && (forall x, y, z | same(x, y) && same(y, z) :: same(x, z))
  }

  /** Something equal stands before position `i`. */
  predicate Repeats<T>(xs: seq<T>, same: (T, T) -> bool, i: nat)
    requires i < |xs|
  {
    exists j :: 0 <= j < i && same(xs[j], xs[i])
  }

  /** The members with nothing equal before them. */
  function FirstSeen<T>(xs: seq<T>, same: (T, T) -> bool): seq<T> {
    if xs == [] then []
    else
      var before, last := FirstSeen(xs[..|xs| - 1], same), |xs| - 1;
      if Repeats(xs, same, last) then before else before + [xs[last]]
  }

  /** What is kept stands at exactly the places with nothing equal before them, in order. */
  lemma {:induction false} FirstSeenExactly<T>(xs: seq<T>, same: (T, T) -> bool) returns (ks: seq<nat>)
    ensures PicksAt(xs, ks, FirstSeen(xs, same))
    ensures forall k: nat :: k in ks <==> k < |xs| && !exists j :: 0 <= j < k && same(xs[j], xs[k])
    decreases |xs|
  {
    ks := [];
    if xs != [] {
      var front, last := xs[..|xs| - 1], |xs| - 1;
      assert xs == front + [xs[last]];
      var before := FirstSeenExactly(front, same);
      PickLast(front, before, FirstSeen(front, same), xs[last]);
      hide PicksAt;
      ks := if Repeats(xs, same, last) then before else before + [last];
      forall k: nat ensures k in ks <==> k < |xs| && !exists j :: 0 <= j < k && same(xs[j], xs[k]) {
        assert k < last ==> (forall j | 0 <= j < k :: front[j] == xs[j]) && front[k] == xs[k];
      }
    }
  }

  predicate Holds<T>(seen: seq<T>, same: (T, T) -> bool, x: T) {
    exists j :: 0 <= j < |seen| && same(seen[j], x)
  }

  /** What is kept stands for everything met. */
  lemma {:induction false} KeptStands<T(!new)>(xs: seq<T>, same: (T, T) -> bool, x: T)
    requires Equivalence(same)
    ensures Holds(FirstSeen(xs, same), same, x) <==> Holds(xs, same, x)
    decreases |xs|
  {
    if xs != [] {
      var front, last := xs[..|xs| - 1], |xs| - 1;
      KeptStands(front, same, x);
      KeptStands(front, same, xs[last]);
      HoldsAppend(front, xs[last], same, x);
      assert xs == front + [xs[last]] && xs[..last + 1] == xs;
      RepeatsIsHolds(xs, same, last);
      hide Holds, Repeats, Equivalence;
      if Repeats(xs, same, last) {
        if same(xs[last], x) { HoldsThrough(front, same, xs[last], x); }
      } else {
        HoldsAppend(FirstSeen(front, same), xs[last], same, x);
      }
    }
  }

  lemma HoldsAppend<T>(xs: seq<T>, y: T, same: (T, T) -> bool, x: T)
    ensures Holds(xs + [y], same, x) <==> Holds(xs, same, x) || same(y, x)
  {
    if Holds(xs, same, x) {
      var j :| 0 <= j < |xs| && same(xs[j], x);
      assert same((xs + [y])[j], x);
    }
    if same(y, x) { assert same((xs + [y])[|xs|], x); }
  }

  lemma HoldsThrough<T(!new)>(xs: seq<T>, same: (T, T) -> bool, y: T, x: T)
    requires Equivalence(same) && Holds(xs, same, y) && same(y, x)
    ensures Holds(xs, same, x)
  {
    var j :| 0 <= j < |xs| && same(xs[j], y);
    assert same(xs[j], x);
  }

  /** No two of what is kept are equal. */
  lemma {:induction false} KeptApart<T(!new)>(xs: seq<T>, same: (T, T) -> bool)
    requires Equivalence(same)
    ensures forall i, j | 0 <= i < j < |FirstSeen(xs, same)| :: !same(FirstSeen(xs, same)[i], FirstSeen(xs, same)[j])
    decreases |xs|
  {
    if xs != [] {
      var front, last := xs[..|xs| - 1], |xs| - 1;
      KeptApart(front, same);
      KeptStands(front, same, xs[last]);
      assert xs[..last + 1] == xs;
      RepeatsIsHolds(xs, same, last);
      hide Repeats;
      assert !Repeats(xs, same, last) ==> !Holds(FirstSeen(front, same), same, xs[last]);
    }
  }

  /** The projection that asks, for each member, only what it has kept. */
  method Project<T(!new)>(xs: seq<T>, same: (T, T) -> bool) returns (seen: seq<T>)
    requires Equivalence(same)
    ensures seen == FirstSeen(xs, same)
  {
    hide Equivalence;
    seen := [];
    for i := 0 to |xs|
      invariant seen == FirstSeen(xs[..i], same)
    {
      assert xs[..i + 1][..i] == xs[..i];
      KeptStands(xs[..i], same, xs[i]);
      var known := false;
      for j := 0 to |seen|
        invariant known <==> Holds(seen[..j], same, xs[i])
      {
        assert seen[..j + 1] == seen[..j] + [seen[j]];
        HoldsAppend(seen[..j], seen[j], same, xs[i]);
        known := known || same(seen[j], xs[i]);
      }
      assert seen[..|seen|] == seen;
      RepeatsIsHolds(xs, same, i);
      if !known { seen := seen + [xs[i]]; }
    }
    assert xs[..|xs|] == xs;
  }

  lemma RepeatsIsHolds<T>(xs: seq<T>, same: (T, T) -> bool, i: nat)
    requires i < |xs|
    ensures Repeats(xs[..i + 1], same, i) <==> Holds(xs[..i], same, xs[i])
  {
    var front := xs[..i + 1];
    if Repeats(front, same, i) {
      var j :| 0 <= j < i && same(front[j], front[i]);
      assert same(xs[..i][j], xs[i]);
    }
    if Holds(xs[..i], same, xs[i]) {
      var j :| 0 <= j < |xs[..i]| && same(xs[..i][j], xs[i]);
      assert same(front[j], front[i]);
    }
  }

  /** Two facts are one when they name one space and equal atoms. */
  predicate SameFact(f: Node, g: Node) {
    if f.Fact? && g.Fact? then f.space == g.space && AtomEq(f.atom, g.atom) else f == g
  }

  lemma SameFactEquivalence()
    ensures Equivalence(SameFact)
  {
    forall x: Node ensures SameFact(x, x) { if x.Fact? { AtomEqReflexive(x.atom); } }
    forall x: Node, y: Node | SameFact(x, y) ensures SameFact(y, x) {
      if x.Fact? && y.Fact? { AtomEqSymmetric(x.atom, y.atom); }
    }
    forall x: Node, y: Node, z: Node | SameFact(x, y) && SameFact(y, z) ensures SameFact(x, z) {
      if x.Fact? && y.Fact? && z.Fact? { AtomEqTransitive(x.atom, y.atom, z.atom); }
    }
  }

  lemma AtomEqEquivalence()
    ensures Equivalence(AtomEq)
  {
    forall x: Atom ensures AtomEq(x, x) { AtomEqReflexive(x); }
    forall x: Atom, y: Atom | AtomEq(x, y) ensures AtomEq(y, x) { AtomEqSymmetric(x, y); }
    forall x: Atom, y: Atom, z: Atom | AtomEq(x, y) && AtomEq(y, z) ensures AtomEq(x, z) { AtomEqTransitive(x, y, z); }
  }

  function Equations(nodes: seq<Node>): seq<Atom> {
    if nodes == [] then []
    else if nodes[0].Step? then [nodes[0].equation] + Equations(nodes[1..])
    else Equations(nodes[1..])
  }

  function FactNodes(nodes: seq<Node>): seq<Node> {
    Only(nodes, IsFact)
  }

  /** The facts the proof rests on, first seen first. */
  method Facts(d: Derivation) returns (r: seq<Node>)
    ensures r == FirstSeen(FactNodes(PreOrder(d.children)), SameFact)
  {
    SameFactEquivalence();
    var walked := Walk(d.children);
    r := Project(FactNodes(walked), SameFact);
  }

  /** The equations that fired, first seen first. */
  method Rules(d: Derivation) returns (r: seq<Atom>)
    ensures r == FirstSeen(Equations(PreOrder(d.children)), AtomEq)
  {
    AtomEqEquivalence();
    var walked := Walk(d.children);
    r := Project(Equations(walked), AtomEq);
  }

  /** Every fact of the tree is listed once, up to equality, and nothing else is. */
  lemma FactsAreTheTreesFacts(d: Derivation, f: Node)
    requires f.Fact?
    ensures Holds(FirstSeen(FactNodes(PreOrder(d.children)), SameFact), SameFact, f) <==>
              exists p :: Stands(d.children, p, IsFact) && SameFact(At(d.children, p).value, f)
    ensures var r := FirstSeen(FactNodes(PreOrder(d.children)), SameFact);
            forall i, j | 0 <= i < j < |r| :: !SameFact(r[i], r[j])
  {
    var nodes := d.children;
    hide At, PreOrder, SameFact;
    SameFactEquivalence();
    KeptStands(FactNodes(PreOrder(nodes)), SameFact, f);
    KeptApart(FactNodes(PreOrder(nodes)), SameFact);
    var facts := FactNodes(PreOrder(nodes));
    if Holds(facts, SameFact, f) {
      var j :| 0 <= j < |facts| && SameFact(facts[j], f);
      assert facts[j] in facts;
      var p := PlaceOf(nodes, facts[j]);
      assert Stands(nodes, p, IsFact) && SameFact(At(nodes, p).value, f);
    }
    forall p | Stands(nodes, p, IsFact) && SameFact(At(nodes, p).value, f) ensures Holds(facts, SameFact, f) {
      NodeAt(nodes, p);
      var j :| 0 <= j < |facts| && facts[j] == At(nodes, p).value;
      assert SameFact(facts[j], f);
    }
  }

  predicate IsStep(node: Node) {
    node.Step?
  }

  /** The equations of a walk are those of its steps, in order. */
  lemma {:induction false} EquationsExactly(nodes: seq<Node>)
    ensures |Equations(nodes)| == |Only(nodes, IsStep)|
    ensures forall i | 0 <= i < |Equations(nodes)| ::
              Only(nodes, IsStep)[i].Step? && Equations(nodes)[i] == Only(nodes, IsStep)[i].equation
    decreases |nodes|
  {
    if nodes != [] { EquationsExactly(nodes[1..]); }
  }

  /** Every equation that fired in the tree is listed once, up to equality, and no other. */
  lemma RulesAreTheTreesEquations(d: Derivation, e: Atom)
    ensures Holds(FirstSeen(Equations(PreOrder(d.children)), AtomEq), AtomEq, e) <==>
              exists p :: Stands(d.children, p, IsStep) && AtomEq(At(d.children, p).value.equation, e)
    ensures var r := FirstSeen(Equations(PreOrder(d.children)), AtomEq);
            forall i, j | 0 <= i < j < |r| :: !AtomEq(r[i], r[j])
  {
    var nodes := d.children;
    var walked := PreOrder(nodes);
    hide At, PreOrder, AtomEq, Equations;
    AtomEqEquivalence();
    KeptStands(Equations(walked), AtomEq, e);
    KeptApart(Equations(walked), AtomEq);
    EquationsExactly(walked);
    var steps := Only(walked, IsStep);
    if Holds(Equations(walked), AtomEq, e) {
      var j :| 0 <= j < |Equations(walked)| && AtomEq(Equations(walked)[j], e);
      assert steps[j] in steps;
      var p := PlaceOf(nodes, steps[j]);
      assert Stands(nodes, p, IsStep) && AtomEq(At(nodes, p).value.equation, e);
    }
    forall p | Stands(nodes, p, IsStep) && AtomEq(At(nodes, p).value.equation, e)
      ensures Holds(Equations(walked), AtomEq, e)
    {
      NodeAt(nodes, p);
      assert At(nodes, p).value in steps;
      var i :| 0 <= i < |steps| && steps[i] == At(nodes, p).value;
      assert AtomEq(Equations(walked)[i], e);
    }
  }

  // ------------------------------------------------------------------------- rendering

  function Pad(level: nat): string {
    if level == 0 then "" else "  " + Pad(level - 1)
  }

  /** A node's own lines. */
  function Lines(node: Node, level: nat, say: Spelling): seq<string> {
    match node
    case Step(call, answer, equation, _) =>
      [Pad(level) + say.show(call) + " = " + say.show(answer),
       Pad(level) + "  by " + say.show(Renaming.Pretty(equation))]
    case Fact(space, atom) => [Pad(level) + "fact " + say.show(atom) + "   [" + space + "]"]
    case Builtin(text) => [Pad(level) + "builtin " + text]
    case Truncated(text) => [Pad(level) + "truncated " + text]
  }

  function Rendered(nodes: seq<Node>, level: nat, say: Spelling): seq<string>
    decreases nodes, 0
  {
    if nodes == [] then [] else RenderedNode(nodes[0], level, say) + Rendered(nodes[1..], level, say)
  }

  function RenderedNode(node: Node, level: nat, say: Spelling): seq<string>
    decreases node, 1
  {
    Lines(node, level, say) + (if node.Step? then Rendered(node.children, level + 1, say) else [])
  }

  lemma LeafLines(space: string, atom: Atom, b: string, t: string, say: Spelling)
    ensures Lines(Fact(space, atom), 2, say) == ["    fact " + say.show(atom) + "   [" + space + "]"]
    ensures Lines(Builtin(b), 2, say) == ["    builtin " + b]
    ensures Lines(Truncated(t), 2, say) == ["    truncated " + t]
  {
    assert Pad(0) == "" && Pad(1) == "  " && Pad(2) == "    ";
    assert "    " + "fact " == "    fact " && "    " + "builtin " == "    builtin ";
    assert "    " + "truncated " == "    truncated ";
  }

  lemma StepLines(call: Atom, answer: Atom, equation: Atom, children: seq<Node>, say: Spelling)
    ensures Lines(Step(call, answer, equation, children), 1, say) ==
            ["  " + say.show(call) + " = " + say.show(answer), "    by " + say.show(Renaming.Pretty(equation))]
  {
    hide Renaming.Pretty;
    assert Pad(0) == "" && Pad(1) == "  " && "  " + "  by " == "    by ";
  }

  lemma RenderedFirst(node: Node, more: seq<Node>, level: nat, say: Spelling)
    ensures Rendered([node] + more, level, say) ==
            Lines(node, level, say) + (if node.Step? then Rendered(node.children, level + 1, say) else [])
            + Rendered(more, level, say)
  {
    hide Lines;
    assert ([node] + more)[1..] == more;
  }

  /** A rendered step, whatever it holds: what it proves before the equation that proved
      it, then its children one level further in. */
  lemma RenderingLooksLike(call: Atom, answer: Atom, equation: Atom, space: string, atom: Atom, b: string, t: string,
                           say: Spelling)
    ensures Rendered([Step(call, answer, equation, [Fact(space, atom), Builtin(b), Truncated(t)])], 1, say) ==
            [ "  " + say.show(call) + " = " + say.show(answer),
              "    by " + say.show(Renaming.Pretty(equation)),
              "    fact " + say.show(atom) + "   [" + space + "]",
              "    builtin " + b,
              "    truncated " + t ]
  {
    hide Lines, Rendered;
    var leaves := [Fact(space, atom), Builtin(b), Truncated(t)];
    LeafLines(space, atom, b, t, say);
    StepLines(call, answer, equation, leaves, say);
    RenderedFirst(Step(call, answer, equation, leaves), [], 1, say);
    RenderedFirst(Fact(space, atom), [Builtin(b), Truncated(t)], 2, say);
    RenderedFirst(Builtin(b), [Truncated(t)], 2, say);
    RenderedFirst(Truncated(t), [], 2, say);
    RenderedNone(say);
    assert [Builtin(b)] + [Truncated(t)] == [Builtin(b), Truncated(t)] && [Truncated(t)] + [] == [Truncated(t)];
    assert [Fact(space, atom)] + [Builtin(b), Truncated(t)] == leaves;
    assert [Step(call, answer, equation, leaves)] + [] == [Step(call, answer, equation, leaves)];
  }

  lemma RenderedNone(say: Spelling)
    ensures Rendered([], 1, say) == [] && Rendered([], 2, say) == []
  {
  }

  lemma {:induction false} PadExactly(level: nat)
    ensures |Pad(level)| == 2 * level && forall i | 0 <= i < |Pad(level)| :: Pad(level)[i] == ' '
  {
    if level > 0 { PadExactly(level - 1); }
  }

  lemma RenderedNodeFirst(node: Node, level: nat, say: Spelling)
    ensures RenderedNode(node, level, say) ==
            Lines(node, level, say) + if node.Step? then Rendered(node.children, level + 1, say) else []
  {
  }

  type Levelled = seq<(Node, nat)>

  function Levels(nodes: seq<Node>, level: nat): (r: Levelled)
    ensures |r| == |nodes|
  {
    if nodes == [] then [] else Levels(nodes[1..], level) + [(nodes[0], level)]
  }

  function YetLines(stack: Levelled, say: Spelling): seq<string> {
    if stack == [] then []
    else
      var (node, level) := stack[|stack| - 1];
      RenderedNode(node, level, say) + YetLines(stack[..|stack| - 1], say)
  }

  function LevelledSize(stack: Levelled): nat {
    if stack == [] then 0 else NodeSize(stack[|stack| - 1].0) + LevelledSize(stack[..|stack| - 1])
  }

  lemma {:induction false} PushedLevel(rest: Levelled, nodes: seq<Node>, level: nat, say: Spelling)
    ensures YetLines(rest + Levels(nodes, level), say) == Rendered(nodes, level, say) + YetLines(rest, say)
    ensures LevelledSize(rest + Levels(nodes, level)) == LevelledSize(rest) + NodesSize(nodes)
    decreases |nodes|
  {
    hide RenderedNode, NodeSize;
    if nodes == [] {
      assert rest + Levels(nodes, level) == rest;
    } else {
      assert rest + Levels(nodes, level) == rest + Levels(nodes[1..], level) + [(nodes[0], level)];
      PushedLines(rest + Levels(nodes[1..], level), nodes[0], level, say);
      PushedLevel(rest, nodes[1..], level, say);
    }
  }

  lemma PushedLines(rest: Levelled, node: Node, level: nat, say: Spelling)
    ensures YetLines(rest + [(node, level)], say) == RenderedNode(node, level, say) + YetLines(rest, say)
    ensures LevelledSize(rest + [(node, level)]) == LevelledSize(rest) + NodeSize(node)
  {
    hide RenderedNode, NodeSize;
    var stack := rest + [(node, level)];
    assert stack[..|stack| - 1] == rest && stack[|stack| - 1] == (node, level);
  }

  /** What is left to write once a node is: its children, if it has any. */
  function Written(rest: Levelled, node: Node, level: nat): Levelled {
    if node.Step? then rest + Levels(node.children, level + 1) else rest
  }

  lemma WrittenGoesOn(rest: Levelled, node: Node, level: nat, say: Spelling)
    ensures YetLines(rest + [(node, level)], say) == Lines(node, level, say) + YetLines(Written(rest, node, level), say)
    ensures LevelledSize(Written(rest, node, level)) < LevelledSize(rest + [(node, level)])
  {
    RenderedNodeFirst(node, level, say);
    NodeFirst(node);
    hide RenderedNode, Rendered, Lines, NodeSize, NodesSize, YetLines, LevelledSize, Below, PreOrder;
    PushedLines(rest, node, level, say);
    if node.Step? {
      PushedLevel(rest, node.children, level + 1, say);
      assert Lines(node, level, say) + (Rendered(node.children, level + 1, say) + YetLines(rest, say)) ==
             Lines(node, level, say) + Rendered(node.children, level + 1, say) + YetLines(rest, say);
    } else {
      assert Lines(node, level, say) + [] == Lines(node, level, say);
    }
  }

  /** Rendering over an explicit stack. */
  method RenderNodes(nodes: seq<Node>, indent: nat, say: Spelling) returns (lines: seq<string>)
    ensures lines == Rendered(nodes, indent, say)
  {
    hide Rendered, Lines, YetLines, LevelledSize, NodesSize;
    PushedLevel([], nodes, indent, say);
    assert [] + Levels(nodes, indent) == Levels(nodes, indent);
    var stack := Levels(nodes, indent);
    lines := [];
    NothingYet(say);
    while stack != []
      invariant lines + YetLines(stack, say) == Rendered(nodes, indent, say)
      decreases LevelledSize(stack)
    {
      var (node, level) := stack[|stack| - 1];
      var rest := stack[..|stack| - 1];
      assert stack == rest + [(node, level)];
      WrittenGoesOn(rest, node, level, say);
      lines := lines + Lines(node, level, say);
      stack := rest;
      if node.Step? { stack := rest + Levels(node.children, level + 1); }
    }
  }

  lemma NothingYet(say: Spelling)
    ensures YetLines([], say) == []
  {
  }

  predicate Proper(places: seq<seq<nat>>) {
    forall i | 0 <= i < |places| :: places[i] != []
  }

  /** The lines are those of the nodes in walking order, each indented by how deep its
      place is. */
  lemma {:induction false} RenderedIsWalk(nodes: seq<Node>, k: nat, level: nat, say: Spelling)
    requires k <= |nodes|
    ensures |Places(nodes, k)| == |PreOrder(nodes[k..])|
    ensures Proper(Places(nodes, k))
    ensures Rendered(nodes[k..], level, say) == Joined(PreOrder(nodes[k..]), Places(nodes, k), level, say)
    decreases nodes, |nodes| - k
  {
    PlacesHold(nodes, k);
    PlacesInTurn(nodes, k);
    assert forall i | 0 <= i < |Places(nodes, k)| :: Places(nodes, k)[i] in Places(nodes, k);
    if k == |nodes| {
      assert nodes[k..] == [];
      assert Joined(PreOrder([]), Places(nodes, k), level, say) == [];
    } else {
      var node, deep := nodes[k], PlacesBelow(nodes[k]);
      PreOrderFrom(nodes, k, level, say);
      hide Proper, At, Lines, Joined, PreOrder, Rendered, RenderedNode, Places, Below, PlacesBelow;
      RenderedIsWalk(nodes, k + 1, level, say);
      if node.Step? {
        RenderedIsWalk(node.children, 0, level + 1, say);
        assert node.children[0..] == node.children;
      }
      RenderedNodeIsWalk(node, k, level, say);
      JoinedAppend(Below(node), PreOrder(nodes[k + 1..]), [[k]] + Under(k, deep), Places(nodes, k + 1), level, say);
    }
  }

  lemma PreOrderFrom(nodes: seq<Node>, k: nat, level: nat, say: Spelling)
    requires k < |nodes|
    ensures PreOrder(nodes[k..]) == Below(nodes[k]) + PreOrder(nodes[k + 1..])
    ensures Rendered(nodes[k..], level, say) == RenderedNode(nodes[k], level, say) + Rendered(nodes[k + 1..], level, say)
    ensures Places(nodes, k) == [[k]] + Under(k, PlacesBelow(nodes[k])) + Places(nodes, k + 1)
  {
    hide Below, RenderedNode;
    assert nodes[k..][1..] == nodes[k + 1..];
  }

  lemma RenderedNodeIsWalk(node: Node, k: nat, level: nat, say: Spelling)
    requires node.Step? ==>
               var places := Places(node.children, 0);
               && |places| == |PreOrder(node.children)| && Proper(places)
               && Rendered(node.children, level + 1, say) == Joined(PreOrder(node.children), places, level + 1, say)
    ensures var places := [[k]] + Under(k, PlacesBelow(node));
            && |Below(node)| == |places| && Proper(places)
            && RenderedNode(node, level, say) == Joined(Below(node), places, level, say)
  {
    hide Lines, Joined, Places, PreOrder, Rendered;
    var deep, inner := PlacesBelow(node), Below(node)[1..];
    if node.Step? { JoinedUnder(inner, deep, k, level, say); } else { JoinedNone(level, say); }
    assert Below(node) == [node] + inner;
    JoinedOne(node, k, level, say);
    JoinedAppend([node], inner, [[k]], Under(k, deep), level, say);
    assert Under(k, []) == [];
  }

  lemma JoinedNone(level: nat, say: Spelling)
    ensures Joined([], [], level, say) == []
  {
  }

  /** The lines of these nodes, each at the level of its place. */
  function Joined(nodes: seq<Node>, places: seq<seq<nat>>, level: nat, say: Spelling): seq<string>
    requires |nodes| == |places| && Proper(places)
  {
    if nodes == [] then []
    else Lines(nodes[0], level + |places[0]| - 1, say) + Joined(nodes[1..], places[1..], level, say)
  }

  lemma JoinedOne(node: Node, k: nat, level: nat, say: Spelling)
    ensures Proper([[k]]) && |[node]| == |[[k]]|
    ensures Joined([node], [[k]], level, say) == Lines(node, level, say)
  {
    hide Lines;
    assert [node][1..] == [] && [[k]][1..] == [];
    assert Joined([], [], level, say) == [];
  }

  lemma {:induction false} JoinedAppend(a: seq<Node>, b: seq<Node>, p: seq<seq<nat>>, q: seq<seq<nat>>, level: nat, say: Spelling)
    requires |a| == |p| && |b| == |q|
    requires Proper(p) && Proper(q)
    ensures Proper(p + q) && |a + b| == |p + q|
    ensures Joined(a + b, p + q, level, say) == Joined(a, p, level, say) + Joined(b, q, level, say)
    decreases |a|
  {
    hide Lines;
    if a == [] {
      assert a + b == b && p + q == q;
    } else {
      assert (a + b)[1..] == a[1..] + b && (p + q)[1..] == p[1..] + q;
      JoinedAppend(a[1..], b, p[1..], q, level, say);
    }
  }

  lemma {:induction false} JoinedUnder(nodes: seq<Node>, places: seq<seq<nat>>, k: nat, level: nat, say: Spelling)
    requires |nodes| == |places| && Proper(places)
    ensures Proper(Under(k, places))
    ensures Joined(nodes, Under(k, places), level, say) == Joined(nodes, places, level + 1, say)
    decreases |nodes|
  {
    hide Lines;
    if nodes != [] {
      assert Under(k, places)[1..] == Under(k, places[1..]);
      JoinedUnder(nodes[1..], places[1..], k, level, say);
    }
  }
}
