/** The discrimination tree: nested token edges with registration numbers at the leaves. */
module Tries {
  import opened Sequences
  import opened TokenPaths

  datatype Trie = Node(edges: map<Token, Trie>, leaves: seq<nat>)

  const EMPTY: Trie := Node(map[], [])

  function LeavesAt(t: Trie, path: seq<Token>): seq<nat>
    decreases |path|
  {
    if path == [] then t.leaves
    else if path[0] in t.edges then LeavesAt(t.edges[path[0]], path[1..])
    else []
  }

  /** The tree with the leaves at `path` replaced, its missing edges created. */
  function SetLeaves(t: Trie, path: seq<Token>, leaves: seq<nat>): Trie
    decreases |path|
  {
    if path == [] then t.(leaves := leaves)
    else
      var step := if path[0] in t.edges then t.edges[path[0]] else EMPTY;
      t.(edges := t.edges[path[0] := SetLeaves(step, path[1..], leaves)])
  }

  lemma {:induction false} LeavesAtSet(t: Trie, path: seq<Token>, leaves: seq<nat>, other: seq<Token>)
    ensures LeavesAt(SetLeaves(t, path, leaves), other) == (if other == path then leaves else LeavesAt(t, other))
    decreases |path|
  {
    if path != [] && other != [] && other[0] == path[0] {
      var step := if path[0] in t.edges then t.edges[path[0]] else EMPTY;
      LeavesAtSet(step, path[1..], leaves, other[1..]);
      if other[1..] == path[1..] {
        assert other == [other[0]] + other[1..] == [path[0]] + path[1..] == path;
      }
      assert LeavesAt(EMPTY, other[1..]) == [];
    }
  }

  // --------------------------------------------------------------------- walk

  /** What the retrieval reads from a node at a position, variable edges first. */
  function Walk(t: Trie, ts: seq<Token>, i: nat): seq<nat>
    requires i <= |ts|
    decreases |ts| - i
  {
    if i == |ts| then t.leaves
    else
      (if Star in t.edges then Walk(t.edges[Star], ts, End(ts, i)) else []) +
      (if ts[i] in t.edges then Walk(t.edges[ts[i]], ts, i + 1) else [])
  }

  predicate NoStar(ts: seq<Token>) {
    forall i | 0 <= i < |ts| :: !ts[i].Star?
  }

  lemma {:induction false} WalkSound(t: Trie, ts: seq<Token>, i: nat, id: nat) returns (path: seq<Token>)
    requires i <= |ts| && id in Walk(t, ts, i)
    ensures Reaches(path, ts, i) && id in LeavesAt(t, path)
    decreases |ts| - i
  {
    if i == |ts| {
      path := [];
    } else if Star in t.edges && id in Walk(t.edges[Star], ts, End(ts, i)) {
      var rest := WalkSound(t.edges[Star], ts, End(ts, i), id);
      path := [Star] + rest;
      assert path[1..] == rest;
    } else {
      var rest := WalkSound(t.edges[ts[i]], ts, i + 1, id);
      path := [ts[i]] + rest;
      assert path[1..] == rest;
    }
  }

  lemma {:induction false} WalkComplete(t: Trie, ts: seq<Token>, i: nat, path: seq<Token>, id: nat)
    requires i <= |ts| && Reaches(path, ts, i) && id in LeavesAt(t, path)
    ensures id in Walk(t, ts, i)
    decreases |path|
  {
    if path != [] {
      if path[0].Star? && Reaches(path[1..], ts, End(ts, i)) {
        WalkComplete(t.edges[path[0]], ts, End(ts, i), path[1..], id);
      } else {
        WalkComplete(t.edges[path[0]], ts, i + 1, path[1..], id);
      }
    }
  }

  /** A number stands under one path only, and once. */
  ghost predicate OnePath(t: Trie) {
    && (forall path, other, id | id in LeavesAt(t, path) && id in LeavesAt(t, other) :: path == other)
    && (forall path :: Distinct(LeavesAt(t, path)))
  }

  lemma OnePathBelow(t: Trie, token: Token)
    requires OnePath(t) && token in t.edges
    ensures OnePath(t.edges[token])
  {
    var below := t.edges[token];
    forall path, other, id | id in LeavesAt(below, path) && id in LeavesAt(below, other)
      ensures path == other
    {
      LeavesBelow(t, token, path);
      LeavesBelow(t, token, other);
      assert ([token] + path)[1..] == path && ([token] + other)[1..] == other;
      assert [token] + path == [token] + other;
    }
    forall path ensures Distinct(LeavesAt(below, path)) { LeavesBelow(t, token, path); }
  }

  lemma LeavesBelow(t: Trie, token: Token, path: seq<Token>)
    requires token in t.edges
    ensures LeavesAt(t, [token] + path) == LeavesAt(t.edges[token], path)
  {
    assert ([token] + path)[1..] == path;
  }

  lemma DistinctJoin(xs: seq<nat>, ys: seq<nat>)
    requires Distinct(xs) && Distinct(ys) && (forall x | x in xs :: x !in ys)
    ensures Distinct(xs + ys)
  {
    forall i, j | 0 <= i < j < |xs + ys| ensures (xs + ys)[i] != (xs + ys)[j] {
      if i < |xs| <= j { assert xs[i] in xs && ys[j - |xs|] in ys; }
    }
  }

  /** Different edges lead to different numbers. */
  lemma EdgesPart(t: Trie, a: Token, p: seq<Token>, b: Token, q: seq<Token>, id: nat)
    requires OnePath(t) && a in t.edges && b in t.edges && a != b
    requires id in LeavesAt(t.edges[a], p)
    ensures id !in LeavesAt(t.edges[b], q)
  {
    LeavesBelow(t, a, p);
    LeavesBelow(t, b, q);
    var left, right := [a] + p, [b] + q;
    assert left[0] != right[0];
    assert id in LeavesAt(t, left) && id in LeavesAt(t, right) ==> left == right;
  }

  lemma EdgesDisjoint(t: Trie, ts: seq<Token>, i: nat, id: nat)
    requires i < |ts| && NoStar(ts) && OnePath(t)
    requires Star in t.edges && ts[i] in t.edges
    requires id in Walk(t.edges[Star], ts, End(ts, i))
    ensures id !in Walk(t.edges[ts[i]], ts, i + 1)
  {
    hide OnePath, Reaches, LeavesAt, Walk;
    if id in Walk(t.edges[ts[i]], ts, i + 1) {
      var p := WalkSound(t.edges[Star], ts, End(ts, i), id);
      var q := WalkSound(t.edges[ts[i]], ts, i + 1, id);
      EdgesPart(t, Star, p, ts[i], q, id);
    }
  }

  /** No number is read twice: a variable edge and a literal edge part for good. */
  lemma {:induction false} WalkDistinct(t: Trie, ts: seq<Token>, i: nat)
    requires i <= |ts| && NoStar(ts) && OnePath(t)
    ensures Distinct(Walk(t, ts, i))
    decreases |ts| - i
  {
    hide NoStar, OnePath;
    if i == |ts| {
      LeavesDistinct(t);
    } else {
      var starred := if Star in t.edges then Walk(t.edges[Star], ts, End(ts, i)) else [];
      var exact := if ts[i] in t.edges then Walk(t.edges[ts[i]], ts, i + 1) else [];
      assert Distinct(starred) by {
        if Star in t.edges { OnePathBelow(t, Star); WalkDistinct(t.edges[Star], ts, End(ts, i)); }
      }
      assert Distinct(exact) by {
        if ts[i] in t.edges { OnePathBelow(t, ts[i]); WalkDistinct(t.edges[ts[i]], ts, i + 1); }
      }
      assert forall id | id in starred :: id !in exact by {
        hide Distinct;
        if Star in t.edges && ts[i] in t.edges {
          forall id | id in starred ensures id !in exact { EdgesDisjoint(t, ts, i, id); }
        }
      }
      DistinctJoin(starred, exact);
    }
  }

  lemma LeavesDistinct(t: Trie)
    requires OnePath(t)
    ensures Distinct(t.leaves)
  {
    assert t.leaves == LeavesAt(t, []);
  }

  predicate InRange(stack: seq<(Trie, nat)>, length: nat) {
    forall k | 0 <= k < |stack| :: stack[k].1 <= length
  }

  /** The numbers still to be read from a stack of nodes and positions, top last. */
  function ToRead(stack: seq<(Trie, nat)>, ts: seq<Token>): seq<nat>
    requires InRange(stack, |ts|)
  {
    if stack == [] then []
    else
      var (node, i) := stack[|stack| - 1];
      Walk(node, ts, i) + ToRead(stack[..|stack| - 1], ts)
  }

  /** Room for every node a position can still lead to. */
  function Fuel(n: nat): (f: nat)
    ensures f > 0
  {
    if n == 0 then 1 else 2 * Fuel(n - 1) + 1
  }

  lemma {:induction false} FuelGrows(m: nat, n: nat)
    requires m <= n
    ensures Fuel(m) <= Fuel(n)
    decreases n - m
  {
    if m < n { FuelGrows(m, n - 1); }
  }

  function StackFuel(stack: seq<(Trie, nat)>, length: nat): nat
    requires InRange(stack, length)
  {
    if stack == [] then 0
    else Fuel(length - stack[|stack| - 1].1) + StackFuel(stack[..|stack| - 1], length)
  }
}
