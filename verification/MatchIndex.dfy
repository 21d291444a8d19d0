/** The pattern index: a discrimination tree whose answers come in registration order. */
module MatchIndexes {
  import opened Sequences
  import opened Atoms
  import opened Matching
  import opened TokenPaths
  import opened Tries

  // ------------------------------------------------------------ the plain view

  /** What the index answers for one pattern. A probe with variables is compared both
      ways; a ground one needs a match along a path the probe's tokens follow. */
  predicate Answers(p: Atom, probe: Atom) {
    if IsGround(probe) then Match(p, probe).Some? && SameTokens(p, probe)
    else Match(p, probe).Some? || Match(probe, p).Some?
  }

  predicate Same<V(==)>(e: (Atom, V), p: Atom, v: V) {
    Tokens(e.0) == Tokens(p) && AtomEq(e.0, p) && e.1 == v
  }

  function Select<V>(es: seq<(Atom, V)>, probe: Atom): seq<(Atom, V)> {
    if es == [] then []
    else
      var before, last := Select(es[..|es| - 1], probe), es[|es| - 1];
      if Answers(last.0, probe) then before + [last] else before
  }

  /** The answers are the answering entries, each at its own place, in registration order. */
  lemma {:induction false} SelectExactly<V>(es: seq<(Atom, V)>, probe: Atom) returns (ks: seq<nat>)
    ensures PicksAt(es, ks, Select(es, probe))
    ensures forall k: nat :: k in ks <==> k < |es| && Answers(es[k].0, probe)
    decreases |es|
  {
    hide Answers, PicksAt;
    ks := [];
    if es == [] {
      NothingPicked(es);
    } else {
      var front, last := es[..|es| - 1], es[|es| - 1];
      assert es == front + [last];
      var before := SelectExactly(front, probe);
      PickLast(front, before, Select(front, probe), last);
      ks := if Answers(last.0, probe) then before + [|front|] else before;
    }
  }

  lemma NothingPicked<T>(whole: seq<T>)
    ensures PicksAt(whole, [], [])
  {
  }

  /** A probe with variables is answered by what is an instance of it and by what it is
      an instance of; a ground one by what it is an instance of along its tokens. */
  lemma AnswersExactly(p: Atom, probe: Atom)
    ensures !IsGround(probe) ==> (Answers(p, probe) <==> exists b :: Instance(p, probe, b) || Instance(probe, p, b))
    ensures IsGround(probe) ==> (Answers(p, probe) <==> SameTokens(p, probe) && exists b :: Instance(p, probe, b))
  {
    hide Match, SameTokens, Instance;
    MatchExact(p, probe);
    MatchExact(probe, p);
    if Match(p, probe).Some? { assert Instance(p, probe, Match(p, probe).value); }
    if Match(probe, p).Some? { assert Instance(probe, p, Match(probe, p).value); }
  }

  function Without<V(==)>(es: seq<(Atom, V)>, p: Atom, v: V): seq<(Atom, V)> {
    if es == [] then []
    else if Same(es[0], p, v) then es[1..]
    else [es[0]] + Without(es[1..], p, v)
  }

  predicate Registered<V(==)>(es: seq<(Atom, V)>, p: Atom, v: V) {
    exists i :: 0 <= i < |es| && Same(es[i], p, v)
  }

  lemma {:induction false} WithoutAbsent<V>(es: seq<(Atom, V)>, p: Atom, v: V)
    requires !Registered(es, p, v)
    ensures Without(es, p, v) == es
    decreases |es|
  {
    if es != [] {
      assert forall i | 0 <= i < |es| - 1 :: es[1..][i] == es[i + 1];
      WithoutAbsent(es[1..], p, v);
    }
  }

  /** A removal takes out the first fitting entry and nothing else. */
  lemma {:induction false} WithoutExactly<V>(es: seq<(Atom, V)>, p: Atom, v: V) returns (k: nat)
    requires Registered(es, p, v)
    ensures k < |es| && Same(es[k], p, v) && (forall j | 0 <= j < k :: !Same(es[j], p, v))
    ensures Without(es, p, v) == es[..k] + es[k + 1..]
    decreases |es|
  {
    hide Same;
    RegisteredFirst(es, p, v);
    if Same(es[0], p, v) {
      k := 0;
    } else {
      k := WithoutExactly(es[1..], p, v);
      assert es[..k + 1] == [es[0]] + es[1..][..k] && es[1..][k + 1..] == es[k + 2..];
      forall j | 0 <= j < k + 1 ensures !Same(es[j], p, v) { if j > 0 { assert es[j] == es[1..][j - 1]; } }
      k := k + 1;
    }
  }

  lemma RegisteredFirst<V>(es: seq<(Atom, V)>, p: Atom, v: V)
    requires es != []
    ensures Registered(es, p, v) <==> Same(es[0], p, v) || Registered(es[1..], p, v)
  {
    hide Same;
    assert forall i | 0 < i < |es| :: es[i] == es[1..][i - 1];
    if Registered(es[1..], p, v) {
      var i :| 0 <= i < |es[1..]| && Same(es[1..][i], p, v);
      assert Same(es[i + 1], p, v);
    }
  }

  lemma {:induction false} WithoutAppend<V>(es: seq<(Atom, V)>, e: (Atom, V), p: Atom, v: V)
    ensures Without(es + [e], p, v) ==
            if Registered(es, p, v) then Without(es, p, v) + [e]
            else if Same(e, p, v) then es else es + [e]
    decreases |es|
  {
    hide Same;
    if es == [] {
      assert es + [e] == [e];
    } else {
      assert (es + [e])[1..] == es[1..] + [e] && es == [es[0]] + es[1..];
      RegisteredFirst(es, p, v);
      hide Registered;
      WithoutAppend(es[1..], e, p, v);
      assert [es[0]] + (es[1..] + [e]) == es + [e];
    }
  }

  /** The entries numbered below `n`, in number order. */
  function Listed<V>(entries: map<nat, (Atom, V)>, n: nat): seq<(Atom, V)> {
    if n == 0 then []
    else if n - 1 in entries then Listed(entries, n - 1) + [entries[n - 1]]
    else Listed(entries, n - 1)
  }

  lemma {:induction false} ListedAgree<V>(m: map<nat, (Atom, V)>, k: map<nat, (Atom, V)>, n: nat)
    requires forall id | 0 <= id < n :: (id in m <==> id in k) && (id in m ==> m[id] == k[id])
    ensures Listed(m, n) == Listed(k, n)
    decreases n
  {
    if n > 0 { ListedAgree(m, k, n - 1); }
  }

  lemma ListedNext<V>(entries: map<nat, (Atom, V)>, n: nat, e: (Atom, V))
    ensures Listed(entries[n := e], n + 1) == Listed(entries, n) + [e]
  {
    ListedAgree(entries, entries[n := e], n);
  }

  lemma {:induction false} ListedAt<V>(entries: map<nat, (Atom, V)>, n: nat, p: Atom, v: V)
    ensures Registered(Listed(entries, n), p, v) <==>
              exists id :: id in entries && id < n && Same(entries[id], p, v)
    decreases n
  {
    if n > 0 {
      ListedAt(entries, n - 1, p, v);
      var before, now := Listed(entries, n - 1), Listed(entries, n);
      if Registered(before, p, v) {
        var i :| 0 <= i < |before| && Same(before[i], p, v);
        assert Same(now[i], p, v);
      }
      if n - 1 in entries && Same(entries[n - 1], p, v) {
        assert Same(now[|now| - 1], p, v);
      }
      if Registered(now, p, v) {
        var i :| 0 <= i < |now| && Same(now[i], p, v);
        if i < |before| { assert Same(before[i], p, v); }
      }
    }
  }

  /** Dropping the lowest number that fits is dropping the first entry that fits. */
  lemma {:induction false} ListedWithout<V>(entries: map<nat, (Atom, V)>, n: nat, id: nat, p: Atom, v: V)
    requires id in entries && Same(entries[id], p, v)
    requires forall k | k in entries && k < id :: !Same(entries[k], p, v)
    ensures Listed(entries - {id}, n) == if id < n then Without(Listed(entries, n), p, v) else Listed(entries, n)
    decreases n
  {
    hide Same, Registered;
    if n > 0 {
      ListedWithout(entries, n - 1, id, p, v);
      ListedAt(entries, n - 1, p, v);
      if n - 1 in entries {
        WithoutAppend(Listed(entries, n - 1), entries[n - 1], p, v);
      }
    }
  }

  // ------------------------------------------------------------- sorted numbers

  function Insert(id: nat, ids: seq<nat>): (r: seq<nat>)
    requires Ascending(ids) && id !in ids
    ensures Ascending(r) && (forall k :: k in r <==> k == id || k in ids)
  {
    if ids == [] || id < ids[0] then [id] + ids
    else
      var rest := Insert(id, ids[1..]);
      assert forall j | 0 <= j < |rest| :: rest[j] in rest;
      assert forall x | x in ids[1..] :: ids[0] < x;
      [ids[0]] + rest
  }

  /** Numbers in order, as the built-in sort leaves distinct numbers. */
  function Sorted(ids: seq<nat>): (r: seq<nat>)
    requires Distinct(ids)
    ensures Ascending(r) && (forall k :: k in r <==> k in ids)
  {
    if ids == [] then [] else
      var rest := Sorted(ids[1..]);
      assert ids[0] !in ids[1..];
      Insert(ids[0], rest)
  }

  lemma {:induction false} AscendingUnique(a: seq<nat>, b: seq<nat>)
    requires Ascending(a) && Ascending(b)
    requires forall k :: k in a <==> k in b
    ensures a == b
    decreases |a|
  {
    HeadIn(b);
    if a != [] {
      assert a[0] in b && b[0] in a;
      assert a[0] == b[0];
      forall k ensures k in a[1..] <==> k in b[1..] {
        if k in a[1..] { assert k in b && k != b[0]; }
        if k in b[1..] { assert k in a && k != a[0]; }
      }
      AscendingUnique(a[1..], b[1..]);
      assert a == [a[0]] + a[1..] && b == [b[0]] + b[1..];
    }
  }

  /** The numbers below `n` whose entry answers the probe, in order. */
  function Answering<V>(entries: map<nat, (Atom, V)>, n: nat, probe: Atom): seq<nat> {
    if n == 0 then []
    else if n - 1 in entries && Answers(entries[n - 1].0, probe) then Answering(entries, n - 1, probe) + [n - 1]
    else Answering(entries, n - 1, probe)
  }

  lemma {:induction false} AnsweringIs<V>(entries: map<nat, (Atom, V)>, n: nat, probe: Atom)
    ensures Ascending(Answering(entries, n, probe))
    ensures forall k :: k in Answering(entries, n, probe) <==>
                        k < n && k in entries && Answers(entries[k].0, probe)
    decreases n
  {
    hide Answers;
    if n > 0 {
      AnsweringIs(entries, n - 1, probe);
      var before := Answering(entries, n - 1, probe);
      assert forall i | 0 <= i < |before| :: before[i] in before;
    }
  }

  predicate AllIn<V>(ids: seq<nat>, entries: map<nat, (Atom, V)>) {
    forall k | k in ids :: k in entries
  }

  function Project<V>(entries: map<nat, (Atom, V)>, ids: seq<nat>): (r: seq<(Atom, V)>)
    requires AllIn(ids, entries)
    ensures |r| == |ids|
  {
    seq(|ids|, i requires 0 <= i < |ids| => assert ids[i] in ids; entries[ids[i]])
  }

  lemma {:induction false} AnsweringSelects<V>(entries: map<nat, (Atom, V)>, n: nat, probe: Atom)
    ensures AllIn(Answering(entries, n, probe), entries)
    ensures Project(entries, Answering(entries, n, probe)) == Select(Listed(entries, n), probe)
    decreases n
  {
    hide Answers;
    AnsweringIs(entries, n, probe);
    if n > 0 {
      AnsweringSelects(entries, n - 1, probe);
      var before, now := Answering(entries, n - 1, probe), Answering(entries, n, probe);
      var listed := Listed(entries, n);
      if n - 1 in entries {
        assert listed[..|listed| - 1] == Listed(entries, n - 1);
        if now != before {
          assert Project(entries, now) == Project(entries, before) + [entries[n - 1]];
        }
      } else {
        assert now == before && listed == Listed(entries, n - 1);
      }
    }
  }

  function Confirmed<V>(entries: map<nat, (Atom, V)>, ids: seq<nat>, probe: Atom): (r: seq<nat>)
    requires AllIn(ids, entries)
    ensures forall k :: k in r <==> k in ids && Match(entries[k].0, probe).Some?
  {
    if ids == [] then []
    else if Match(entries[ids[0]].0, probe).Some? then [ids[0]] + Confirmed(entries, ids[1..], probe)
    else Confirmed(entries, ids[1..], probe)
  }

  lemma AllInJoin<V>(a: seq<nat>, b: seq<nat>, entries: map<nat, (Atom, V)>)
    ensures AllIn(a + b, entries) <==> AllIn(a, entries) && AllIn(b, entries)
  {
    if AllIn(a + b, entries) {
      forall k | k in a ensures k in entries { assert k in a + b; }
      forall k | k in b ensures k in entries { assert k in a + b; }
    }
  }

  lemma {:induction false} ConfirmedJoin<V>(entries: map<nat, (Atom, V)>, a: seq<nat>, b: seq<nat>, probe: Atom)
    requires AllIn(a, entries) && AllIn(b, entries)
    ensures AllIn(a + b, entries)
    ensures Confirmed(entries, a + b, probe) == Confirmed(entries, a, probe) + Confirmed(entries, b, probe)
    decreases |a|
  {
    hide Match, AllIn;
    AllInJoin(a, b, entries);
    if a == [] {
      assert a + b == b;
    } else {
      assert a == [a[0]] + a[1..];
      AllInJoin([a[0]], a[1..], entries);
      assert (a + b)[1..] == a[1..] + b;
      ConfirmedJoin(entries, a[1..], b, probe);
    }
  }

  lemma {:induction false} ConfirmedDistinct<V>(entries: map<nat, (Atom, V)>, ids: seq<nat>, probe: Atom)
    requires AllIn(ids, entries)
    requires Distinct(ids)
    ensures Distinct(Confirmed(entries, ids, probe))
    decreases |ids|
  {
    if ids != [] {
      assert ids[0] !in ids[1..];
      ConfirmedDistinct(entries, ids[1..], probe);
    }
  }

  // ----------------------------------------------------------------- the index

  /** Every entry stands under its own path. */
  predicate Placed<V>(root: Trie, entries: map<nat, (Atom, V)>, next: nat) {
    forall id | id in entries :: id < next && id in LeavesAt(root, Tokens(entries[id].0))
  }

  /** Every number under a path is an entry with that path. */
  ghost predicate Backed<V>(root: Trie, entries: map<nat, (Atom, V)>) {
    forall path, id | id in LeavesAt(root, path) :: id in entries && Tokens(entries[id].0) == path
  }

  ghost predicate InOrder(root: Trie) {
    forall path :: Ascending(LeavesAt(root, path))
  }

  ghost predicate Consistent<V>(root: Trie, entries: map<nat, (Atom, V)>, next: nat) {
    Placed(root, entries, next) && Backed(root, entries) && InOrder(root)
  }

  lemma ConsistentOnePath<V>(root: Trie, entries: map<nat, (Atom, V)>, next: nat)
    requires Consistent(root, entries, next)
    ensures OnePath(root)
  {
    forall path, other, id | id in LeavesAt(root, path) && id in LeavesAt(root, other)
      ensures path == other
    {
      assert Tokens(entries[id].0) == path;
    }
    forall path ensures Distinct(LeavesAt(root, path)) { assert Ascending(LeavesAt(root, path)); }
  }

  lemma {:induction false} GroundNoStar(a: Atom)
    requires IsGround(a)
    ensures NoStar(Tokens(a))
    decreases a, 1
  {
    if a.Expression? { GroundNoStarAll(a.children); }
  }

  lemma {:induction false} GroundNoStarAll(xs: seq<Atom>)
    requires forall i | 0 <= i < |xs| :: IsGround(xs[i])
    ensures NoStar(TokensAll(xs))
    decreases xs, 0
  {
    if xs != [] {
      GroundNoStar(xs[0]);
      GroundNoStarAll(xs[1..]);
    }
  }

  /** The retrieval reads exactly the numbers whose pattern shares the probe's tokens. */
  lemma WalkExact<V>(root: Trie, entries: map<nat, (Atom, V)>, next: nat, probe: Atom)
    requires Consistent(root, entries, next) && IsGround(probe)
    ensures Distinct(Walk(root, Tokens(probe), 0))
    ensures forall id :: id in Walk(root, Tokens(probe), 0) <==>
                         id in entries && SameTokens(entries[id].0, probe)
  {
    var ts := Tokens(probe);
    ConsistentOnePath(root, entries, next);
    GroundNoStar(probe);
    WalkDistinct(root, ts, 0);
    forall id
      ensures id in Walk(root, ts, 0) <==> id in entries && SameTokens(entries[id].0, probe)
    {
      if id in Walk(root, ts, 0) {
        var path := WalkSound(root, ts, 0, id);
        assert id in entries && Tokens(entries[id].0) == path;
        CoversExactly(entries[id].0, probe);
      }
      if id in entries && SameTokens(entries[id].0, probe) {
        CoversExactly(entries[id].0, probe);
        WalkComplete(root, ts, 0, Tokens(entries[id].0), id);
      }
    }
  }

  /** Confirming and sorting what was read gives the answering numbers in order. */
  lemma ReadIsAnswering<V>(root: Trie, entries: map<nat, (Atom, V)>, next: nat, probe: Atom)
    requires Consistent(root, entries, next) && IsGround(probe)
    ensures var read := Walk(root, Tokens(probe), 0);
            && AllIn(read, entries)
            && Distinct(Confirmed(entries, read, probe))
            && Sorted(Confirmed(entries, read, probe)) == Answering(entries, next, probe)
  {
    WalkExact(root, entries, next, probe);
    var read := Walk(root, Tokens(probe), 0);
    ConfirmedDistinct(entries, read, probe);
    AnsweringIs(entries, next, probe);
    AscendingUnique(Sorted(Confirmed(entries, read, probe)), Answering(entries, next, probe));
  }

  /** The leaves under every path after those under one path are replaced. */
  lemma LeavesAfter(root: Trie, path: seq<Token>, leaves: seq<nat>)
    ensures forall other :: LeavesAt(SetLeaves(root, path, leaves), other)
                            == (if other == path then leaves else LeavesAt(root, other))
  {
    forall other
      ensures LeavesAt(SetLeaves(root, path, leaves), other) == (if other == path then leaves else LeavesAt(root, other))
    {
      LeavesAtSet(root, path, leaves, other);
    }
  }

  lemma InOrderAfter(root: Trie, path: seq<Token>, leaves: seq<nat>)
    requires InOrder(root) && Ascending(leaves)
    ensures InOrder(SetLeaves(root, path, leaves))
  {
    hide LeavesAt, SetLeaves, Ascending;
    LeavesAfter(root, path, leaves);
    forall other ensures Ascending(LeavesAt(SetLeaves(root, path, leaves), other)) {
      assert Ascending(LeavesAt(root, other));
    }
  }

  lemma NextLast<V>(root: Trie, entries: map<nat, (Atom, V)>, next: nat, path: seq<Token>)
    requires Consistent(root, entries, next)
    ensures next !in entries
    ensures Ascending(LeavesAt(root, path) + [next])
    ensures forall x :: x in LeavesAt(root, path) + [next] <==> x in LeavesAt(root, path) || x == next
  {
    hide LeavesAt, Tokens;
    var leaves := LeavesAt(root, path);
    forall i | 0 <= i < |leaves| ensures leaves[i] < next {
      assert leaves[i] in leaves;
      assert leaves[i] in entries;
    }
    assert Ascending(leaves);
  }

  lemma AddedConsistent<V>(root: Trie, entries: map<nat, (Atom, V)>, next: nat, p: Atom, v: V)
    requires Consistent(root, entries, next)
    ensures next !in entries
    ensures var path := Tokens(p);
            Consistent(SetLeaves(root, path, LeavesAt(root, path) + [next]), entries[next := (p, v)], next + 1)
  {
    hide LeavesAt, SetLeaves, Tokens, Ascending;
    var path := Tokens(p);
    var leaves := LeavesAt(root, path) + [next];
    var root' := SetLeaves(root, path, leaves);
    var entries' := entries[next := (p, v)];
    NextLast(root, entries, next, path);
    LeavesAfter(root, path, leaves);
    InOrderAfter(root, path, leaves);
    forall id | id in entries' ensures id < next + 1 && id in LeavesAt(root', Tokens(entries'[id].0)) {
      if id != next { assert id in LeavesAt(root, Tokens(entries[id].0)); }
    }
    forall other, id | id in LeavesAt(root', other)
      ensures id in entries' && Tokens(entries'[id].0) == other
    {
      assert other != path ==> id in LeavesAt(root, other);
      assert other == path ==> id == next || id in LeavesAt(root, path);
    }
  }

  lemma LeafDropped(leaves: seq<nat>, k: nat)
    requires k < |leaves| && Ascending(leaves)
    ensures var kept := leaves[..k] + leaves[k + 1..];
            Ascending(kept) && forall x :: x in kept <==> x in leaves && x != leaves[k]
  {
    var kept := leaves[..k] + leaves[k + 1..];
    forall x | x in leaves && x != leaves[k] ensures x in kept {
      var i :| 0 <= i < |leaves| && leaves[i] == x;
      assert x == if i < k then kept[i] else kept[i - 1];
    }
  }

  lemma RemovedConsistent<V>(root: Trie, entries: map<nat, (Atom, V)>, next: nat, path: seq<Token>, k: nat)
    requires Consistent(root, entries, next)
    requires k < |LeavesAt(root, path)|
    ensures var leaves := LeavesAt(root, path);
            && leaves[k] in entries
            && Consistent(SetLeaves(root, path, leaves[..k] + leaves[k + 1..]), entries - {leaves[k]}, next)
  {
    var leaves := LeavesAt(root, path);
    assert leaves[k] in leaves && Ascending(leaves);
    LeafDropped(leaves, k);
    KeptConsistent(root, entries, next, path, leaves[k], leaves[..k] + leaves[k + 1..]);
  }

  lemma KeptConsistent<V>(root: Trie, entries: map<nat, (Atom, V)>, next: nat, path: seq<Token>,
                          id: nat, kept: seq<nat>)
    requires Consistent(root, entries, next) && id in LeavesAt(root, path) && Ascending(kept)
    requires forall x :: x in kept <==> x in LeavesAt(root, path) && x != id
    ensures id in entries && Consistent(SetLeaves(root, path, kept), entries - {id}, next)
  {
    hide LeavesAt, SetLeaves, Tokens, Ascending;
    assert Tokens(entries[id].0) == path;
    var root' := SetLeaves(root, path, kept);
    LeavesAfter(root, path, kept);
    InOrderAfter(root, path, kept);
    forall x | x in entries - {id} ensures x < next && x in LeavesAt(root', Tokens(entries[x].0)) {
      assert x in entries && x in LeavesAt(root, Tokens(entries[x].0));
    }
    forall other, x | x in LeavesAt(root', other)
      ensures x in entries - {id} && Tokens(entries[x].0) == other
    {
      assert x in LeavesAt(root, other);
    }
  }

  /** A registration that fits stands among the leaves under its path. */
  lemma FitsAmong<V>(root: Trie, entries: map<nat, (Atom, V)>, next: nat, p: Atom, v: V)
    requires Consistent(root, entries, next)
    ensures forall id | id in entries && Same(entries[id], p, v) :: id in LeavesAt(root, Tokens(p))
    ensures forall id | id in LeavesAt(root, Tokens(p)) ::
              id in entries && id < next && (Same(entries[id], p, v) <==> AtomEq(entries[id].0, p) && entries[id].1 == v)
  {
  }

  /** The first leaf that fits is the lowest number that fits. */
  lemma FirstIsLowest<V>(root: Trie, entries: map<nat, (Atom, V)>, next: nat, p: Atom, v: V, k: nat)
    requires Consistent(root, entries, next)
    requires var leaves := LeavesAt(root, Tokens(p));
             && k < |leaves| && (forall j | 0 <= j <= k :: leaves[j] in entries)
             && forall j | 0 <= j < k :: !Same(entries[leaves[j]], p, v)
    ensures forall low | low in entries && low < LeavesAt(root, Tokens(p))[k] :: !Same(entries[low], p, v)
  {
    FitsAmong(root, entries, next, p, v);
    var leaves := LeavesAt(root, Tokens(p));
    assert Ascending(leaves);
    forall low | low in entries && low < leaves[k] ensures !Same(entries[low], p, v) {
      if low in leaves {
        var j :| 0 <= j < |leaves| && leaves[j] == low;
        assert j < k;
      }
    }
  }

  function ExactEdge(node: Trie, token: Token, i: nat): seq<(Trie, nat)> {
    if token in node.edges then [(node.edges[token], i)] else []
  }

  /** The stack after a node's two edges replace it. */
  function WithEdges(below: seq<(Trie, nat)>, node: Trie, i: nat, ts: seq<Token>): seq<(Trie, nat)>
    requires i < |ts|
  {
    below + ExactEdge(node, ts[i], i + 1) + ExactEdge(node, Star, End(ts, i))
  }

  lemma PushedNode(below: seq<(Trie, nat)>, node: Trie, i: nat, ts: seq<Token>)
    requires InRange(below, |ts|) && i <= |ts|
    ensures InRange(below + [(node, i)], |ts|)
    ensures ToRead(below + [(node, i)], ts) == Walk(node, ts, i) + ToRead(below, ts)
    ensures StackFuel(below + [(node, i)], |ts|) == Fuel(|ts| - i) + StackFuel(below, |ts|)
  {
    hide Walk, Fuel;
    var stack := below + [(node, i)];
    assert stack[..|stack| - 1] == below;
  }

  lemma PushedOne(below: seq<(Trie, nat)>, node: Trie, token: Token, i: nat, ts: seq<Token>)
    requires InRange(below, |ts|) && i <= |ts|
    ensures var stack := below + ExactEdge(node, token, i);
            && InRange(stack, |ts|)
            && ToRead(stack, ts) == (if token in node.edges then Walk(node.edges[token], ts, i) else []) + ToRead(below, ts)
            && StackFuel(stack, |ts|) <= Fuel(|ts| - i) + StackFuel(below, |ts|)
  {
    hide Walk, Fuel, ToRead, StackFuel, InRange;
    if token in node.edges {
      PushedNode(below, node.edges[token], i, ts);
    } else {
      assert below + ExactEdge(node, token, i) == below;
      assert [] + ToRead(below, ts) == ToRead(below, ts);
    }
  }

  /** Pushing a node's two edges leaves the same numbers to read, with less fuel. */
  lemma PushedBoth(node: Trie, i: nat, below: seq<(Trie, nat)>, ts: seq<Token>)
    requires i < |ts| && InRange(below, |ts|)
    ensures var stack := WithEdges(below, node, i, ts);
            && InRange(stack, |ts|)
            && ToRead(stack, ts) == Walk(node, ts, i) + ToRead(below, ts)
            && StackFuel(stack, |ts|) < Fuel(|ts| - i) + StackFuel(below, |ts|)
  {
    hide ExactEdge, ToRead, StackFuel, InRange;
    PushedOne(below, node, ts[i], i + 1, ts);
    PushedOne(below + ExactEdge(node, ts[i], i + 1), node, Star, End(ts, i), ts);
    FuelGrows(|ts| - End(ts, i), |ts| - i - 1);
  }

  class MatchIndex<V(==)> {
    var root: Trie
    var entries: map<nat, (Atom, V)>
    var next: nat
    var size: nat

    ghost predicate Valid()
      reads this
    {
      Consistent(root, entries, next) && size == |entries|
    }

    /** The registrations, oldest first. */
    function Entries(): seq<(Atom, V)>
      reads this
    {
      Listed(entries, next)
    }

    constructor ()
      ensures Valid() && Entries() == []
    {
      root, entries, next, size := EMPTY, map[], 0, 0;
      new;
      forall path ensures LeavesAt(EMPTY, path) == [] {}
    }

    method Add(p: Atom, v: V)
      requires Valid()
      modifies this
      ensures Valid() && Entries() == old(Entries()) + [(p, v)]
    {
      AddedConsistent(root, entries, next, p, v);
      hide Consistent, SetLeaves, LeavesAt, Tokens, Listed;
      ListedNext(entries, next, (p, v));
      var path := Flatten(p);
      root := SetLeaves(root, path, LeavesAt(root, path) + [next]);
      entries := entries[next := (p, v)];
      next, size := next + 1, size + 1;
    }

    /** Withdraws the oldest registration of this very pattern and value, if any. */
    method Remove(p: Atom, v: V) returns (removed: bool)
      requires Valid()
      modifies this
      ensures Valid()
      ensures removed <==> Registered(old(Entries()), p, v)
      ensures Entries() == Without(old(Entries()), p, v)
    {
      hide Consistent, SetLeaves, LeavesAt, Tokens, Listed, Without, Registered;
      ListedAt(entries, next, p, v);
      FitsAmong(root, entries, next, p, v);
      var path := Flatten(p);
      var leaves := LeavesAt(root, path);
      assert forall j | 0 <= j < |leaves| :: leaves[j] in leaves;
      var k := 0;
      while k < |leaves|
        invariant k <= |leaves|
        invariant forall j | 0 <= j < k :: !Same(entries[leaves[j]], p, v)
      {
        var (stored, value) := entries[leaves[k]];
        if AtomEq(stored, p) && value == v {
          FirstIsLowest(root, entries, next, p, v, k);
          assert Same(entries[leaves[k]], p, v);
          ListedWithout(entries, next, leaves[k], p, v);
          RemovedConsistent(root, entries, next, path, k);
          root := SetLeaves(root, path, leaves[..k] + leaves[k + 1..]);
          entries := entries - {leaves[k]};
          size := size - 1;
          return true;
        }
        k := k + 1;
      }
      WithoutAbsent(Entries(), p, v);
      return false;
    }

    /** The retrieval, confirmed by the matcher and put in registration order. */
    method Matches(probe: Atom) returns (r: seq<(Atom, V)>)
      requires Valid()
      ensures r == Select(Entries(), probe)
    {
      hide Answers, Match, Walk, Consistent, StackFuel, Tokens, Reading, Confirmed, Select, SameTokens, Listed;
      if !IsGround(probe) {
        r := Sweep(probe);
        return;
      }
      AnsweringSelects(entries, next, probe);
      ReadIsAnswering(root, entries, next, probe);
      var ts := Flatten(probe);
      var skips := SkipTable(ts);
      var found: seq<nat> := [];
      var stack: seq<(Trie, nat)> := [(root, 0)];
      ghost var read := Walk(root, ts, 0);
      ReadOne(entries, root, ts, probe);
      while stack != []
        invariant InRange(stack, |ts|) && Reading(entries, found, stack, ts, probe, read)
        decreases StackFuel(stack, |ts|)
      {
        var (node, i) := stack[|stack| - 1];
        var below := stack[..|stack| - 1];
        ReadTop(entries, found, stack, ts, probe, read);
        if i == |ts| {
          var confirmed := Confirm(node.leaves, probe);
          ReadLeaves(entries, found, stack, ts, probe, read);
          found := found + confirmed;
          stack := below;
        } else {
          ReadEdges(entries, found, stack, ts, probe, read);
          stack := below + ExactEdge(node, ts[i], i + 1) + ExactEdge(node, Star, skips[i]);
          assert stack == WithEdges(below, node, i, ts);
        }
      }
      ReadNone(entries, found, ts, probe, read);
      return Project(entries, Sorted(found));
    }

    /** The brute-force answer to a probe with variables, in registration order. */
    method Sweep(probe: Atom) returns (r: seq<(Atom, V)>)
      requires Valid()
      ensures r == Select(Entries(), probe)
    {
      hide Answers;
      r := [];
      for id := 0 to next
        invariant r == Select(Listed(entries, id), probe)
      {
        if id in entries {
          ghost var listed := Listed(entries, id);
          assert (listed + [entries[id]])[..|listed|] == listed;
          if Answers(entries[id].0, probe) { r := r + [entries[id]]; }
        }
      }
    }

    /** The numbers at a finished leaf whose pattern the matcher confirms. */
    method Confirm(ids: seq<nat>, probe: Atom) returns (found: seq<nat>)
      requires AllIn(ids, entries)
      ensures found == Confirmed(entries, ids, probe)
    {
      hide Match;
      found := [];
      var k := 0;
      while k < |ids|
        invariant k <= |ids|
        invariant AllIn(ids[..k], entries)
        invariant found == Confirmed(entries, ids[..k], probe)
      {
        assert ids[k] in ids;
        assert ids[..k + 1] == ids[..k] + [ids[k]];
        ConfirmedJoin(entries, ids[..k], [ids[k]], probe);
        if Match(entries[ids[k]].0, probe).Some? { found := found + [ids[k]]; }
        k := k + 1;
      }
      assert ids[..k] == ids;
    }
  }

  /** What was confirmed, with what is still to be read, makes up the whole answer. */
  ghost predicate Reading<V>(entries: map<nat, (Atom, V)>, found: seq<nat>, stack: seq<(Trie, nat)>,
                             ts: seq<Token>, probe: Atom, read: seq<nat>) {
    && InRange(stack, |ts|) && AllIn(ToRead(stack, ts), entries) && AllIn(read, entries)
    && found + Confirmed(entries, ToRead(stack, ts), probe) == Confirmed(entries, read, probe)
  }

  lemma ReadOne<V>(entries: map<nat, (Atom, V)>, root: Trie, ts: seq<Token>, probe: Atom)
    requires AllIn(Walk(root, ts, 0), entries)
    ensures Reading(entries, [], [(root, 0)], ts, probe, Walk(root, ts, 0))
  {
    hide Walk, Confirmed;
    PushedNode([], root, 0, ts);
    var stack: seq<(Trie, nat)> := [(root, 0)];
    assert [] + stack == stack;
    assert Walk(root, ts, 0) + [] == Walk(root, ts, 0);
  }

  lemma ReadNone<V>(entries: map<nat, (Atom, V)>, found: seq<nat>, ts: seq<Token>, probe: Atom, read: seq<nat>)
    requires Reading(entries, found, [], ts, probe, read)
    ensures AllIn(read, entries) && found == Confirmed(entries, read, probe)
  {
  }

  lemma ReadTop<V>(entries: map<nat, (Atom, V)>, found: seq<nat>, stack: seq<(Trie, nat)>, ts: seq<Token>,
                   probe: Atom, read: seq<nat>)
    requires Reading(entries, found, stack, ts, probe, read) && stack != []
    ensures InRange(stack, |ts|) && InRange(stack[..|stack| - 1], |ts|)
    ensures var (node, i) := stack[|stack| - 1];
            && i <= |ts|
            && ToRead(stack, ts) == Walk(node, ts, i) + ToRead(stack[..|stack| - 1], ts)
            && AllIn(Walk(node, ts, i), entries) && AllIn(ToRead(stack[..|stack| - 1], ts), entries)
            && (i == |ts| ==> AllIn(node.leaves, entries))
            && StackFuel(stack, |ts|) == Fuel(|ts| - i) + StackFuel(stack[..|stack| - 1], |ts|)
  {
    var (node, i) := stack[|stack| - 1];
    AllInJoin(Walk(node, ts, i), ToRead(stack[..|stack| - 1], ts), entries);
  }

  lemma ReadLeaves<V>(entries: map<nat, (Atom, V)>, found: seq<nat>, stack: seq<(Trie, nat)>, ts: seq<Token>,
                      probe: Atom, read: seq<nat>)
    requires Reading(entries, found, stack, ts, probe, read) && stack != []
    requires stack[|stack| - 1].1 == |ts| && AllIn(stack[|stack| - 1].0.leaves, entries)
    ensures var below := stack[..|stack| - 1];
            && Reading(entries, found + Confirmed(entries, stack[|stack| - 1].0.leaves, probe), below, ts, probe, read)
            && StackFuel(below, |ts|) < StackFuel(stack, |ts|)
  {
    hide Confirmed, ToRead, StackFuel;
    ReadTop(entries, found, stack, ts, probe, read);
    var (node, i) := stack[|stack| - 1];
    var below := stack[..|stack| - 1];
    ConfirmedJoin(entries, node.leaves, ToRead(below, ts), probe);
    assert Fuel(0) == 1;
  }

  lemma ReadEdges<V>(entries: map<nat, (Atom, V)>, found: seq<nat>, stack: seq<(Trie, nat)>, ts: seq<Token>,
                     probe: Atom, read: seq<nat>)
    requires Reading(entries, found, stack, ts, probe, read) && stack != []
    requires stack[|stack| - 1].1 < |ts|
    ensures var stack' := WithEdges(stack[..|stack| - 1], stack[|stack| - 1].0, stack[|stack| - 1].1, ts);
            && Reading(entries, found, stack', ts, probe, read)
            && StackFuel(stack', |ts|) < StackFuel(stack, |ts|)
  {
    hide Confirmed, ToRead, StackFuel, Walk, WithEdges, AllIn, InRange;
    ReadTop(entries, found, stack, ts, probe, read);
    PushedBoth(stack[|stack| - 1].0, stack[|stack| - 1].1, stack[..|stack| - 1], ts);
  }

  // ----------------------------------------------------- the index and the scan

  /** The scan the index stands for: every registered pattern that matches. */
  function Scan<V>(es: seq<(Atom, V)>, probe: Atom): seq<(Atom, V)> {
    if es == [] then []
    else
      var before, last := Scan(es[..|es| - 1], probe), es[|es| - 1];
      if Match(last.0, probe).Some? then before + [last] else before
  }

  /** On a ground probe the index answers exactly the scan when no registered pattern
      and the probe hold a space handle or both hold a not-a-number. */
  lemma {:induction false} IndexIsScan<V>(es: seq<(Atom, V)>, probe: Atom)
    requires IsGround(probe)
    requires forall i | 0 <= i < |es| :: Comparable(es[i].0, probe)
    ensures Select(es, probe) == Scan(es, probe)
    decreases |es|
  {
    if es != [] {
      IndexIsScan(es[..|es| - 1], probe);
      var p := es[|es| - 1].0;
      MatchExact(p, probe);
      if Match(p, probe).Some? { InstanceSharesTokens(p, probe, Match(p, probe).value); }
    }
  }

  /** On a ground probe the index and the scan agree exactly when every registered
      pattern that matches has the probe's tokens outside its variables. */
  lemma {:induction false} IndexIsScanExactly<V>(es: seq<(Atom, V)>, probe: Atom)
    requires IsGround(probe)
    ensures |Select(es, probe)| <= |Scan(es, probe)|
    ensures Select(es, probe) == Scan(es, probe) <==>
              forall i | 0 <= i < |es| && Match(es[i].0, probe).Some? :: SameTokens(es[i].0, probe)
    decreases |es|
  {
    hide Match, SameTokens;
    if es != [] {
      var front, last := es[..|es| - 1], es[|es| - 1];
      IndexIsScanExactly(front, probe);
      assert forall i | 0 <= i < |es| - 1 :: front[i] == es[i];
      if Match(last.0, probe).Some? {
        var a, b := Select(front, probe), Scan(front, probe);
        if SameTokens(last.0, probe) {
          if a + [last] == b + [last] { assert a == (a + [last])[..|a|] == b; }
        } else {
          assert |Select(es, probe)| == |a| < |Scan(es, probe)|;
        }
      }
    }
  }

  /** Two not-a-number objects are one atom and two tokens, so the scan answers a
      pattern that the index misses. A space handle and its symbol part the same way. */
  lemma IndexMissesEqualAtoms()
    ensures Misses(Grounded(NaN(0)), Grounded(NaN(1)), 7)
    ensures Misses(Symbol("&kb"), SpaceRef("&kb"), 7)
  {
    hide Misses;
    MissesOne(Grounded(NaN(0)), Grounded(NaN(1)), 7);
    MissesOne(Symbol("&kb"), SpaceRef("&kb"), 7);
  }

  /** The only registration is in the scan for this probe and not in the index. */
  predicate Misses(p: Atom, q: Atom, v: nat) {
    IsGround(q) && Scan([(p, v)], q) == [(p, v)] && Select([(p, v)], q) == []
  }

  lemma MissesOne(p: Atom, q: Atom, v: nat)
    requires !p.Variable? && !p.Expression? && IsGround(q) && AtomEq(p, q) && !SameTokens(p, q)
    ensures Misses(p, q, v)
  {
    assert Instance(p, q, map[]);
    MatchExact(p, q);
    assert [(p, v)][..0] == [];
    assert Scan([(p, v)][..0], q) == [] && Select([(p, v)][..0], q) == [];
  }
}
