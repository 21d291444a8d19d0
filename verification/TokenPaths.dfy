/** Token paths of atoms, and how a path with variable edges covers a ground atom. */
module TokenPaths {
  import opened Sequences
  import opened Atoms
  import opened Matching

  /** One preorder token. A variable is one skip token whatever it would bind; equal
      numbers share a token whatever their type; a not-a-number object and a space
      handle are their own tokens. */
  datatype Token =
    | Star
    | Open(width: nat)
    | Sym(name: string)
    | Number(value: real)
    | NotANumber(object: nat)
    | Val(payload: Payload)
    | Handle(name: string)

  function LeafToken(a: Atom): Token
    requires !a.Expression?
  {
    match a
    case Variable(_) => Star
    case Symbol(n) => Sym(n)
    case SpaceRef(n) => Handle(n)
    case Grounded(p) =>
      (match p
       case IntVal(i) => Number(i as real)
       case FloatVal(x, _) => Number(x)
       case NaN(o) => NotANumber(o)
       case _ => Val(p))
  }

  function Tokens(a: Atom): (ts: seq<Token>)
    ensures |ts| > 0
    decreases a, 1
  {
    if a.Expression? then [Open(|a.children|)] + TokensAll(a.children) else [LeafToken(a)]
  }

  function TokensAll(xs: seq<Atom>): seq<Token>
    decreases xs, 0
  {
    if xs == [] then [] else Tokens(xs[0]) + TokensAll(xs[1..])
  }

  /** The tokens still to come from a stack of atoms, the next atom last. */
  function Pending(stack: seq<Atom>): seq<Token> {
    if stack == [] then [] else Tokens(stack[|stack| - 1]) + Pending(stack[..|stack| - 1])
  }

  lemma {:induction false} PendingReversed(below: seq<Atom>, xs: seq<Atom>)
    ensures Pending(below + Reversed(xs)) == TokensAll(xs) + Pending(below)
    decreases |xs|
  {
    hide Tokens;
    if xs == [] {
      assert below + Reversed(xs) == below;
    } else {
      assert below + Reversed(xs) == below + Reversed(xs[1..]) + [xs[0]];
      PendingTop(below + Reversed(xs[1..]), xs[0]);
      PendingReversed(below, xs[1..]);
      assert Tokens(xs[0]) + (TokensAll(xs[1..]) + Pending(below)) == TokensAll(xs) + Pending(below);
    }
  }

  lemma PendingTop(below: seq<Atom>, a: Atom)
    ensures Pending(below + [a]) == Tokens(a) + Pending(below)
    ensures StackSize(below + [a]) == Size(a) + StackSize(below)
  {
    hide Tokens, Size;
    assert (below + [a])[..|below|] == below;
  }

  function StackSize(stack: seq<Atom>): nat {
    if stack == [] then 0 else Size(stack[|stack| - 1]) + StackSize(stack[..|stack| - 1])
  }

  lemma {:induction false} StackSizeReversed(below: seq<Atom>, xs: seq<Atom>)
    ensures StackSize(below + Reversed(xs)) == SizeAll(xs) + StackSize(below)
    decreases |xs|
  {
    hide Size;
    if xs == [] {
      assert below + Reversed(xs) == below;
    } else {
      assert below + Reversed(xs) == below + Reversed(xs[1..]) + [xs[0]];
      PendingTop(below + Reversed(xs[1..]), xs[0]);
      StackSizeReversed(below, xs[1..]);
    }
  }

  /** Flattening with an explicit stack. */
  method Flatten(a: Atom) returns (out: seq<Token>)
    ensures out == Tokens(a)
  {
    out := [];
    var stack := [a];
    PendingTop([], a);
    assert [] + [a] == [a];
    while stack != []
      invariant out + Pending(stack) == Tokens(a)
      decreases StackSize(stack)
    {
      var node, below := stack[|stack| - 1], stack[..|stack| - 1];
      ghost var before := out;
      assert Pending(stack) == Tokens(node) + Pending(below);
      if node.Expression? {
        PendingReversed(below, node.children);
        StackSizeReversed(below, node.children);
        out, stack := out + [Open(|node.children|)], below + Reversed(node.children);
        assert out + Pending(stack) == before + (Tokens(node) + Pending(below));
      } else {
        out, stack := out + [LeafToken(node)], below;
        assert out + Pending(stack) == before + (Tokens(node) + Pending(below));
      }
    }
  }

  // --------------------------------------------------------------- skip table

  /** The position past the subterm that starts at `i`. */
  function End(ts: seq<Token>, i: nat): (e: nat)
    requires i < |ts|
    ensures i < e <= |ts|
    decreases |ts| - i, 0, 0
  {
    if ts[i].Open? then EndMany(ts, i + 1, ts[i].width) else i + 1
  }

  function EndMany(ts: seq<Token>, i: nat, n: nat): (e: nat)
    requires i <= |ts|
    ensures i <= e <= |ts|
    decreases |ts| - i, 1, n
  {
    if n == 0 || i == |ts| then i else EndMany(ts, End(ts, i), n - 1)
  }

  /** The tokens of `a` stand at position `i` of `ts`. */
  predicate StandsAt(ts: seq<Token>, i: nat, part: seq<Token>) {
    i + |part| <= |ts| && ts[i..i + |part|] == part
  }

  lemma StandsSplit(ts: seq<Token>, i: nat, a: seq<Token>, b: seq<Token>)
    requires StandsAt(ts, i, a + b)
    ensures StandsAt(ts, i, a) && StandsAt(ts, i + |a|, b)
  {
    assert (a + b)[..|a|] == a && (a + b)[|a|..] == b;
  }

  lemma {:induction false} EndOfAtom(ts: seq<Token>, i: nat, a: Atom)
    requires StandsAt(ts, i, Tokens(a))
    ensures i < |ts| && End(ts, i) == i + |Tokens(a)|
    decreases a, 1
  {
    assert ts[i] == Tokens(a)[0];
    if a.Expression? {
      StandsSplit(ts, i, [Open(|a.children|)], TokensAll(a.children));
      EndOfAll(ts, i + 1, a.children);
    }
  }

  lemma {:induction false} EndOfAll(ts: seq<Token>, i: nat, xs: seq<Atom>)
    requires StandsAt(ts, i, TokensAll(xs))
    ensures EndMany(ts, i, |xs|) == i + |TokensAll(xs)|
    decreases xs, 0
  {
    if xs != [] {
      StandsSplit(ts, i, Tokens(xs[0]), TokensAll(xs[1..]));
      EndOfAtom(ts, i, xs[0]);
      EndOfAll(ts, i + |Tokens(xs[0])|, xs[1..]);
    }
  }

  /** Filled from the last position down; each landing hops over finished subterms. */
  method SkipTable(ts: seq<Token>) returns (skips: seq<nat>)
    ensures |skips| == |ts|
    ensures forall i | 0 <= i < |ts| :: skips[i] == End(ts, i)
  {
    skips := seq(|ts|, _ => 0);
    var position := |ts|;
    while position > 0
      invariant 0 <= position <= |ts| == |skips|
      invariant forall i | position <= i < |ts| :: skips[i] == End(ts, i)
    {
      position := position - 1;
      var token := ts[position];
      if token.Open? {
        var landing := position + 1;
        var left := token.width;
        while left > 0 && landing < |ts|
          invariant 0 <= left && position < landing <= |ts|
          invariant EndMany(ts, landing, left) == End(ts, position)
          decreases left
        {
          landing, left := skips[landing], left - 1;
        }
        skips := skips[position := landing];
      } else {
        skips := skips[position := position + 1];
      }
    }
  }

  // ----------------------------------------------------------------- coverage

  /** The path leads from position `i` of the probe exactly to its end, following
      equal tokens and hopping over a subterm at each variable edge. */
  predicate Reaches(path: seq<Token>, ts: seq<Token>, i: nat)
    requires i <= |ts|
    decreases |path|
  {
    if path == [] then i == |ts|
    else
      i < |ts| &&
      ((path[0].Star? && Reaches(path[1..], ts, End(ts, i))) ||
       (path[0] == ts[i] && Reaches(path[1..], ts, i + 1)))
  }

  /** Outside the pattern's variables the two atoms have the same tokens. */
  predicate SameTokens(p: Atom, q: Atom)
    decreases p
  {
    match p
    case Variable(_) => true
    case Expression(xs) =>
      q.Expression? && |xs| == |q.children| &&
      forall i | 0 <= i < |xs| :: SameTokens(xs[i], q.children[i])
    case _ => !q.Expression? && LeafToken(p) == LeafToken(q)
  }

  predicate SameTokensAll(ps: seq<Atom>, qs: seq<Atom>) {
    |ps| == |qs| && forall i | 0 <= i < |ps| :: SameTokens(ps[i], qs[i])
  }

  lemma {:induction false} CoversAtom(p: Atom, q: Atom, rest: seq<Token>, ts: seq<Token>, i: nat)
    requires IsGround(q) && StandsAt(ts, i, Tokens(q))
    ensures Reaches(Tokens(p) + rest, ts, i) <==> SameTokens(p, q) && Reaches(rest, ts, i + |Tokens(q)|)
    decreases p, 1
  {
    var path := Tokens(p) + rest;
    assert ts[i] == Tokens(q)[0];
    EndOfAtom(ts, i, q);
    if p.Expression? {
      assert path[1..] == TokensAll(p.children) + rest;
      if q.Expression? && |p.children| == |q.children| {
        StandsSplit(ts, i, [Open(|q.children|)], TokensAll(q.children));
        CoversAll(p.children, q.children, rest, ts, i + 1);
      }
    } else {
      assert path[1..] == rest;
    }
  }

  lemma {:induction false} CoversAll(ps: seq<Atom>, qs: seq<Atom>, rest: seq<Token>, ts: seq<Token>, i: nat)
    requires |ps| == |qs| && (forall j | 0 <= j < |qs| :: IsGround(qs[j]))
    requires StandsAt(ts, i, TokensAll(qs))
    ensures Reaches(TokensAll(ps) + rest, ts, i) <==>
              SameTokensAll(ps, qs) && Reaches(rest, ts, i + |TokensAll(qs)|)
    decreases ps, 0
  {
    if ps == [] {
      assert TokensAll(ps) + rest == rest;
    } else {
      StandsSplit(ts, i, Tokens(qs[0]), TokensAll(qs[1..]));
      assert TokensAll(ps) + rest == Tokens(ps[0]) + (TokensAll(ps[1..]) + rest);
      CoversAtom(ps[0], qs[0], TokensAll(ps[1..]) + rest, ts, i);
      CoversAll(ps[1..], qs[1..], rest, ts, i + |Tokens(qs[0])|);
      SameTokensCons(ps, qs);
      assert i + |Tokens(qs[0])| + |TokensAll(qs[1..])| == i + |TokensAll(qs)|;
    }
  }

  lemma SameTokensCons(ps: seq<Atom>, qs: seq<Atom>)
    requires |ps| == |qs| > 0
    ensures SameTokensAll(ps, qs) <==> SameTokens(ps[0], qs[0]) && SameTokensAll(ps[1..], qs[1..])
  {
    if SameTokens(ps[0], qs[0]) && SameTokensAll(ps[1..], qs[1..]) {
      forall j | 0 <= j < |ps| ensures SameTokens(ps[j], qs[j]) {
        if j > 0 { assert ps[j] == ps[1..][j - 1] && qs[j] == qs[1..][j - 1]; }
      }
    }
    if SameTokensAll(ps, qs) {
      forall j | 0 <= j < |ps| - 1 ensures SameTokens(ps[1..][j], qs[1..][j]) {
        assert ps[j + 1] == ps[1..][j] && qs[j + 1] == qs[1..][j];
      }
    }
  }

  /** A pattern's path covers a ground probe exactly when their tokens agree outside
      the pattern's variables. */
  lemma CoversExactly(p: Atom, q: Atom)
    requires IsGround(q)
    ensures Reaches(Tokens(p), Tokens(q), 0) <==> SameTokens(p, q)
  {
    assert Tokens(p) + [] == Tokens(p);
    CoversAtom(p, q, [], Tokens(q), 0);
  }

  // ------------------------------------------------- when equal atoms share tokens

  predicate HoldsNaN(a: Atom)
    decreases a
  {
    match a
    case Grounded(p) => p.NaN?
    case Expression(xs) => exists i | 0 <= i < |xs| :: HoldsNaN(xs[i])
    case _ => false
  }

  predicate HoldsSpace(a: Atom)
    decreases a
  {
    match a
    case SpaceRef(_) => true
    case Expression(xs) => exists i | 0 <= i < |xs| :: HoldsSpace(xs[i])
    case _ => false
  }

  /** Neither a space handle, nor a not-a-number on both sides. */
  predicate Comparable(p: Atom, q: Atom) {
    !HoldsSpace(p) && !HoldsSpace(q) && !(HoldsNaN(p) && HoldsNaN(q))
  }

  lemma {:induction false} InstanceSharesTokens(p: Atom, q: Atom, b: map<string, Atom>)
    requires Instance(p, q, b) && Comparable(p, q)
    ensures SameTokens(p, q)
    decreases p
  {
    if p.Expression? {
      forall i | 0 <= i < |p.children| ensures SameTokens(p.children[i], q.children[i]) {
        InstanceSharesTokens(p.children[i], q.children[i], b);
      }
    }
  }
}
