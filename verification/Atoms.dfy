/** The atom kernel as the event stream uses it: terms, the equality of two atoms,
    groundness, and one-way matching. */
module Atoms {

  datatype Option<+T> = None | Some(value: T)

  /** What a grounded atom carries. Every not-a-number object is its own Python
      object and all of them are one atom. */
  datatype Payload =
    | IntVal(i: int)
    | FloatVal(x: real, negative: bool)
    | NaN(object: nat)
    | Text(s: string)
    | Truth(b: bool)
    | Opaque(object: nat)

  /** `SpaceRef` is a space handle standing as an operand; it equals the symbol that
      spells its name. */
  datatype Atom =
    | Symbol(name: string)
    | Variable(name: string)
    | Grounded(payload: Payload)
    | SpaceRef(name: string)
    | Expression(children: seq<Atom>)

  // ---------------------------------------------------------------- equality

  predicate PayloadEq(p: Payload, q: Payload) {
    if p.NaN? || q.NaN? then p.NaN? && q.NaN? else p == q
  }

  predicate AtomEq(a: Atom, b: Atom)
    decreases a
  {
    match a
    case Expression(xs) =>
      b.Expression? && |xs| == |b.children| &&
      forall i | 0 <= i < |xs| :: AtomEq(xs[i], b.children[i])
    case Grounded(p) => b.Grounded? && PayloadEq(p, b.payload)
    case Symbol(n) => (b.Symbol? || b.SpaceRef?) && b.name == n
    case SpaceRef(n) => (b.Symbol? || b.SpaceRef?) && b.name == n
    case Variable(n) => b == a
  }

  lemma AtomEqReflexive(a: Atom)
    ensures AtomEq(a, a)
  {
  }

  lemma {:induction false} AtomEqSymmetric(a: Atom, b: Atom)
    requires AtomEq(a, b)
    ensures AtomEq(b, a)
    decreases a
  {
    if a.Expression? {
      forall i | 0 <= i < |a.children| ensures AtomEq(b.children[i], a.children[i]) {
        AtomEqSymmetric(a.children[i], b.children[i]);
      }
    }
  }

  lemma {:induction false} AtomEqTransitive(a: Atom, b: Atom, c: Atom)
    requires AtomEq(a, b) && AtomEq(b, c)
    ensures AtomEq(a, c)
    decreases a
  {
    if a.Expression? {
      forall i | 0 <= i < |a.children| ensures AtomEq(a.children[i], c.children[i]) {
        AtomEqTransitive(a.children[i], b.children[i], c.children[i]);
      }
    }
  }

  /** One atom for all that are equal: a handle is written as the symbol it names, and
      every not-a-number as one. */
  function Canonical(a: Atom): Atom
    decreases a, 1
  {
    match a
    case SpaceRef(n) => Symbol(n)
    case Grounded(p) => if p.NaN? then Grounded(NaN(0)) else a
    case Expression(xs) => Expression(CanonicalAll(xs))
    case _ => a
  }

  function CanonicalAll(xs: seq<Atom>): (r: seq<Atom>)
    ensures |r| == |xs|
    ensures forall i | 0 <= i < |xs| :: r[i] == Canonical(xs[i])
    decreases xs, 0
  {
    if xs == [] then [] else [Canonical(xs[0])] + CanonicalAll(xs[1..])
  }

  /** Two atoms are equal exactly when they are written alike, handles aside and with one
      not-a-number. */
  lemma {:induction false} AtomEqExactly(a: Atom, b: Atom)
    ensures AtomEq(a, b) <==> Canonical(a) == Canonical(b)
    decreases a
  {
    if a.Expression? && b.Expression? {
      if |a.children| == |b.children| {
        forall i | 0 <= i < |a.children|
          ensures AtomEq(a.children[i], b.children[i]) <==> Canonical(a.children[i]) == Canonical(b.children[i])
        {
          AtomEqExactly(a.children[i], b.children[i]);
        }
        SameCanonicals(a.children, b.children);
      }
    }
  }

  lemma SameCanonicals(xs: seq<Atom>, ys: seq<Atom>)
    requires |xs| == |ys|
    ensures CanonicalAll(xs) == CanonicalAll(ys) <==> forall i | 0 <= i < |xs| :: Canonical(xs[i]) == Canonical(ys[i])
  {
    hide Canonical;
    if CanonicalAll(xs) == CanonicalAll(ys) {
      forall i | 0 <= i < |xs| ensures Canonical(xs[i]) == Canonical(ys[i]) {
        assert CanonicalAll(xs)[i] == CanonicalAll(ys)[i];
      }
    }
  }

  // -------------------------------------------------------------- groundness

  predicate IsGround(a: Atom) {
    match a
    case Variable(_) => false
    case Expression(xs) => forall i | 0 <= i < |xs| :: IsGround(xs[i])
    case _ => true
  }

  /** How many nodes an atom has. */
  function Size(a: Atom): (n: nat)
    ensures n > 0
    decreases a, 1
  {
    match a
    case Expression(xs) => 1 + SizeAll(xs)
    case _ => 1
  }

  function SizeAll(xs: seq<Atom>): nat
    decreases xs, 0
  {
    if xs == [] then 0 else Size(xs[0]) + SizeAll(xs[1..])
  }
}
