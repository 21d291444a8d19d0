/** Names in code-point order, and the sorted list of a set of names. */
module Names {
  import opened Sequences

  predicate Less(a: string, b: string)
    decreases |a|
  {
    if b == "" then false
    else if a == "" then true
    else if a[0] != b[0] then a[0] < b[0]
    else Less(a[1..], b[1..])
  }

  /** The two part at this position, the first having the smaller code point, or ending. */
  predicate PartAt(a: string, b: string, k: nat) {
    k <= |a| && k < |b| && a[..k] == b[..k] && (k == |a| || a[k] < b[k])
  }

  lemma {:induction false} LessExactly(a: string, b: string)
    ensures Less(a, b) <==> exists k: nat :: PartAt(a, b, k)
    decreases |a|
  {
    if b != "" {
      if a == "" {
        assert PartAt(a, b, 0);
      } else if a[0] == b[0] {
        LessExactly(a[1..], b[1..]);
        if k: nat :| PartAt(a, b, k) {
          assert k > 0 && a[1..][..k - 1] == a[..k][1..] && b[1..][..k - 1] == b[..k][1..];
          assert PartAt(a[1..], b[1..], k - 1);
        }
        if k: nat :| PartAt(a[1..], b[1..], k) {
          assert a[..k + 1] == [a[0]] + a[1..][..k] && b[..k + 1] == [b[0]] + b[1..][..k];
          assert PartAt(a, b, k + 1);
        }
      } else {
        assert forall k: nat | 0 < k && k <= |a| && k < |b| :: a[..k][0] == a[0] && b[..k][0] == b[0];
        assert PartAt(a, b, 0) <==> a[0] < b[0];
      }
    }
  }

  lemma {:induction false} LessIrreflexive(a: string)
    ensures !Less(a, a)
    decreases |a|
  {
    if a != "" { LessIrreflexive(a[1..]); }
  }

  lemma {:induction false} LessTransitive(a: string, b: string, c: string)
    requires Less(a, b) && Less(b, c)
    ensures Less(a, c)
    decreases |a|
  {
    if a != "" && a[0] == b[0] && b[0] == c[0] { LessTransitive(a[1..], b[1..], c[1..]); }
  }

  lemma {:induction false} LessTotal(a: string, b: string)
    ensures Less(a, b) || a == b || Less(b, a)
    decreases |a|
  {
    if a != "" && b != "" && a[0] == b[0] {
      LessTotal(a[1..], b[1..]);
      if a[1..] == b[1..] { assert a == [a[0]] + a[1..] && b == [b[0]] + b[1..]; }
    }
  }

  predicate Ascends(xs: seq<string>) {
    forall i, j | 0 <= i < j < |xs| :: Less(xs[i], xs[j])
  }

  /** The name put in its place, unless it is there already. */
  function Placed(x: string, xs: seq<string>): (r: seq<string>)
    requires Ascends(xs)
    ensures Ascends(r) && (forall y :: y in r <==> y == x || y in xs)
  {
    if xs == [] then [x]
    else if x == xs[0] then xs
    else if Less(x, xs[0]) then
      assert forall j | 0 < j < |xs| :: Less(x, xs[j]) by {
        forall j | 0 < j < |xs| ensures Less(x, xs[j]) { LessTransitive(x, xs[0], xs[j]); }
      }
      [x] + xs
    else
      LessTotal(x, xs[0]);
      var rest := Placed(x, xs[1..]);
      assert forall j | 0 <= j < |rest| :: rest[j] in rest;
      assert forall y | y in xs[1..] :: Less(xs[0], y);
      [xs[0]] + rest
  }

  /** The sorted list of the distinct names of `xs`. */
  function Sorted(xs: seq<string>): (r: seq<string>)
    ensures Ascends(r) && (forall y :: y in r <==> y in xs)
  {
    if xs == [] then [] else Placed(xs[0], Sorted(xs[1..]))
  }

  lemma {:induction false} AscendsUnique(a: seq<string>, b: seq<string>)
    requires Ascends(a) && Ascends(b)
    requires forall y :: y in a <==> y in b
    ensures a == b
    decreases |a|
  {
    HeadIn(a);
    HeadIn(b);
    if a != [] && b != [] {
      LessIrreflexive(a[0]);
      if a[0] != b[0] {
        assert Less(b[0], a[0]) && Less(a[0], b[0]);
        LessTransitive(a[0], b[0], a[0]);
      }
      forall y ensures y in a[1..] <==> y in b[1..] {
        if y in a[1..] { assert y in b && Less(a[0], y); }
        if y in b[1..] { assert y in a && Less(b[0], y); }
      }
      AscendsUnique(a[1..], b[1..]);
      assert a == [a[0]] + a[1..] && b == [b[0]] + b[1..];
    }
  }
}
