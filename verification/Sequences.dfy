/** What several modules say about sequences. */
module Sequences {

  predicate Distinct<T(==)>(xs: seq<T>) {
    forall i, j | 0 <= i < j < |xs| :: xs[i] != xs[j]
  }

  lemma HeadIn<T>(xs: seq<T>)
    ensures xs != [] ==> xs[0] in xs
  {
  }

  function Reversed<T>(xs: seq<T>): (r: seq<T>)
    ensures |r| == |xs|
  {
    if xs == [] then [] else Reversed(xs[1..]) + [xs[0]]
  }

  // -------------------------------------------------------------- choosing in order

  predicate Ascending(ks: seq<nat>) {
    forall i, j | 0 <= i < j < |ks| :: ks[i] < ks[j]
  }

  /** `part` is what stands in `whole` at these positions, in order. */
  predicate PicksAt<T(==)>(whole: seq<T>, ks: seq<nat>, part: seq<T>) {
    && |ks| == |part| && Ascending(ks)
    && forall i | 0 <= i < |ks| :: ks[i] < |whole| && whole[ks[i]] == part[i]
  }

  lemma PickLast<T>(whole: seq<T>, ks: seq<nat>, part: seq<T>, x: T)
    requires PicksAt(whole, ks, part)
    ensures PicksAt(whole + [x], ks, part) && PicksAt(whole + [x], ks + [|whole|], part + [x])
    ensures |whole| !in ks
  {
  }

  function Shifted(ks: seq<nat>): (r: seq<nat>)
    ensures |r| == |ks| && forall i | 0 <= i < |ks| :: r[i] == ks[i] + 1
  {
    seq(|ks|, i requires 0 <= i < |ks| => ks[i] + 1)
  }

  lemma ShiftedHas(ks: seq<nat>)
    ensures 0 !in Shifted(ks) && forall k: nat :: k + 1 in Shifted(ks) <==> k in ks
  {
    var up := Shifted(ks);
    forall k: nat ensures k + 1 in up <==> k in ks {
      if k in ks {
        var i :| 0 <= i < |ks| && ks[i] == k;
        assert up[i] == k + 1;
      }
    }
  }

  lemma PickHead<T>(whole: seq<T>, ks: seq<nat>, part: seq<T>)
    requires whole != [] && PicksAt(whole[1..], ks, part)
    ensures PicksAt(whole, Shifted(ks), part) && PicksAt(whole, [0] + Shifted(ks), [whole[0]] + part)
    ensures 0 !in Shifted(ks) && forall k: nat :: k + 1 in Shifted(ks) <==> k in ks
  {
    ShiftedHas(ks);
  }
}
