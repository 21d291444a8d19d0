/** The registry's table of deliveries in flight, per fold and per thread: the values it
    takes and the object that keeps it. */
module DeliveryTables {

  type Thread = nat
  type FoldId = nat
  type Table = map<FoldId, map<Thread, nat>>

  function CountOf(table: Table, f: FoldId, t: Thread): nat {
    if f in table && t in table[f] then table[f][t] else 0
  }

  function Raised(table: Table, f: FoldId, t: Thread): Table {
    var counts := if f in table then table[f] else map[];
    table[f := counts[t := CountOf(table, f, t) + 1]]
  }

  /** The release of one claim; an unclaimed one leaves the table as it is. */
  function Lowered(table: Table, f: FoldId, t: Thread): Table {
    if CountOf(table, f, t) == 0 then table
    else
      var left := Less(table[f], t);
      if left == map[] then table - {f} else table[f := left]
  }

  /** One thread's count lowered, and forgotten at zero. */
  function Less(counts: map<Thread, nat>, t: Thread): map<Thread, nat>
    requires t in counts && counts[t] > 0
  {
    if counts[t] == 1 then counts - {t} else counts[t := (counts[t] - 1) as nat]
  }

  /** Nothing is kept for a fold or a thread without a delivery in flight. */
  predicate Tidy(table: Table) {
    forall f | f in table :: TidyCounts(table[f])
  }

  predicate TidyCounts(counts: map<Thread, nat>) {
    counts != map[] && forall t | t in counts :: counts[t] > 0
  }

  /** A tidy table is determined by its counts. */
  lemma TidyUnique(a: Table, b: Table)
    requires Tidy(a) && Tidy(b)
    requires forall f, t :: CountOf(a, f, t) == CountOf(b, f, t)
    ensures a == b
  {
    forall f ensures f in a <==> f in b {
      if f in a { HasThread(a, b, f); }
      if f in b { HasThread(b, a, f); }
    }
    forall f | f in a ensures a[f] == b[f] {
      forall t ensures (t in a[f] <==> t in b[f]) && (t in a[f] ==> a[f][t] == b[f][t]) {
        assert CountOf(a, f, t) == CountOf(b, f, t);
        assert TidyCounts(a[f]) && TidyCounts(b[f]);
      }
    }
  }

  lemma HasThread(a: Table, b: Table, f: FoldId)
    requires Tidy(a) && f in a && forall t :: CountOf(a, f, t) == CountOf(b, f, t)
    ensures f in b
  {
    assert TidyCounts(a[f]);
    var t :| t in a[f];
    assert CountOf(b, f, t) > 0;
  }

  /** A claim raises one count by one and leaves every other. */
  lemma RaisedMovesOne(table: Table, f: FoldId, t: Thread)
    requires Tidy(table)
    ensures Tidy(Raised(table, f, t))
    ensures forall g, u :: CountOf(Raised(table, f, t), g, u) ==
                           CountOf(table, g, u) + (if g == f && u == t then 1 else 0)
  {
    var raised := Raised(table, f, t);
    assert t in raised[f];
    assert TidyCounts(raised[f]) by { if f in table { assert TidyCounts(table[f]); } }
    forall g | g in raised ensures TidyCounts(raised[g]) { if g != f { assert TidyCounts(table[g]); } }
  }

  /** A release lowers one count by one and leaves every other; without a claim it
      leaves the table. */
  lemma LoweredMovesOne(table: Table, f: FoldId, t: Thread)
    requires Tidy(table)
    ensures Tidy(Lowered(table, f, t))
    ensures CountOf(table, f, t) == 0 ==> Lowered(table, f, t) == table
    ensures CountOf(table, f, t) > 0 ==>
              forall g, u :: CountOf(Lowered(table, f, t), g, u) ==
                             CountOf(table, g, u) - (if g == f && u == t then 1 else 0)
  {
    if CountOf(table, f, t) > 0 {
      var counts := table[f];
      assert TidyCounts(counts);
      var left := Less(counts, t);
      LessCounts(counts, t);
      var lowered := Lowered(table, f, t);
      forall g | g in lowered ensures TidyCounts(lowered[g]) { if g != f { assert TidyCounts(table[g]); } }
      forall g, u
        ensures CountOf(lowered, g, u) == CountOf(table, g, u) - (if g == f && u == t then 1 else 0)
      {
        if g == f {
          assert CountIn(left, u) == CountIn(counts, u) - (if u == t then 1 else 0);
          if left == map[] { assert u !in left; }
        }
      }
    }
  }

  function CountIn(counts: map<Thread, nat>, t: Thread): nat {
    if t in counts then counts[t] else 0
  }

  lemma LessCounts(counts: map<Thread, nat>, t: Thread)
    requires TidyCounts(counts) && t in counts
    ensures forall u :: CountIn(Less(counts, t), u) == CountIn(counts, u) - (if u == t then 1 else 0)
    ensures Less(counts, t) != map[] ==> TidyCounts(Less(counts, t))
  {
  }

  /** Ending a delivery just begun leaves the table exactly as it was before. */
  lemma EndUndoesBegin(table: Table, f: FoldId, t: Thread)
    requires Tidy(table)
    ensures Lowered(Raised(table, f, t), f, t) == table
  {
    RaisedMovesOne(table, f, t);
    LoweredMovesOne(Raised(table, f, t), f, t);
    hide Raised, Lowered, Tidy;
    forall g, u ensures CountOf(Lowered(Raised(table, f, t), f, t), g, u) == CountOf(table, g, u) {}
    TidyUnique(Lowered(Raised(table, f, t), f, t), table);
  }

  class DeliveryTable {
    var deliveries: Table

    ghost predicate Valid()
      reads this
    {
      Tidy(deliveries)
    }

    constructor ()
      ensures Valid() && deliveries == map[]
    {
      deliveries := map[];
    }

    /** Claim one step in flight, or refuse because the fold is cancelled. */
    method Begin(f: FoldId, active: bool, t: Thread) returns (claimed: bool)
      requires Valid()
      modifies this
      ensures Valid() && claimed == active
      ensures deliveries == if active then Raised(old(deliveries), f, t) else old(deliveries)
    {
      if !active { return false; }
      RaisedMovesOne(deliveries, f, t);
      var counts: map<Thread, nat> := if f in deliveries then deliveries[f] else map[];
      counts := counts[t := (if t in counts then counts[t] else 0) + 1];
      deliveries := deliveries[f := counts];
      return true;
    }

    /** Release one step, or refuse because this thread has claimed none. */
    method End(f: FoldId, t: Thread) returns (balanced: bool)
      requires Valid()
      modifies this
      ensures Valid() && (balanced <==> CountOf(old(deliveries), f, t) > 0)
      ensures deliveries == Lowered(old(deliveries), f, t)
    {
      LoweredMovesOne(deliveries, f, t);
      if f !in deliveries || t !in deliveries[f] { return false; }
      assert TidyCounts(deliveries[f]);
      var counts: map<Thread, nat> := deliveries[f];
      counts := if counts[t] == 1 then counts - {t} else counts[t := (counts[t] - 1) as nat];
      deliveries := if counts == map[] then deliveries - {f} else deliveries[f := counts];
      return true;
    }

    /** Whether a cancel on this thread may return: no other thread is inside. */
    method OthersOut(f: FoldId, t: Thread) returns (out: bool)
      requires Valid()
      ensures out <==> forall u | u != t :: CountOf(deliveries, f, u) == 0
    {
      if f !in deliveries { return true; }
      var counts := deliveries[f];
      out := !exists u | u in counts :: u != t && counts[u] > 0;
      if out {
        forall u | u != t ensures CountOf(deliveries, f, u) == 0 {}
      } else {
        var u :| u in counts && u != t && counts[u] > 0;
        assert CountOf(deliveries, f, u) > 0;
      }
    }
  }
}
