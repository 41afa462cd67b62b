/**
 What folding rate records into the graph guarantees: which currencies exist
 afterwards, which weight each edge holds, idempotence, the reciprocity
 invariant, and what the "alone" count means on such a graph.
 */
module RateProperties {
  import opened Wrappers
  import opened Rates

  /** Once the fold reaches a zero weight at `i`, later records are never looked at. */
  lemma {:induction false} StopsAtFirstZero(g: Graph, rs: seq<Record>, i: nat)
    requires i < |rs| && rs[i].rate == 0.0
    requires Update(g, rs[..i]).status == Completed
    ensures Update(g, rs) == Outcome(Forward(Update(g, rs[..i]).graph, rs[i]), DivisionByZero(i))
    decreases |rs|
  {
    var front := rs[..|rs| - 1];
    if i < |rs| - 1 {
      assert front[..i] == rs[..i] && front[i] == rs[i];
      StopsAtFirstZero(g, front, i);
    } else {
      assert front == rs[..i];
    }
  }

  /** A failing fold applied every record before the failing one, then only
      the failing record's node creation and forward write. */
  lemma FailureStopsAt(g: Graph, rs: seq<Record>, k: nat)
    requires Update(g, rs).status == DivisionByZero(k)
    ensures k < |rs| && rs[k].rate == 0.0
    ensures Update(g, rs[..k]).status == Completed
    ensures Update(g, rs).graph == Forward(Update(g, rs[..k]).graph, rs[k])
  {
    assert Update(g, rs[..k]).status == Completed;
    StopsAtFirstZero(g, rs, k);
  }

  /** The endpoints of a sequence are those of its front plus the last record's two. */
  lemma EndpointsLast(rs: seq<Record>)
    requires rs != []
    ensures Endpoints(rs) == Endpoints(rs[..|rs| - 1]) + {rs[|rs| - 1].origin, rs[|rs| - 1].dest}
  {
    var front, r := rs[..|rs| - 1], rs[|rs| - 1];
    assert rs == front + [r];
    assert forall x :: x in rs <==> x in front || x == r;
  }

  /** The last step of a fold over records with no zero weight. */
  lemma CompletedStep(g: Graph, rs: seq<Record>)
    requires NoZeroRate(rs) && rs != []
    ensures NoZeroRate(rs[..|rs| - 1]) && rs[|rs| - 1].rate != 0.0
    ensures Update(g, rs) == Outcome(ApplyRecord(Update(g, rs[..|rs| - 1]).graph, rs[|rs| - 1]), Completed)
  {
  }

  /** A fold over records with no zero weight adds exactly the records' endpoints. */
  lemma {:induction false} CompletedKeys(g: Graph, rs: seq<Record>)
    requires NoZeroRate(rs)
    ensures Update(g, rs).graph.Keys == g.Keys + Endpoints(rs)
    decreases |rs|
  {
    if rs != [] {
      var front := rs[..|rs| - 1];
      var r := rs[|rs| - 1];
      assert NoZeroRate(front) && Update(g, rs).graph.Keys == Update(g, front).graph.Keys + {r.origin, r.dest} by {
        CompletedStep(g, rs);
      }
      CompletedKeys(g, front);
      EndpointsLast(rs);
    }
  }

  /** The currencies after the fold are the old ones plus every endpoint of
      every record processed, the failing one included. */
  lemma UpdateKeys(g: Graph, rs: seq<Record>)
    ensures Update(g, rs).graph.Keys == g.Keys + Endpoints(Processed(rs, Update(g, rs).status))
  {
    var out := Update(g, rs);
    if out.status.DivisionByZero? {
      var k := out.status.index;
      var pre := Update(g, rs[..k]).graph;
      assert k < |rs| && out.graph.Keys == pre.Keys + {rs[k].origin, rs[k].dest} by {
        FailureStopsAt(g, rs, k);
      }
      assert pre.Keys == g.Keys + Endpoints(rs[..k]) by {
        CompletedKeys(g, rs[..k]);
      }
      assert Endpoints(rs[..k + 1]) == Endpoints(rs[..k]) + {rs[k].origin, rs[k].dest} by {
        EndpointsLast(rs[..k + 1]);
        assert rs[..k + 1][..k] == rs[..k];
      }
    } else {
      CompletedKeys(g, rs);
    }
  }

  /** One record changes exactly the pair it writes and its reverse. */
  lemma RecordEffect(g: Graph, r: Record, o: string, d: string)
    requires r.rate != 0.0
    ensures Edge(ApplyRecord(g, r), o, d) ==
              if Touches(r, o, d) then Some(Written(r, o, d)) else Edge(g, o, d)
  {
    var g1 := AddNode(AddNode(g, r.origin), r.dest);
    assert Edge(g1, o, d) == Edge(g, o, d);
  }

  /** The last record touching `o -> d` decides its weight. */
  lemma {:induction false} LastRecordWins(g: Graph, rs: seq<Record>, k: nat, o: string, d: string)
    requires NoZeroRate(rs)
    requires k < |rs| && Touches(rs[k], o, d)
    requires forall j :: k < j < |rs| ==> !Touches(rs[j], o, d)
    ensures Edge(Update(g, rs).graph, o, d) == Some(Written(rs[k], o, d))
    decreases |rs|
  {
    var front := rs[..|rs| - 1];
    var r := rs[|rs| - 1];
    assert NoZeroRate(front);
    RecordEffect(Update(g, front).graph, r, o, d);
    if k < |rs| - 1 {
      LastRecordWins(g, front, k, o, d);
    }
  }

  /** A pair no record touches keeps its old weight, or stays absent. */
  lemma {:induction false} UntouchedPairKept(g: Graph, rs: seq<Record>, o: string, d: string)
    requires NoZeroRate(rs)
    requires forall j :: 0 <= j < |rs| ==> !Touches(rs[j], o, d)
    ensures Edge(Update(g, rs).graph, o, d) == Edge(g, o, d)
    decreases |rs|
  {
    if rs != [] {
      var front := rs[..|rs| - 1];
      assert NoZeroRate(front);
      RecordEffect(Update(g, front).graph, rs[|rs| - 1], o, d);
      UntouchedPairKept(g, front, o, d);
    }
  }

  /** The weight of `o -> d` after the fold depends on the starting graph only
      when no record touches the pair. */
  lemma EdgeAfterUpdate(g: Graph, h: Graph, rs: seq<Record>, o: string, d: string)
    requires NoZeroRate(rs)
    ensures (exists j :: 0 <= j < |rs| && Touches(rs[j], o, d)) ==>
              Edge(Update(g, rs).graph, o, d) == Edge(Update(h, rs).graph, o, d)
    ensures (forall j :: 0 <= j < |rs| ==> !Touches(rs[j], o, d)) ==>
              Edge(Update(g, rs).graph, o, d) == Edge(g, o, d)
  {
    if j :| 0 <= j < |rs| && Touches(rs[j], o, d) {
      var k := LastTouch(rs, o, d, j);
      LastRecordWins(g, rs, k, o, d);
      LastRecordWins(h, rs, k, o, d);
    } else {
      UntouchedPairKept(g, rs, o, d);
    }
  }

  /** The index of the last record touching `o -> d`, given that one at `j` does. */
  lemma LastTouch(rs: seq<Record>, o: string, d: string, j: nat) returns (k: nat)
    requires j < |rs| && Touches(rs[j], o, d)
    ensures j <= k < |rs| && Touches(rs[k], o, d)
    ensures forall i :: k < i < |rs| ==> !Touches(rs[i], o, d)
    decreases |rs| - j
  {
    if i :| j < i < |rs| && Touches(rs[i], o, d) {
      k := LastTouch(rs, o, d, i);
    } else {
      k := j;
    }
  }

  /** Two graphs with the same currencies and the same edge weights are equal. */
  lemma GraphExt(a: Graph, b: Graph)
    requires a.Keys == b.Keys
    requires forall o, d :: Edge(a, o, d) == Edge(b, o, d)
    ensures a == b
  {
    forall o | o in a
      ensures a[o] == b[o]
    {
      forall d ensures d in a[o] <==> d in b[o] {
        assert Edge(a, o, d) == Edge(b, o, d);
      }
      forall d | d in a[o] ensures a[o][d] == b[o][d] {
        assert Edge(a, o, d) == Edge(b, o, d);
      }
    }
  }

  /** Applying the same records a second time changes nothing. */
  lemma UpdateIdempotent(g: Graph, rs: seq<Record>)
    requires NoZeroRate(rs)
    ensures Update(Update(g, rs).graph, rs) == Update(g, rs)
  {
    var once := Update(g, rs).graph;
    var twice := Update(once, rs).graph;
    UpdateKeys(g, rs);
    UpdateKeys(once, rs);
    forall o, d ensures Edge(twice, o, d) == Edge(once, o, d) {
      EdgeAfterUpdate(once, g, rs, o, d);
    }
    GraphExt(twice, once);
  }

  /** Creating a currency with no edges keeps every edge target a currency. */
  lemma AddNodeClosed(g: Graph, n: string)
    requires Closed(g)
    ensures Closed(AddNode(g, n))
  {
  }

  /** Writing an edge between two existing currencies keeps every edge target a currency. */
  lemma SetRateClosed(g: Graph, o: string, d: string, w: real)
    requires Closed(g) && o in g && d in g
    ensures Closed(SetRate(g, o, d, w))
  {
    var g' := SetRate(g, o, d, w);
    forall m, n | m in g' && n in g'[m]
      ensures n in g'
    {
      assert Edge(g', m, n).Some?;
      if !(m == o && n == d) {
        assert Edge(g, m, n).Some?;
      }
    }
  }

  /** A record's writes, complete or stopped after the forward one, keep every
      edge target a currency. */
  lemma RecordClosed(g: Graph, r: Record)
    requires Closed(g)
    ensures Closed(Forward(g, r))
    ensures r.rate != 0.0 ==> Closed(ApplyRecord(g, r))
  {
    var g1 := AddNode(g, r.origin);
    AddNodeClosed(g, r.origin);
    AddNodeClosed(g1, r.dest);
    SetRateClosed(AddNode(g1, r.dest), r.origin, r.dest, r.rate);
    if r.rate != 0.0 {
      SetRateClosed(Forward(g, r), r.dest, r.origin, 1.0 / r.rate);
    }
  }

  /** Every edge target stays a currency, whether or not the fold fails. */
  lemma {:induction false} UpdatePreservesClosed(g: Graph, rs: seq<Record>)
    requires Closed(g)
    ensures Closed(Update(g, rs).graph)
    decreases |rs|
  {
    if rs != [] {
      var prev := Update(g, rs[..|rs| - 1]);
      UpdatePreservesClosed(g, rs[..|rs| - 1]);
      RecordClosed(prev.graph, rs[|rs| - 1]);
    }
  }

  /** The two weights one record leaves on a pair of distinct currencies are reciprocal. */
  lemma WrittenReciprocal(r: Record, o: string, d: string)
    requires r.rate != 0.0 && o != d && Touches(r, o, d)
    ensures Touches(r, d, o)
    ensures Inverse(Written(r, o, d), Written(r, d, o))
  {
  }

  /** After one complete record, an edge has its reverse, with the reciprocal
      weight when the two currencies differ. */
  lemma RecordReciprocalAt(g: Graph, r: Record, o: string, d: string)
    requires r.rate != 0.0
    requires Reciprocal(g)
    requires Edge(ApplyRecord(g, r), o, d).Some?
    ensures Edge(ApplyRecord(g, r), d, o).Some?
    ensures o != d ==> Inverse(Edge(ApplyRecord(g, r), o, d).value, Edge(ApplyRecord(g, r), d, o).value)
  {
    RecordEffect(g, r, o, d);
    RecordEffect(g, r, d, o);
    if Touches(r, o, d) {
      if o != d {
        WrittenReciprocal(r, o, d);
      }
    } else {
      assert !Touches(r, d, o);
      assert o in g && d in g[o];
    }
  }

  /** One complete record keeps every edge paired with its reciprocal. */
  lemma RecordPreservesReciprocal(g: Graph, r: Record)
    requires r.rate != 0.0
    requires Reciprocal(g)
    ensures Reciprocal(ApplyRecord(g, r))
  {
    var g' := ApplyRecord(g, r);
    forall o, d | o in g' && d in g'[o]
      ensures d in g' && o in g'[d] && (o != d ==> Inverse(g'[o][d], g'[d][o]))
    {
      assert Edge(g', o, d).Some?;
      RecordReciprocalAt(g, r, o, d);
      assert d in g' && o in g'[d];
      assert Edge(g', o, d).value == g'[o][d];
      assert Edge(g', d, o).value == g'[d][o];
    }
  }

  /** A fold that completes keeps every edge paired with its reciprocal. */
  lemma {:induction false} UpdatePreservesReciprocal(g: Graph, rs: seq<Record>)
    requires Reciprocal(g)
    requires NoZeroRate(rs)
    ensures Reciprocal(Update(g, rs).graph)
    decreases |rs|
  {
    if rs != [] {
      var front := rs[..|rs| - 1];
      assert NoZeroRate(front);
      UpdatePreservesReciprocal(g, front);
      RecordPreservesReciprocal(Update(g, front).graph, rs[|rs| - 1]);
    }
  }

  /** A fold stopped by a zero weight can leave an edge without its reverse. */
  lemma FailedUpdateBreaksReciprocal()
    ensures var out := Update(map[], [Record("USD", "EUR", 0.0)]);
            out.status == DivisionByZero(0) && !Reciprocal(out.graph)
  {
    var rs := [Record("USD", "EUR", 0.0)];
    assert rs[..0] == [];
    var g := Update(map[], rs).graph;
    assert g == map["USD" := map["EUR" := 0.0], "EUR" := map[]];
    assert "EUR" in g["USD"] && "USD" !in g["EUR"];
  }

  /** On a closed reciprocal graph, a currency is referenced by exactly one
      other currency precisely when it has exactly one edge of its own. */
  lemma AloneMeansOneEdge(g: Graph, d: string)
    requires Closed(g) && Reciprocal(g)
    ensures IsAlone(g, d) <==> d in g && |g[d]| == 1
  {
    if d in g {
      assert Holders(g, d) == g[d].Keys;
      assert |g[d]| == |g[d].Keys|;
    } else {
      assert Holders(g, d) == {};
    }
  }

  /** Two currencies joined by one record are each referenced once, so both
      are alone. */
  lemma LinkedPairBothAlone(o: string, d: string, w: real)
    requires o != d && w != 0.0
    ensures var g := Update(map[], [Record(o, d, w)]).graph;
            IsAlone(g, o) && IsAlone(g, d)
  {
    var rs := [Record(o, d, w)];
    assert rs[..0] == [];
    CompletedStep(map[], rs);
    var g := Update(map[], rs).graph;
    RecordEffect(map[], rs[0], o, o);
    RecordEffect(map[], rs[0], d, o);
    RecordEffect(map[], rs[0], o, d);
    RecordEffect(map[], rs[0], d, d);
    assert Holders(g, o) == {d};
    assert Holders(g, d) == {o};
  }
}
