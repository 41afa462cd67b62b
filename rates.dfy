/**
 The exchange graph as a value: a map from currency name to that currency's
 edge map (neighbour name to weight), and the fold of rate records into it
 that `ExchangeGraph.update_rates` performs in main.py. The imperative classes
 in module Exchange are proved against these definitions.
 */
module Rates {
  import opened Wrappers

  /** One `ExchangeRate(origin, dest, rate)` record; `rate` is the already
      transformed weight the reader hands to the graph. */
  datatype Record = Record(origin: string, dest: string, rate: real)

  /** Currency name to the edge map held by that currency. */
  type Graph = map<string, map<string, real>>

  /** Outcome of folding a record sequence: either every record was applied,
      or the record at `index` had weight 0 and the reciprocal `1 / rate`
      divided by zero. */
  datatype Status = Completed | DivisionByZero(index: nat)

  datatype Outcome = Outcome(graph: Graph, status: Status)

  /** The weight stored from `o` to `d`, if there is such an edge. */
  function Edge(g: Graph, o: string, d: string): Option<real>
  {
    if o in g && d in g[o] then Some(g[o][d]) else None
  }

  /** A currency is created only when its name is missing; an existing one keeps its edges. */
  function AddNode(g: Graph, n: string): (g': Graph)
    ensures g'.Keys == g.Keys + {n}
    ensures forall m :: m in g ==> g'[m] == g[m]
    ensures n !in g ==> g'[n] == map[]
  {
    if n in g then g else g[n := map[]]
  }

  /** Insert or overwrite the edge `o -> d` of an existing currency `o`. */
  function SetRate(g: Graph, o: string, d: string, w: real): (g': Graph)
    requires o in g
    ensures g'.Keys == g.Keys
    ensures forall m, n :: Edge(g', m, n) == if m == o && n == d then Some(w) else Edge(g, m, n)
  {
    g[o := g[o][d := w]]
  }

  /** The part of one record's processing that happens before the reciprocal
      is computed: both endpoints exist and `origin -> dest` holds `rate`. */
  function Forward(g: Graph, r: Record): (g': Graph)
    ensures g'.Keys == g.Keys + {r.origin, r.dest}
    ensures forall m, n :: Edge(g', m, n) == if m == r.origin && n == r.dest then Some(r.rate) else Edge(g, m, n)
  {
    assert forall m, n :: Edge(AddNode(AddNode(g, r.origin), r.dest), m, n) == Edge(g, m, n);
    SetRate(AddNode(AddNode(g, r.origin), r.dest), r.origin, r.dest, r.rate)
  }

  /** One full record: the forward write, then `dest -> origin` gets `1 / rate`. */
  function ApplyRecord(g: Graph, r: Record): (g': Graph)
    requires r.rate != 0.0
    ensures g'.Keys == g.Keys + {r.origin, r.dest}
  {
    SetRate(Forward(g, r), r.dest, r.origin, 1.0 / r.rate)
  }

  predicate NoZeroRate(rs: seq<Record>)
  {
    forall i :: 0 <= i < |rs| ==> rs[i].rate != 0.0
  }

  /** A sequence has no zero weight iff its front has none and its last record is not zero. */
  lemma NoZeroRateLast(rs: seq<Record>)
    requires rs != []
    ensures NoZeroRate(rs) <==> NoZeroRate(rs[..|rs| - 1]) && rs[|rs| - 1].rate != 0.0
  {
  }

  /** Records are applied in order; the first one with weight 0 stops the fold
      after its forward write. */
  function Update(g: Graph, rs: seq<Record>): (out: Outcome)
    ensures out.status.Completed? <==> NoZeroRate(rs)
    ensures out.status.DivisionByZero? ==>
              && out.status.index < |rs|
              && rs[out.status.index].rate == 0.0
              && NoZeroRate(rs[..out.status.index])
    decreases |rs|
  {
    if rs == [] then Outcome(g, Completed)
    else
      var prev := Update(g, rs[..|rs| - 1]);
      var r := rs[|rs| - 1];
      NoZeroRateLast(rs);
      if prev.status.DivisionByZero? then
        assert rs[..|rs| - 1][..prev.status.index] == rs[..prev.status.index];
        prev
      else if r.rate == 0.0 then Outcome(Forward(prev.graph, r), DivisionByZero(|rs| - 1))
      else Outcome(ApplyRecord(prev.graph, r), Completed)
  }

  /** Every name a record mentions, as origin or as destination. */
  function Endpoints(rs: seq<Record>): set<string>
  {
    (set r | r in rs :: r.origin) + (set r | r in rs :: r.dest)
  }

  /** The records the fold got to: all of them, or those up to and including the failing one. */
  function Processed(rs: seq<Record>, s: Status): seq<Record>
  {
    if s.DivisionByZero? && s.index < |rs| then rs[..s.index + 1] else rs
  }

  /** Does writing record `r` touch the ordered pair `o -> d`? */
  predicate Touches(r: Record, o: string, d: string)
  {
    (r.origin == o && r.dest == d) || (r.origin == d && r.dest == o)
  }

  /** The value `r` leaves on `o -> d` when it touches that pair: the reverse
      write comes second, so it wins, also for a self-loop. */
  function Written(r: Record, o: string, d: string): real
    requires r.rate != 0.0
  {
    if r.dest == o && r.origin == d then 1.0 / r.rate else r.rate
  }

  /** Every edge target is a currency of the graph. */
  ghost predicate Closed(g: Graph)
  {
    forall o, d :: o in g && d in g[o] ==> d in g
  }

  /** `x` and `y` are each other's reciprocal. */
  predicate Inverse(x: real, y: real)
  {
    x * y == 1.0
  }

  /** Every edge has its reverse edge, and between two distinct currencies the
      two weights are reciprocal. */
  ghost predicate Reciprocal(g: Graph)
  {
    forall o, d :: o in g && d in g[o] ==>
      d in g && o in g[d] && (o != d ==> Inverse(g[o][d], g[d][o]))
  }

  /** The currencies whose edge map has `d` as a key. */
  function Holders(g: Graph, d: string): set<string>
  {
    set n | n in g && d in g[n]
  }

  /** `d` is a key of exactly one currency's edge map. */
  predicate IsAlone(g: Graph, d: string)
  {
    |Holders(g, d)| == 1
  }
}
