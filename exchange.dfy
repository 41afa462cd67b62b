/**
 The two classes of main.py as heap objects: a `Currency` owns a mutable edge
 map, an `ExchangeGraph` owns a mutable map from name to `Currency`. Each
 method is proved against the value-level definitions of module Rates.
 */
module Exchange {
  import opened Wrappers
  import opened Rates
  import RateProperties

  /** A named node with its outgoing edges (neighbour name to weight). */
  class Currency {
    const name: string
    var edges: map<string, real>

    constructor (name: string)
      ensures this.name == name && edges == map[]
    {
      this.name := name;
      edges := map[];
    }

    /** Insert or overwrite the edge to `currency`. */
    method SetRateTo(currency: string, rate: real)
      modifies this
      ensures currency in edges && edges[currency] == rate
      ensures edges.Keys == old(edges.Keys) + {currency}
      ensures forall c :: c in old(edges) && c != currency ==> edges[c] == old(edges[c])
    {
      edges := edges[currency := rate];
    }

    /** The stored weight, or None where the source raises `KeyError`. */
    method GetRateTo(currency: string) returns (rate: Option<real>)
      ensures rate.Some? <==> currency in edges
      ensures rate.Some? ==> rate.value == edges[currency]
    {
      if currency in edges {
        rate := Some(edges[currency]);
      } else {
        rate := None;
      }
    }

    /** A snapshot of the edge map: a map value, so later writes do not reach it. */
    function Edges(): (m: map<string, real>)
      reads this
      ensures m.Keys == edges.Keys
      ensures forall c :: c in m ==> m[c] == edges[c]
    {
      edges
    }
  }

  class ExchangeGraph {
    var currencies: map<string, Currency>

    /** Every currency is filed under its own name (so no object is filed twice). */
    ghost predicate NamesMatch()
      reads this
    {
      forall n :: n in currencies ==> currencies[n].name == n
    }

    /** Names match, and every edge target is a currency of the graph. */
    ghost predicate Valid()
      reads this, currencies.Values
    {
      NamesMatch() && Closed(Graph())
    }

    /** The graph as a value: each currency's edge map under its name. */
    ghost function Graph(): Graph
      reads this, currencies.Values
    {
      map n | n in currencies :: currencies[n].edges
    }

    /** `__init__` with no records; records are then given to `UpdateRates`. */
    constructor ()
      ensures Valid() && currencies == map[] && Graph() == map[]
      ensures Reciprocal(Graph())
    {
      currencies := map[];
    }

    /** The currency filed under `name`, or None where the source raises `KeyError`. */
    method GetCurrency(name: string) returns (c: Option<Currency>)
      requires NamesMatch()
      ensures c.Some? <==> name in currencies
      ensures c.Some? ==> c.value == currencies[name] && c.value.name == name
    {
      if name in currencies {
        c := Some(currencies[name]);
      } else {
        c := None;
      }
    }

    /** Create the currency `name` unless it exists. */
    method AddCurrency(name: string)
      requires NamesMatch()
      modifies this
      ensures NamesMatch()
      ensures currencies.Keys == old(currencies.Keys) + {name}
      ensures forall n :: n in old(currencies) ==> currencies[n] == old(currencies[n])
      ensures name !in old(currencies) ==> fresh(currencies[name])
      ensures Graph() == AddNode(old(Graph()), name)
    {
      if name !in currencies {
        var c := new Currency(name);
        currencies := currencies[name := c];
      }
    }

    /** Write `o -> d` on the currency filed under `o`; no other currency changes. */
    method WriteEdge(o: string, d: string, w: real)
      requires NamesMatch() && o in currencies
      modifies currencies[o]
      ensures NamesMatch() && currencies == old(currencies)
      ensures Graph() == Rates.SetRate(old(Graph()), o, d, w)
    {
      ghost var before := Graph();
      var c := currencies[o];
      c.SetRateTo(d, w);
      forall n | n in currencies
        ensures Graph()[n] == Rates.SetRate(before, o, d, w)[n]
      {
        if n != o {
          assert currencies[n].name != c.name;
        }
      }
    }

    /** One record: create missing endpoints, write `origin -> dest`, then
        `dest -> origin` with `1 / rate`, which fails when the weight is 0. */
    method ApplyOne(r: Record) returns (ok: bool)
      requires NamesMatch()
      modifies this, currencies.Values
      ensures NamesMatch()
      ensures ok <==> r.rate != 0.0
      ensures Graph() == if ok then ApplyRecord(old(Graph()), r) else Forward(old(Graph()), r)
      ensures forall n :: n in old(currencies) ==> n in currencies && currencies[n] == old(currencies[n])
      ensures forall n :: n in currencies && n !in old(currencies) ==> fresh(currencies[n])
    {
      AddCurrency(r.origin);
      AddCurrency(r.dest);
      WriteEdge(r.origin, r.dest, r.rate);
      if r.rate == 0.0 {
        return false;
      }
      WriteEdge(r.dest, r.origin, 1.0 / r.rate);
      return true;
    }

    /** Fold `rates` into the graph in order. A record with weight 0 stops the
        loop after its forward write, where the source's `1 / rate` raises. */
    method UpdateRates(rates: seq<Record>) returns (status: Status)
      requires NamesMatch()
      modifies this, currencies.Values
      ensures NamesMatch()
      ensures Closed(old(Graph())) ==> Closed(Graph())
      ensures Outcome(Graph(), status) == Update(old(Graph()), rates)
      ensures forall n :: n in old(currencies) ==> n in currencies && currencies[n] == old(currencies[n])
      ensures forall n :: n in currencies && n !in old(currencies) ==> fresh(currencies[n])
    {
      ghost var start := Graph();
      var i := 0;
      while i < |rates|
        invariant i <= |rates|
        invariant NamesMatch()
        invariant Update(start, rates[..i]) == Outcome(Graph(), Completed)
        invariant forall n :: n in old(currencies) ==> n in currencies && currencies[n] == old(currencies[n])
        invariant forall n :: n in currencies && n !in old(currencies) ==> fresh(currencies[n])
      {
        ghost var prev := Graph();
        var ok := ApplyOne(rates[i]);
        if !ok {
          status := DivisionByZero(i);
          assert Update(start, rates) == Outcome(Graph(), status) by {
            RateProperties.StopsAtFirstZero(start, rates, i);
          }
          ClosedAfter(start, rates);
          return;
        }
        assert Update(start, rates[..i + 1]) == Outcome(Graph(), Completed) by {
          assert rates[..i + 1][..i] == rates[..i];
        }
        i := i + 1;
      }
      assert rates[..i] == rates;
      status := Completed;
      ClosedAfter(start, rates);
    }

    /** The currency names that are an edge key of exactly one currency. */
    method AloneCurrency() returns (alone: set<string>)
      ensures forall d :: d in alone <==> IsAlone(Graph(), d)
    {
      ghost var g := Graph();
      var counts: map<string, nat> := map[];
      var todo := currencies.Keys;
      ghost var done: set<string> := {};
      while todo != {}
        invariant todo !! done && todo + done == g.Keys
        invariant forall d :: Count(counts, d) == |Within(g, done, d)|
        decreases todo
      {
        var n :| n in todo;
        var targets := currencies[n].Edges().Keys;
        assert targets == g[n].Keys;
        counts := CountAll(counts, targets);
        WithinStep(g, done, n);
        todo := todo - {n};
        done := done + {n};
      }
      alone := set d | d in counts && counts[d] == 1;
      assert forall d :: Within(g, done, d) == Holders(g, d);
    }
  }

  /** A fold started on a closed graph ends on a closed graph. */
  lemma ClosedAfter(g: Graph, rs: seq<Record>)
    ensures Closed(g) ==> Closed(Update(g, rs).graph)
  {
    if Closed(g) {
      RateProperties.UpdatePreservesClosed(g, rs);
    }
  }

  /** How many times `d` has been counted so far. */
  function Count(counts: map<string, nat>, d: string): nat
  {
    if d in counts then counts[d] else 0
  }

  /** Add one to the count of every name in `targets`. */
  method CountAll(counts: map<string, nat>, targets: set<string>) returns (counts': map<string, nat>)
    ensures forall d :: Count(counts', d) == Count(counts, d) + (if d in targets then 1 else 0)
  {
    counts' := counts;
    var todo := targets;
    while todo != {}
      invariant todo <= targets
      invariant forall d :: Count(counts', d) ==
                  Count(counts, d) + (if d in targets - todo then 1 else 0)
      decreases todo
    {
      var d :| d in todo;
      counts' := counts'[d := Count(counts', d) + 1];
      todo := todo - {d};
    }
  }

  /** The currencies among `names` whose edge map has `d` as a key. */
  ghost function Within(g: Graph, names: set<string>, d: string): set<string>
  {
    set n | n in names && n in g && d in g[n]
  }

  /** Counting one more currency adds one holder for each of its edge keys. */
  lemma WithinStep(g: Graph, done: set<string>, n: string)
    requires n !in done && n in g
    ensures forall d :: |Within(g, done + {n}, d)| == |Within(g, done, d)| + (if d in g[n] then 1 else 0)
  {
    forall d ensures |Within(g, done + {n}, d)| == |Within(g, done, d)| + (if d in g[n] then 1 else 0) {
      if d in g[n] {
        assert Within(g, done + {n}, d) == Within(g, done, d) + {n};
      } else {
        assert Within(g, done + {n}, d) == Within(g, done, d);
      }
    }
  }
}
