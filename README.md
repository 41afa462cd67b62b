# Currency exchange graph (arbitrage, `main.py`)

A Dafny model of the exchange graph at the core of `main.py`. A `Currency` is a
named node that owns a mutable map from neighbour name to edge weight. An
`ExchangeGraph` owns a mutable map from currency name to `Currency`.
`update_rates` folds `(origin, dest, rate)` records into the graph. It creates
missing currencies, writes `origin -> dest = rate`, then writes
`dest -> origin = 1 / rate`. `alone_currency` reports the names that are an
edge key of exactly one currency.

Layout:

- `wrappers.dfy` (module `Wrappers`): `Option`, for lookups that the source
  lets fail with `KeyError`.
- `rates.dfy` (module `Rates`): the graph as a value
  (`map<string, map<string, real>>`). It defines the fold `Update` that
  `update_rates` performs, the invariants `Closed` and `Reciprocal`, and the
  holder count behind `alone_currency`.
- `rate_properties.dfy` (module `RateProperties`): what the fold guarantees.
  It covers the currencies created, the last write winning, untouched pairs,
  idempotence, the invariants, failure on a zero weight, and the meaning of
  "alone".
- `exchange.dfy` (module `Exchange`): the classes `Currency` and
  `ExchangeGraph`, with fields updated in place. Every method is proved
  against the value-level definitions. `ExchangeGraph.Graph()` is the value
  view of the objects.

Weights are `real`, standing in for Python floats. A record's `rate` is the
number the reader hands to the graph (in the source, `log(1 / rate)` of the
file's decimal). The only arithmetic inside the graph is `1 / rate`. A record
whose weight is 0 makes that division raise `ZeroDivisionError`. The model
returns `Status.DivisionByZero(i)` for it. By then, record `i` has already
created its currencies and written `origin -> dest`, and every earlier record
stays applied. This is exactly the state the source leaves behind when the
exception escapes.

Consequences of the code as written:

- main.py:42 makes each weight `log(1 / rate)`. Line 66 stores `1 / w` on the
  reverse edge, which is not the reverse rate's logarithm `-w`. Between two
  distinct currencies, the invariant the model proves is therefore
  `w * w' == 1`.
- When line 66 raises for record `i`, the currencies that record created and
  its forward write from line 65 stay in place (`RateProperties.StopsAtFirstZero`).
  After such a failure an edge can lack its reverse
  (`RateProperties.FailedUpdateBreaksReciprocal`).
- Two currencies joined by one record are each an edge key of exactly one
  currency, so `alone_currency` reports both (`RateProperties.LinkedPairBothAlone`).
- `get_routes` (main.py:53-54) is a `pass` stub.

`Currency.Edges()` returns the edge map as a value. A later `SetRateTo` cannot
change a map already returned, which is what the source's `copy.copy`
guarantees. The currency's `name` is a `const` field, so no method can change it.

## Model

| member | source | states |
|---|---|---|
| `Rates.AddNode` | main.py:59-62 | a currency is added only when its name is missing; existing currencies keep their edge maps; a new one starts with no edges |
| `Rates.SetRate` | main.py:94-95 | writing `o -> d` sets that one edge to `w` and leaves every other edge of every currency as it was |
| `Rates.Forward` | main.py:59-65 | after creation and the forward write, the currencies are the old ones plus both endpoints, `origin -> dest` holds `rate`, and every other edge is unchanged |
| `Rates.ApplyRecord` | main.py:59-66 | a full record adds exactly its two endpoints as currencies |
| `Rates.Update` | main.py:56-66 | the fold completes iff no record has weight 0; otherwise it reports the index of the first zero-weight record |
| `RateProperties.StopsAtFirstZero` | main.py:65-66 | at the first zero weight, earlier records are fully applied, the failing record's creation and forward write are kept, and later records are ignored |
| `RateProperties.FailureStopsAt` | main.py:65-66 | a failed fold equals the completed fold of the records before the failing one, plus that record's forward write |
| `RateProperties.CompletedKeys` | main.py:57-62 | after a complete fold the currencies are the old ones plus every origin and destination of the records |
| `RateProperties.UpdateKeys` | main.py:57-62 | in every outcome the currencies are the old ones plus every endpoint of the records processed, including the failing one |
| `RateProperties.RecordEffect` | main.py:65-66 | one record changes exactly the pair it writes and its reverse, leaving its weight and reciprocal there |
| `RateProperties.LastRecordWins` | main.py:65-66 | in a fold with no zero weight, the last record touching `o -> d` decides its weight: `w` if it wrote `o -> d`, `1 / w` if it wrote `d -> o` or is the self-loop `(o, o, w)` |
| `RateProperties.UntouchedPairKept` | main.py:56-66 | in a fold with no zero weight, a pair no record touches keeps its old weight, or stays absent |
| `RateProperties.EdgeAfterUpdate` | main.py:56-66 | in a fold with no zero weight, a touched pair's weight after the fold does not depend on the starting graph; an untouched pair's weight is the starting one |
| `RateProperties.UpdateIdempotent` | main.py:56-66 | for records with no zero weight, applying the same records to the result a second time gives the same currencies and edge weights |
| `RateProperties.UpdatePreservesClosed` | main.py:59-66 | every edge target remains a currency, whether the fold completes or fails |
| `RateProperties.RecordPreservesReciprocal` | main.py:65-66 | one complete record keeps every edge paired with its reverse, with reciprocal weights between distinct currencies |
| `RateProperties.UpdatePreservesReciprocal` | main.py:56-66 | a complete fold keeps every edge paired with its reverse, with reciprocal weights between distinct currencies |
| `RateProperties.FailedUpdateBreaksReciprocal` | main.py:65-66 | a fold stopped by a zero weight can leave `USD -> EUR` without `EUR -> USD` |
| `RateProperties.AloneMeansOneEdge` | main.py:69-82 | on a closed reciprocal graph, a name is an edge key of exactly one currency iff it is a currency with exactly one edge |
| `RateProperties.LinkedPairBothAlone` | main.py:69-82 | two currencies joined by one record are both reported alone |
| `Exchange.Currency.constructor` | main.py:86-88 | a new currency has the given name and no edges |
| `Exchange.Currency.SetRateTo` | main.py:94-95 | afterwards the edge to `currency` holds `rate`; the key set gains only `currency`; every other edge keeps its weight |
| `Exchange.Currency.Edges` | main.py:100-102 | returns the current edge map, same keys and weights, as a value; later `SetRateTo` calls cannot change it |
| `Exchange.Currency.GetRateTo` | main.py:97-98 | returns the stored weight exactly when the edge exists, and `None` (the source's `KeyError`) otherwise |
| `Exchange.ExchangeGraph.constructor` | main.py:46-48 | the new graph has no currencies and satisfies both invariants |
| `Exchange.ExchangeGraph.GetCurrency` | main.py:50-51 | returns the currency filed under `name`, whose own name is `name`, exactly when it exists, and `None` (`KeyError`) otherwise |
| `Exchange.ExchangeGraph.AddCurrency` | main.py:59-62 | creates a fresh currency only for a missing name and never replaces an existing one |
| `Exchange.ExchangeGraph.WriteEdge` | main.py:65-66 | writing through the currency object filed under `o` changes only that currency's edge `o -> d` |
| `Exchange.ExchangeGraph.ApplyOne` | main.py:58-66 | one record leaves the graph as `ApplyRecord`, or as `Forward` and reports failure exactly when its weight is 0 |
| `Exchange.ExchangeGraph.UpdateRates` | main.py:56-66 | the new graph and status are those of `Update` on the old graph; existing currency objects are kept, new ones are fresh, names match keys, and a graph whose edge targets were all currencies stays so |
| `Exchange.ExchangeGraph.AloneCurrency` | main.py:69-82 | returns exactly the names that are an edge key of exactly one currency, and modifies nothing |
| `Exchange.CountAll` | main.py:73-77 | adds one to the count of each name in the given key set and leaves other counts unchanged |

## Left out

- `read_exchange_rates` (main.py:33-43) reads the file, matches each line
  against a pattern, exits on a bad line, and applies `math.log` to a
  `Decimal`. This is file I/O plus floating-point logarithms. The model takes
  already transformed weights as input.
- The 9-digit `decimal` context (main.py:17) is process-wide configuration.
  Floating-point rounding is abstracted to exact `real` arithmetic, so `1 / w`
  is exact and never overflows to infinity.
- `main`'s argument handling and usage text (main.py:15-31) are left out.
  So are the `print` calls in `alone_currency` (main.py:79, 82): the model
  returns the set instead of printing it.
- `get_routes` (main.py:53-54) is a `pass` stub, with no behaviour to model.
- `CURRENCY_NAMES` (main.py:11) is unused.
- `Exchange.ExchangeGraph.constructor` takes no records. `__init__` with
  records is the constructor followed by `UpdateRates`, because a Dafny
  constructor cannot report the `DivisionByZero` outcome.
- The order in which `alone_currency` visits currencies and edge keys is not
  modelled. The counts do not depend on it, and the model returns a set.
