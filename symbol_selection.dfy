/** The symbol-selection rule of `ExchangeAdapter.watch_tickers`: which symbols a venue
    streams, and whether it streams them in one batched watcher or one watcher per
    symbol. */
module SymbolSelection {
  import opened Seqs
  import opened Text

  /** What `watch_tickers` starts: nothing, one batched stream over `symbols`, or one
      single-ticker stream per symbol. */
  datatype StreamPlan = NoStream | Batched(symbols: seq<string>) | PerSymbol(symbols: seq<string>)

  /** The venues that allow at most ten symbols per batched call. */
  predicate CapsAtTen(name: string)
  {
    Lower(name) == "bybit"
  }

  /** The venues that have no batched call and fall back to single-ticker watchers. */
  predicate WatchesSingly(name: string)
  {
    Lower(name) == "kraken" || Lower(name) == "mexc"
  }

  function Min(a: nat, b: nat): nat
  {
    if a < b then a else b
  }

  /** The requested symbols the loaded catalogue lists, in request order; when there
      are none, the first five requested symbols, listed or not. */
  function ValidSymbols(symbols: seq<string>, markets: set<string>): (valid: seq<string>)
    ensures IsSubsequence(valid, symbols)
    ensures (exists i :: 0 <= i < |symbols| && symbols[i] in markets) ==>
              (forall s :: multiset(valid)[s] == if s in markets then multiset(symbols)[s] else 0)
    ensures (forall i :: 0 <= i < |symbols| ==> symbols[i] !in markets) ==>
              |valid| == Min(|symbols|, 5) && forall i :: 0 <= i < |valid| ==> valid[i] == symbols[i]
    ensures valid == [] <==> symbols == []
  {
    var listed := Filter(s => s in markets, symbols);
    FilterKeeps(s => s in markets, symbols);
    if listed != [] then
      listed
    else
      assert forall i :: 0 <= i < |symbols| ==> symbols[i] !in markets by {
        forall i | 0 <= i < |symbols| ensures symbols[i] !in markets {
          assert symbols[i] in symbols;
        }
      }
      PrefixIsSubsequence(symbols, 5);
      Prefix(symbols, 5)
  }

  /** The selection rule for a connected venue: Bybit streams at most ten of the valid
      symbols in one batch, Kraken and MEXC start one watcher for each of at most five,
      and every other venue streams the whole valid list in one batch. */
  function Plan(name: string, symbols: seq<string>, markets: set<string>): (plan: StreamPlan)
    ensures !plan.NoStream?
    ensures plan.PerSymbol? <==> WatchesSingly(name)
    ensures CapsAtTen(name) ==>
              |plan.symbols| == Min(|ValidSymbols(symbols, markets)|, 10)
    ensures WatchesSingly(name) ==>
              |plan.symbols| == Min(|ValidSymbols(symbols, markets)|, 5)
    ensures !CapsAtTen(name) && !WatchesSingly(name) ==>
              plan.symbols == ValidSymbols(symbols, markets)
    ensures forall i :: 0 <= i < |plan.symbols| ==> plan.symbols[i] == ValidSymbols(symbols, markets)[i]
  {
    var valid := ValidSymbols(symbols, markets);
    if CapsAtTen(name) then Batched(Prefix(valid, 10))
    else if WatchesSingly(name) then PerSymbol(Prefix(valid, 5))
    else Batched(valid)
  }

  /** The venue name is compared without regard to case. */
  lemma PlanIgnoresCase(name: string, symbols: seq<string>, markets: set<string>)
    ensures Plan(name, symbols, markets) == Plan(Lower(name), symbols, markets)
  {
    LowerIdempotent(name);
  }

  /** Every streamed symbol was requested, and it is a catalogue symbol unless none of
      the requested symbols is one. */
  lemma PlanStreamsRequested(name: string, symbols: seq<string>, markets: set<string>, i: nat)
    requires i < |Plan(name, symbols, markets).symbols|
    ensures Plan(name, symbols, markets).symbols[i] in symbols
    ensures (exists j :: 0 <= j < |symbols| && symbols[j] in markets) ==>
              Plan(name, symbols, markets).symbols[i] in markets
  {
    var valid := ValidSymbols(symbols, markets);
    var s := valid[i];
    assert s in valid;
    SubsequenceLength(valid, symbols);
    if exists j :: 0 <= j < |symbols| && symbols[j] in markets {
      assert multiset(valid)[s] > 0;
    }
  }

  /** When none of the requested symbols is listed, the venue still streams the first
      requested symbol, which the catalogue does not know. */
  lemma PlanStreamsUnlisted(name: string, symbols: seq<string>, markets: set<string>)
    requires symbols != [] && forall i :: 0 <= i < |symbols| ==> symbols[i] !in markets
    ensures Plan(name, symbols, markets).symbols != []
    ensures Plan(name, symbols, markets).symbols[0] !in markets
  {
  }
}
