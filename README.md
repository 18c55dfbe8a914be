# Exchange connectivity of the Quantum Arbitrage Engine, modelled in Dafny

This project models the bookkeeping around the engine's exchange connections:

- the settings lists of tracked symbols and enabled venues;
- the per-venue `ExchangeAdapter` and its connection state machine;
- the symbol-selection rule that picks what a venue streams;
- the two retry loops that forward tickers to a callback;
- the `ExchangeManager` registry;
- the startup step that builds each venue's credentials and registers it;
- the opportunity filter and the exchange-status listing of the HTTP API;
- the dashboard's WebSocket `ConnectionManager`.

The exchange library, the web framework and the sockets are foreign code. They become outcomes handed to the model:

- whether the venue is supported;
- whether building each client succeeds;
- whether loading the markets succeeds, times out or fails;
- one outcome per receive;
- an oracle that says which callback invocations raise;
- an oracle that says which client `close()` calls raise;
- whether the WebSocket accept succeeds;
- an oracle that says which sends fail.

Modules follow the source files:

- `Config` (`config.dfy`) covers `backend/core/config.py`.
- `SymbolSelection`, `TickerStreams` and `Adapter` (`symbol_selection.dfy`, `ticker_streams.dfy`, `adapter.dfy`) cover `backend/exchanges/adapter.py`.
- `App` (`app.dfy`) covers `backend/main.py`.
- `WsManager` (`ws_manager.dfy`) covers `backend/main_noworking.py`.
- `Text` and `Seqs` are the Python string and list operations that the others use: `str.strip`, `str.split`, `str.lower`, list comprehensions with `if`, slicing, `list.remove`.

The model takes the form of each source file:

- Objects whose fields the code assigns step by step are classes with `modifies` clauses: `ExchangeAdapter`, `ExchangeManager` and `ConnectionManager`.
- Loops are `while` loops with invariants, each proved against a specification function: the startup registration loop, `initialize_all`, `close_all`, the stream loops and both loops of `broadcast`.
- Comprehensions and slicing are functions.

The registry dictionary is its keys in insertion order plus the map itself. Python dictionaries keep insertion order, and `values()` and the status endpoint list adapters in that order.

The code has no duplicate-venue error, no failed or reconnecting state and no fan-out buffer:

- When no requested symbol is in the loaded catalogue, the adapter streams the first five requested symbols anyway.
- `add_exchange` silently replaces an adapter already registered under the same name.
- A stream error only logs, sleeps and retries.
- The per-symbol watchers beyond the fifth are dropped without a signal.
- The callback is awaited directly, and there is no drop counter.
- A callback that raises ends its batch: the rest of the batch's tickers never reach the callback, and the loop sleeps once (`RunDelivers` in general; `RaisingCallbackSkipsRest` is one example).
- A public close that raises ends `close()`, so the private handle of that adapter stays open.

## Model

| member | source | states |
|---|---|---|
| Seqs.Filter | backend/main.py:121 | a comprehension with `if` keeps a subsequence of its input, and every kept element passes the test |
| Seqs.FilterKeeps | backend/main.py:121 | the filter keeps every occurrence of an element that passes and none of one that fails |
| Seqs.FilterAppend | backend/core/config.py:81 | filtering a concatenation filters each part, in order |
| Seqs.Prefix | backend/exchanges/adapter.py:76 | `s[:n]` has `min(len(s), n)` elements, the first ones of `s` |
| Seqs.RemoveFirstCounts | backend/main_noworking.py:99-101 | of `RemoveFirst`: `remove` takes away exactly one copy of the element when it is there |
| Seqs.RemoveFirstAbsent | backend/main_noworking.py:99-101 | of `RemoveFirst`: removing an absent element changes nothing |
| Seqs.RemoveFirstAt | backend/main_noworking.py:99-101 | of `RemoveFirst`: removing an element deletes exactly its first position, and the rest keep their order |
| Text.Strip | backend/core/config.py:81 | `strip()` gives the part between leading and trailing whitespace: trimmed, and empty exactly when the text is all whitespace |
| Text.StripIdempotent | backend/core/config.py:81 | stripping twice is stripping once |
| Text.Split | backend/core/config.py:81 | `split(",")` gives one more piece than there are commas, the pieces contain no comma, and joining them with commas gives the text back |
| Text.SplitJoin | backend/core/config.py:81 | splitting a comma-join of comma-free pieces gives the pieces back |
| Text.Lower | backend/exchanges/adapter.py:25 | `lower()` keeps the length, leaves no capital letter, and changes a character exactly when it is a capital |
| Text.LowerFixed | backend/exchanges/adapter.py:25 | a name is left unchanged by `lower()` exactly when it has no capital letter |
| Text.LowerIdempotent | backend/exchanges/adapter.py:25 | lowering twice is lowering once |
| Config.DefaultSettings | backend/core/config.py:36-57 | with the defaults, every credential attribute read with `getattr(settings, attr, "")` gives `""`, and `getattr(settings, attr, None)` finds exactly the declared credential attributes |
| Config.ParseList | backend/core/config.py:80-85 | every parsed item is non-empty, comma-free and has no surrounding whitespace; there are at most commas + 1 items |
| Config.ParseAppend | backend/core/config.py:81 | the items of `a,b` are those of `a` followed by those of `b`, so the text's order is kept |
| Config.ParseJoin | backend/core/config.py:81 | writing well-formed items out with commas and parsing them gives the same list back |
| Config.ParseIdempotent | backend/core/config.py:81 | parsing the comma-join of a parsed list gives that list again |
| Config.ParseEmptyIffBlank | backend/core/config.py:81 | a setting parses to the empty list exactly when it holds only whitespace and commas |
| Config.SymbolsList | backend/core/config.py:79-81 | `symbols_list` holds only well-formed items |
| Config.ExchangesList | backend/core/config.py:83-85 | `exchanges_list` holds only well-formed items |
| Config.ParsePair | backend/core/config.py:81 | `first,second` parses to the two items |
| Config.DefaultLists | backend/core/config.py:74-85 | with the defaults, `symbols_list` is `["BTC/USDT", "ETH/USDT"]` and `exchanges_list` is `["binance", "kraken"]` |
| SymbolSelection.ValidSymbols | backend/exchanges/adapter.py:74-76 | the selection is the requested symbols that the catalogue lists, every occurrence and in request order; when none is listed it is the first `min(5, n)` requested; it is empty only when nothing is requested |
| SymbolSelection.Plan | backend/exchanges/adapter.py:79-89 | Bybit streams the first `min(10, n)` valid symbols in one batch; Kraken and MEXC start exactly `min(5, n)` single watchers; other venues stream the whole valid list in one batch |
| SymbolSelection.PlanIgnoresCase | backend/exchanges/adapter.py:79-82 | the venue name is compared without regard to case |
| SymbolSelection.PlanStreamsRequested | backend/exchanges/adapter.py:74-85 | every streamed symbol was requested, and it is a catalogue symbol whenever any requested symbol is one |
| SymbolSelection.PlanStreamsUnlisted | backend/exchanges/adapter.py:75-76 | when no requested symbol is listed, the first requested symbol is still streamed |
| TickerStreams.FirstRaise | backend/exchanges/adapter.py:94-95 | counts the callback invocations that return normally before the first one that raises |
| TickerStreams.Run | backend/exchanges/adapter.py:91-98 | over any sequence of receives, the loop sleeps at most once per receive and delivers no more tickers than it received |
| TickerStreams.RunDelivers | backend/exchanges/adapter.py:91-98 | with any callback, the tickers passed to it are received tickers in receive order; the loop sleeps once per failed receive plus once per batch cut short by a raising invocation; when no batch is cut short, every received ticker is passed on |
| TickerStreams.RaisingCallbackSkipsRest | backend/exchanges/adapter.py:94-98 | a single example, not an all-inputs property: a callback that raises on the second ticker of a batch of three gets the first two, and the loop sleeps once |
| TickerStreams.RunNoRaise | backend/exchanges/adapter.py:91-98 | with a callback that never raises, every received ticker reaches the callback exactly once, in receive and batch order, and the loop sleeps once per failed receive |
| TickerStreams.ErrorCostsOneSleep | backend/exchanges/adapter.py:96-98 | with any callback, a failed receive costs one sleep and nothing else: the run with it passes the same tickers to the callback as the run without it |
| TickerStreams.ErrorKeepsStreaming | backend/exchanges/adapter.py:96-98 | with a callback that never raises, a failed receive does not end the stream: the tickers received after it are still delivered, right after the earlier ones |
| TickerStreams.RaisingCallbackAfterError | backend/exchanges/adapter.py:94-98 | a single example, not an all-inputs property, showing that the condition above is needed: after a failed receive, a callback that raises on its first invocation loses the second ticker of the next batch |
| TickerStreams.RunExtends | backend/exchanges/adapter.py:91-98 | later receives only add callback invocations and sleeps and never undo earlier ones |
| TickerStreams.DeliverBatch | backend/exchanges/adapter.py:94-95 | the `for` loop over a batch passes its tickers in order and stops after the first invocation that raises |
| TickerStreams.StreamBatches | backend/exchanges/adapter.py:91-98 | the `while True` loop of `watch_tickers` computes the run of its receive outcomes |
| TickerStreams.TicksAsBatches | backend/exchanges/adapter.py:102-108 | seen as batches of one, the single receives carry exactly the tickers of the successful receives, in order |
| TickerStreams.SingleDeliversAll | backend/exchanges/adapter.py:102-108 | whatever the callback raises, the single-ticker loop delivers every received ticker once, in order |
| TickerStreams.StreamSingle | backend/exchanges/adapter.py:100-108 | the loop of `_watch_single_ticker` behaves as the batched loop over batches of one |
| Adapter.ConnectedAfter | backend/exchanges/adapter.py:36-67 | `is_connected` becomes true only through a successful market load; an unsupported venue leaves it unchanged; for a supported venue it ends true exactly when every client builds and the load succeeds |
| Adapter.ConnectMarkets | backend/exchanges/adapter.py:57-63 | of `MarketsAfter`: a connect that makes the adapter connected has loaded the markets, and `markets` is then the loaded catalogue; an adapter left disconnected keeps its markets; for a supported venue, ending connected is the same as a successful load that replaced the markets |
| Adapter.ExchangeAdapter.constructor | backend/exchanges/adapter.py:22-30 | a new adapter has no markets, no handles and is not connected; `use_private` holds exactly when `apiKey` and `secret` are both non-empty |
| Adapter.ExchangeAdapter.Connect | backend/exchanges/adapter.py:32-67 | an unsupported venue returns early and changes nothing; a public handle is built first; with credentials the private handle is a distinct new object, and without them it is the public handle itself; `is_connected` and `markets` end as the outcomes decide; the handle discipline is kept |
| Adapter.ExchangeAdapter.WatchTickers | backend/exchanges/adapter.py:69-89 | without a public handle, or when not connected, nothing is streamed; otherwise the selection rule decides |
| Adapter.ExchangeAdapter.Handles | backend/exchanges/adapter.py:110-114 | the handles `close()` closes when no close raises are the public one first, then the private one only if it is set and differs: no handle twice, none for a never-connected adapter |
| Adapter.ExchangeAdapter.ClosesStopAtRaise | backend/exchanges/adapter.py:110-114 | of `Closes`: the closes are a prefix of those handles: only the last close can raise, the list is cut short only by a raising close, and when no close raises every handle is closed |
| Adapter.ExchangeAdapter.Close | backend/exchanges/adapter.py:110-114 | `close()` closes those handles in that order, and a raising close ends it |
| Adapter.ExchangeAdapter.HandlesWhenConnected | backend/exchanges/adapter.py:47-54 | a connected adapter closes two distinct handles with credentials, and the one shared handle without them |
| Adapter.ExchangeManager.constructor | backend/exchanges/adapter.py:117-118 | the registry starts empty |
| Adapter.ExchangeManager.AddExchange | backend/exchanges/adapter.py:120-122 | `add_exchange` registers a new, unconnected adapter with the given config, no handles and no markets under the name; it replaces any adapter already there and keeps that key's place in insertion order; every other entry is left alone |
| Adapter.ExchangeManager.GetAdapter | backend/exchanges/adapter.py:128-129 | `get_adapter` returns the adapter registered under the name, whose own name is that name, or none exactly for an unknown name |
| Adapter.ExchangeManager.InitializeAll | backend/exchanges/adapter.py:124-126 | every registered adapter is connected once, whatever happened to the others; each ends with the connection flag and markets its own outcomes give, and with the handles its own `connect` leaves: the old ones for an unsupported venue or a public client that fails to build, otherwise a public handle plus a distinct private handle (credentials, private client built), the old private handle (credentials, private client not built) or the public handle again (no credentials) |
| Adapter.ExchangeManager.ListedEachOnce | backend/exchanges/adapter.py:135 | of `Listed`: `adapters.values()` lists every registered adapter exactly once, in insertion order |
| Adapter.ExchangeManager.CloseAll | backend/exchanges/adapter.py:134-136 | `close_all` closes every adapter in insertion order, each as far as its own `close()` gets; a raising close does not stop the other adapters' closes |
| Adapter.CloseEach | backend/exchanges/adapter.py:134-136 | the closes of the listed adapters, one adapter after another, each as far as its own `close()` gets |
| Adapter.HandlesOf | backend/exchanges/adapter.py:134-136 | closing n adapters closes at most 2n handles |
| Adapter.HandlesOfPrefix | backend/exchanges/adapter.py:134-136 | the closes of the adapters before the i-th, then that adapter's own, start the sequence of closes |
| App.ExchangeConfig | backend/main.py:60-68 | every assembled config has `apiKey` and `secret`, read by the lower-cased name and defaulting to `""`; it has `password` exactly when the passphrase attribute exists and is non-empty; it has no other key |
| App.PrivateIffCredentials | backend/main.py:61-64 | of `Adapter.UsePrivate`: the adapter built from an assembled config uses private access exactly when the settings hold both credentials for the venue |
| App.DefaultsArePublic | backend/main.py:62-63 | with no credentials configured, every venue gets a public-only adapter |
| App.ConfigIgnoresCase | backend/main.py:60 | settings are looked up by the lower-cased name, so the case of the venue name does not matter |
| App.AddNamesProperties | backend/main.py:59-70 | registering names in turn keeps the earlier keys first, lists each name once, and holds exactly the old and the new names |
| App.AssembleConfig | backend/main.py:60-68 | the loop body builds exactly the config described by `ExchangeConfig` |
| App.RegisterEnabled | backend/main.py:58-70 | the loop registers every enabled venue under its name as written, with an adapter built from that venue's own config, made new, unconnected, with no markets and no handles; a venue listed twice keeps its first place and gets the adapter of its last mention; the entries of venues outside the list are left alone |
| App.RegisterNext | backend/main.py:59-70 | one turn of the loop registers the next venue and keeps the earlier ones registered |
| App.AddVenue | backend/main.py:60-70 | the loop body hands the venue's config to `add_exchange`, which registers a new adapter built from it, unconnected and with no markets and no handles, and keeps every earlier venue registered |
| App.OnlyEnabled | backend/main.py:58-70 | after startup registration, every registered adapter belongs to an enabled venue |
| App.StartupEvent | backend/main.py:57-72 | after registration and `initialize_all`, each enabled venue is registered with its own config, uses private access exactly when it has credentials, and is connected exactly when its own connection succeeded, with the markets and handles its own `connect` gives a newly added adapter |
| App.ExchangesStatus | backend/main.py:139-145 | one entry per registered adapter in insertion order, with `connected = is_connected` and `private = use_private`; the listing names every registered venue exactly once and no other |
| App.GetOpportunities | backend/main.py:117-122 | exactly the opportunities with `net_profit_pct >= min_profit`, every occurrence and in the engine's order, along with their number |
| App.DefaultDropsLosses | backend/main.py:118-121 | with the default `min_profit` of 0.0, the listing holds exactly the opportunities that do not lose money |
| WsManager.DeadSelect | backend/main_noworking.py:104-110 | of `Dead`: the collected connections are a subsequence of the list, and every connection whose send failed is collected |
| WsManager.AliveSelect | backend/main_noworking.py:104-110 | of `Alive`: the connections whose send succeeded, a subsequence of the list that keeps every one of them |
| WsManager.RemoveEachCounts | backend/main_noworking.py:112-113 | disconnecting each dead connection takes away exactly one copy of each |
| WsManager.DeadAliveSplit | backend/main_noworking.py:106-110 | every connection's send either fails or succeeds, never both |
| WsManager.BroadcastCounts | backend/main_noworking.py:103-113 | of `AfterBroadcast`: after a broadcast the list holds exactly as many copies of each socket as had successful sends |
| WsManager.BroadcastKeepsAlive | backend/main_noworking.py:103-113 | with no socket registered twice, a broadcast leaves exactly the sockets whose send succeeded, in their original order |
| WsManager.ConnectionManager.constructor | backend/main_noworking.py:92-93 | the list of connections starts empty |
| WsManager.ConnectionManager.Connect | backend/main_noworking.py:95-97 | the socket is appended at the end once accepted, and existing entries are unchanged; an accept that raises leaves the list alone |
| WsManager.ConnectionManager.Disconnect | backend/main_noworking.py:99-101 | removes the first occurrence of a present socket and does nothing for an absent one |
| WsManager.ConnectionManager.Broadcast | backend/main_noworking.py:103-113 | sends once to every connection in list order, without changing the list while sending; then every failed connection goes through `disconnect` |
| WsManager.ConnectionManager.ServeMarket | backend/main_noworking.py:123-149 | the route connects, broadcasts once per round, and on the exception that ends it disconnects the socket |
| WsManager.RoundsOnlyShrink | backend/main_noworking.py:129-141 | broadcasts never add a connection |
| WsManager.ServeLeavesNoTrace | backend/main_noworking.py:126-149 | for a handler ended by an `Exception`, the registry afterwards holds no connection more often than before, and a socket that was not registered before is not registered after |

## Left out

- The exchange library (CCXT and CCXT.Pro): client construction, `load_markets`, `watch_tickers`/`watch_ticker` and `close` are foreign calls. They are replaced by outcomes: the set of venue ids the library supports, whether each client builds, and the result of the market load. A closed handle is reported by returning it.
- The client options: the public handle records its market type and the private handle records the config it was built from. The `enableRateLimit` flag and the copied dict are not modelled.
- `asyncio.wait_for`: the 15 second timeout of the market load is one more failed load outcome.
- `asyncio.sleep(5)`: each back-off sleep is counted rather than waited.
- `asyncio.gather` over the per-symbol watchers and over `close_all`'s closes: the watchers are modelled one at a time, not interleaved, and the closes run in sequence.
- Adapter.ExchangeManager.CloseAll: when a close raises, `gather` passes that first exception to its caller at once. It neither waits for nor cancels the other closes, which go on running un-awaited while the shutdown handler exits. The model returns every close attempted, as if each ran to its end, and does not model the exception or that timing.
- The concurrent WebSocket routes and their interleavings: each handler runs on its own against the registry.
- The `while True` loops run over a finite sequence of receive outcomes or broadcast rounds. The model does not cover a loop that never receives anything.
- The per-symbol fallback: the loop of each watcher is modelled (`StreamSingle`), but the wiring of up to five of them from `watch_tickers` is represented only by the plan.
- Logging and `print` have no effect on state and are not modelled.
- `asyncio.CancelledError` and other `BaseException`s that `except Exception` does not catch are not modelled. In the `/ws/market` handler, a cancelled `sleep(1)` skips both handlers, so `disconnect` is not called and the socket stays registered. `ServeMarket` and `ServeLeavesNoTrace` cover only handlers ended by an `Exception`.
- The `/ws/market` loop: the bare `except` in `broadcast` catches every failed send, including the handler's own socket's, so `WebSocketDisconnect` is never raised inside the loop. A departed client's socket is dropped by `broadcast`, and its handler keeps broadcasting until an exception from building the payload ends it. The model gives each handler a finite number of rounds.
- Text.Lower: only ASCII letters are lowered. Python's `str.lower()` also lowers other alphabets. This matters only for venue names outside ASCII.
- Settings values other than strings, pydantic's environment loading and `.env` files: the settings are the two list strings and a map of string-valued credential attributes.
- Config values are strings, so `Adapter.Truthy` treats a value as truthy when it is non-empty, which is Python's rule for strings. Other value types are not modelled.
- App.GetOpportunities: `net_profit_pct` is a real number. NaN, float rounding and a missing key are not modelled.
- `get_all_adapters` is not a separate member. It hands out the registry itself, which `ExchangesStatus` and `Listed` read directly.
- App.StartupEvent: it starts from the empty registry the module creates. It does not model the market data, portfolio, arbitrage and execution engine starts that follow `initialize_all`, because those engines are not part of this model.
- WsManager.ConnectionManager.Broadcast with a socket registered twice: the ensures gives the whole new list. Its simple description, the failed ones gone and the rest in order, is proved (`BroadcastKeepsAlive`) only for lists without duplicates. With duplicates, `remove` may drop an earlier copy than the one that failed.
- WsManager.ConnectionManager.ServeMarket: the message payload, `json.dumps` and the `sleep(1)` between rounds are not modelled. The data sources of the payload are outside this model.
- The demo metrics, health, root and price endpoints of `backend/main.py`, the shutdown handler's engine stops, and the HTTP plumbing of both application files are not modelled.
