/** The per-venue exchange adapter and the registry that holds one adapter per
    enabled venue. Client construction, market loading and closing belong to the
    exchange library; here they are outcomes handed to `Connect`, and closing a
    handle is reported as the handle being returned by `Close`. */
module Adapter {
  import opened Seqs
  import opened Text
  import opened SymbolSelection

  /** How a client handle was built: the public one from the configured market type
      (`type`, default `spot`), the private one from a copy of the whole config. Both
      have rate limiting switched on. */
  datatype ClientOptions = PublicOptions(defaultType: string) | PrivateOptions(config: map<string, string>)

  /** A client handle. Handles are compared by identity, as Python compares them. */
  class Client {
    const options: ClientOptions

    constructor (options: ClientOptions)
      ensures this.options == options
    {
      this.options := options;
    }
  }

  /** How `load_markets` ends: with the catalogue's symbols, by the 15 second
      timeout, or by any other exception. */
  datatype LoadOutcome = Loaded(markets: set<string>) | LoadTimedOut | LoadFailed

  /** What the exchange library does during one `connect`: whether building the
      public client and the private client succeeds, and how the market load ends. */
  datatype ConnectEnv = ConnectEnv(publicBuilds: bool, privateBuilds: bool, load: LoadOutcome)

  /** `config.get(key)` is a non-empty string. */
  predicate Truthy(config: map<string, string>, key: string)
  {
    key in config && config[key] != ""
  }

  /** `bool(config.get('apiKey') and config.get('secret'))`. */
  predicate UsePrivate(config: map<string, string>)
  {
    Truthy(config, "apiKey") && Truthy(config, "secret")
  }

  /** `config.get(key, default)`. */
  function ConfigGet(config: map<string, string>, key: string, default: string): string
  {
    if key in config then config[key] else default
  }

  /** `connect` reaches the market load: the venue is supported and every client it
      needs could be built. */
  predicate ReachesLoad(supported: bool, usePrivate: bool, env: ConnectEnv)
  {
    supported && env.publicBuilds && (usePrivate ==> env.privateBuilds)
  }

  /** `is_connected` after `connect`, from its value before. */
  function ConnectedAfter(wasConnected: bool, supported: bool, usePrivate: bool, env: ConnectEnv): (connected: bool)
    ensures connected && !wasConnected ==> supported && env.load.Loaded?
    ensures supported ==> (connected <==> ReachesLoad(supported, usePrivate, env) && env.load.Loaded?)
    ensures !supported ==> connected == wasConnected
  {
    if !supported then wasConnected
    else ReachesLoad(supported, usePrivate, env) && env.load.Loaded?
  }

  /** `markets` after `connect`, from its value before: replaced only by a load that
      succeeds. */
  function MarketsAfter(markets: set<string>, supported: bool, usePrivate: bool, env: ConnectEnv): (after: set<string>)
    ensures ReachesLoad(supported, usePrivate, env) && env.load.Loaded? ==> after == env.load.markets
    ensures !(ReachesLoad(supported, usePrivate, env) && env.load.Loaded?) ==> after == markets
  {
    if ReachesLoad(supported, usePrivate, env) && env.load.Loaded? then env.load.markets else markets
  }

  /** A `connect` that makes a disconnected adapter connected has loaded the markets,
      and the adapter's markets are then the loaded catalogue; an adapter left
      disconnected keeps the markets it had. */
  lemma ConnectMarkets(wasConnected: bool, markets: set<string>, supported: bool, usePrivate: bool, env: ConnectEnv)
    ensures ConnectedAfter(wasConnected, supported, usePrivate, env) && !wasConnected ==>
              env.load.Loaded? && MarketsAfter(markets, supported, usePrivate, env) == env.load.markets
    ensures !ConnectedAfter(wasConnected, supported, usePrivate, env) ==>
              MarketsAfter(markets, supported, usePrivate, env) == markets
    ensures supported ==>
              (ConnectedAfter(wasConnected, supported, usePrivate, env) <==>
               env.load.Loaded? && MarketsAfter(markets, supported, usePrivate, env) == env.load.markets
               && ReachesLoad(supported, usePrivate, env))
  {
  }

  class ExchangeAdapter {
    const name: string
    const config: map<string, string>
    var markets: set<string>
    var client: Client?
    var publicClient: Client?
    var isConnected: bool

    /** `exchange_id`: the lower-cased venue name, under which the library knows the
        venue. */
    function ExchangeId(): string
    {
      Lower(name)
    }

    /** `use_private`: both an API key and a secret are configured. */
    predicate UsesPrivate()
    {
      UsePrivate(config)
    }

    /** The handle discipline `connect` keeps: the public handle comes first and is
        built from the market type; with credentials the private handle is its own
        object built from the config, without them it is the public handle itself;
        a connected adapter has both. */
    ghost predicate Valid()
      reads this
    {
      && (client != null ==> publicClient != null)
      && (isConnected ==> client != null)
      && (publicClient != null ==> publicClient.options == PublicOptions(ConfigGet(config, "type", "spot")))
      && (client != null && UsesPrivate() ==> client.options == PrivateOptions(config))
      && (client != null && !UsesPrivate() ==> client == publicClient)
    }

    /** `ExchangeAdapter(name, config)`: not connected, no handles, no markets, and
        private access exactly when both an API key and a secret are configured. */
    constructor (name: string, config: map<string, string>)
      ensures Valid()
      ensures this.name == name && this.config == config
      ensures markets == {} && client == null && publicClient == null && !isConnected
    {
      this.name := name;
      this.config := config;
      markets := {};
      client := null;
      publicClient := null;
      isConnected := false;
    }

    /** `connect()`. An unsupported venue changes nothing. Otherwise a public handle
        is built, then the private handle (with credentials) or the public handle
        reused (without), then the markets are loaded; any failure on the way leaves
        the adapter disconnected, with the fields set so far kept. */
    method Connect(library: set<string>, env: ConnectEnv)
      modifies this
      ensures old(Valid()) ==> Valid()
      ensures ExchangeId() !in library ==>
                publicClient == old(publicClient) && client == old(client)
      ensures ExchangeId() in library && !env.publicBuilds ==>
                publicClient == old(publicClient) && client == old(client)
      ensures ExchangeId() in library && env.publicBuilds ==> publicClient != null && fresh(publicClient)
      ensures ExchangeId() in library && env.publicBuilds && UsesPrivate() && env.privateBuilds ==>
                client != null && fresh(client) && client != publicClient
      ensures ExchangeId() in library && env.publicBuilds && UsesPrivate() && !env.privateBuilds ==>
                client == old(client)
      ensures ExchangeId() in library && env.publicBuilds && !UsesPrivate() ==> client == publicClient
      ensures isConnected == ConnectedAfter(old(isConnected), ExchangeId() in library, UsesPrivate(), env)
      ensures markets == MarketsAfter(old(markets), ExchangeId() in library, UsesPrivate(), env)
    {
      if ExchangeId() !in library {
        return;
      }
      if !env.publicBuilds {
        isConnected := false;
        return;
      }
      publicClient := new Client(PublicOptions(ConfigGet(config, "type", "spot")));
      if UsesPrivate() {
        if !env.privateBuilds {
          isConnected := false;
          return;
        }
        client := new Client(PrivateOptions(config));
      } else {
        client := publicClient;
      }
      match env.load {
        case Loaded(m) =>
          markets := m;
          isConnected := true;
        case LoadTimedOut =>
          isConnected := false;
        case LoadFailed =>
          isConnected := false;
      }
    }

    /** The state `connect` leaves from `wasConnected`, `markets0` and the handles
        `public0` and `client0`, with the handle discipline kept if it held before:
        the handles are kept unless the venue is supported and its public client
        builds; then there is a public handle, and the other handle is a distinct one
        with credentials whose client builds, the old one with credentials whose
        client does not, and the public handle itself without credentials. */
    ghost predicate ConnectedFrom(wasConnected: bool, markets0: set<string>, public0: Client?, client0: Client?,
                                  wasValid: bool, library: set<string>, env: ConnectEnv)
      reads this
    {
      var builds := ExchangeId() in library && env.publicBuilds;
      && isConnected == ConnectedAfter(wasConnected, ExchangeId() in library, UsesPrivate(), env)
      && markets == MarketsAfter(markets0, ExchangeId() in library, UsesPrivate(), env)
      && (!builds ==> publicClient == public0 && client == client0)
      && (builds ==> publicClient != null)
      && (builds && UsesPrivate() && env.privateBuilds ==> client != null && client != publicClient)
      && (builds && UsesPrivate() && !env.privateBuilds ==> client == client0)
      && (builds && !UsesPrivate() ==> client == publicClient)
      && (wasValid ==> Valid())
    }

    /** `watch_tickers(symbols, callback)` up to the start of streaming: what it starts,
        which is nothing unless the adapter has a public handle and is connected. */
    method WatchTickers(symbols: seq<string>) returns (plan: StreamPlan)
      ensures publicClient == null || !isConnected ==> plan == NoStream
      ensures publicClient != null && isConnected ==> plan == Plan(name, symbols, markets)
    {
      if publicClient == null || !isConnected {
        return NoStream;
      }
      plan := Plan(name, symbols, markets);
    }

    /** The handles `close()` closes, in order. */
    function Handles(): (hs: seq<Client>)
      reads this
      ensures |hs| <= 2 && (|hs| == 2 ==> hs[0] != hs[1])
      ensures forall i :: 0 <= i < |hs| ==> hs[i] == publicClient || hs[i] == client
      ensures publicClient != null ==> publicClient in hs
      ensures client != null ==> client in hs
      ensures publicClient != null ==> hs[0] == publicClient
      ensures publicClient == null && client == null ==> hs == []
    {
      (if publicClient != null then [publicClient] else [])
        + (if client != null && client != publicClient then [client] else [])
    }

    /** The handles `close()` closes when closing handle `h` raises exactly when
        `raises(h)`: those of `Handles()`, except that a raising close of the
        public handle ends the method before the other handle is closed. */
    function Closes(raises: Client -> bool): seq<Client>
      reads this
    {
      if publicClient != null && raises(publicClient) then [publicClient] else Handles()
    }

    /** The closes are those of `Handles()` up to the first that raises: every close
        but the last succeeds, the handles are cut short only by a raising close,
        and when no close raises every handle is closed. */
    lemma ClosesStopAtRaise(raises: Client -> bool)
      ensures Closes(raises) <= Handles()
      ensures forall i :: 0 <= i < |Closes(raises)| - 1 ==> !raises(Closes(raises)[i])
      ensures |Closes(raises)| < |Handles()| ==>
                Closes(raises) != [] && raises(Closes(raises)[|Closes(raises)| - 1])
      ensures (forall i :: 0 <= i < |Handles()| ==> !raises(Handles()[i])) ==>
                Closes(raises) == Handles()
    {
    }

    /** `close()`: closes the public handle if there is one, and the other handle only
        if it is set and is not the public one, so no handle is closed twice. A close
        that raises ends the method. */
    method Close(raises: Client -> bool) returns (closed: seq<Client>)
      ensures closed == Closes(raises)
    {
      closed := [];
      if publicClient != null {
        closed := closed + [publicClient];
        if raises(publicClient) {
          return;
        }
      }
      if client != null && client != publicClient {
        closed := closed + [client];
      }
    }

    /** A connected adapter closes two distinct handles with credentials and just the
        shared one without. */
    lemma HandlesWhenConnected()
      requires Valid() && isConnected
      ensures UsesPrivate() ==> |Handles()| == 2
      ensures !UsesPrivate() ==> Handles() == [publicClient]
    {
      if UsesPrivate() {
        assert client != publicClient;
      }
    }
  }

  /** The registry `ExchangeManager.adapters`: a dictionary from venue name to adapter,
      kept here as its keys in insertion order and the map itself. */
  class ExchangeManager {
    var names: seq<string>
    var adapters: map<string, ExchangeAdapter>

    /** The keys are the registered names, listed once each, and each adapter is
        registered under its own name. */
    ghost predicate Valid()
      reads this
    {
      && Distinct(names)
      && (forall n :: n in adapters <==> n in names)
      && (forall n :: n in adapters ==> adapters[n].name == n)
    }

    constructor ()
      ensures Valid() && names == [] && adapters == map[]
    {
      names := [];
      adapters := map[];
    }

    /** `add_exchange(name, config)`: a new, unconnected adapter under `name`,
        replacing any adapter already there but keeping that key's place in
        insertion order; every other entry is left alone. */
    method AddExchange(name: string, config: map<string, string>)
      requires Valid()
      modifies this
      ensures Valid()
      ensures names == if name in old(names) then old(names) else old(names) + [name]
      ensures adapters.Keys == old(adapters).Keys + {name}
      ensures fresh(adapters[name]) && adapters[name].Valid()
      ensures adapters[name].config == config && !adapters[name].isConnected
      ensures adapters[name].publicClient == null && adapters[name].client == null
      ensures adapters[name].markets == {}
      ensures forall n :: n in old(adapters) && n != name ==> adapters[n] == old(adapters)[n]
    {
      var adapter := new ExchangeAdapter(name, config);
      if name !in names {
        names := names + [name];
      }
      adapters := adapters[name := adapter];
    }

    /** `get_adapter(name)`: the adapter registered under `name`, or none. */
    function GetAdapter(name: string): (a: ExchangeAdapter?)
      reads this
      ensures a != null <==> name in adapters
      ensures a != null ==> a == adapters[name]
      ensures Valid() && a != null ==> a.name == name
    {
      if name in adapters then adapters[name] else null
    }

    /** `initialize_all()`: connects every adapter in insertion order. `connect` lets no
        exception out, so each adapter ends in the state its own outcomes give,
        whatever happened to the others. */
    method InitializeAll(library: set<string>, envs: string -> ConnectEnv)
      requires Valid()
      modifies adapters.Values
      ensures Valid()
      ensures forall n :: n in adapters ==>
                adapters[n].ConnectedFrom(old(adapters[n].isConnected), old(adapters[n].markets),
                                          old(adapters[n].publicClient), old(adapters[n].client),
                                          old(adapters[n].Valid()), library, envs(n))
    {
      var i := 0;
      while i < |names|
        invariant i <= |names|
        invariant Valid()
        invariant forall k :: 0 <= k < i ==>
                    adapters[names[k]].ConnectedFrom(old(adapters[names[k]].isConnected), old(adapters[names[k]].markets),
                                                     old(adapters[names[k]].publicClient), old(adapters[names[k]].client),
                                                     old(adapters[names[k]].Valid()), library, envs(names[k]))
        invariant forall k :: i <= k < |names| ==> unchanged(adapters[names[k]])
      {
        var a := adapters[names[i]];
        a.Connect(library, envs(names[i]));
        i := i + 1;
      }
      forall n | n in adapters
        ensures adapters[n].ConnectedFrom(old(adapters[n].isConnected), old(adapters[n].markets),
                                          old(adapters[n].publicClient), old(adapters[n].client),
                                          old(adapters[n].Valid()), library, envs(n))
      {
        var k := IndexOf(names, n);
      }
    }

    /** The registered adapters, in insertion order (`adapters.values()`). */
    function Listed(): (r: seq<ExchangeAdapter>)
      reads this
      requires forall n :: n in names ==> n in adapters
      ensures |r| == |names|
      ensures forall i :: 0 <= i < |r| ==> r[i] == adapters[names[i]]
    {
      seq(|names|, i requires 0 <= i < |names| && names[i] in adapters reads this => adapters[names[i]])
    }

    /** `adapters.values()` lists every registered adapter exactly once. */
    lemma ListedEachOnce()
      requires Valid()
      ensures Distinct(Listed())
      ensures forall n :: n in adapters ==> adapters[n] in Listed()
    {
      var r := Listed();
      forall n | n in adapters
        ensures adapters[n] in r
      {
        var k := IndexOf(names, n);
        assert r[k] == adapters[n];
      }
    }

    /** `close_all()`: closes every adapter, in insertion order. An adapter whose
        close raises does not stop the others: `gather` has started them all. */
    method CloseAll(raises: Client -> bool) returns (closed: seq<Client>)
      requires Valid()
      ensures closed == HandlesOf(Listed(), raises)
    {
      closed := CloseEach(Listed(), raises);
    }
  }

  /** The closes `gather` runs for `close_all`, one adapter after another. */
  method CloseEach(ads: seq<ExchangeAdapter>, raises: Client -> bool) returns (closed: seq<Client>)
    ensures closed == HandlesOf(ads, raises)
  {
    closed := [];
    var i := 0;
    while i < |ads|
      invariant i <= |ads|
      invariant closed == HandlesOf(ads[..i], raises)
    {
      var more := ads[i].Close(raises);
      HandlesOfSnoc(ads, i, raises);
      closed := closed + more;
      i := i + 1;
    }
    assert ads[..i] == ads;
  }

  /** The handles closing the adapters `ads` closes, adapter by adapter. */
  function HandlesOf(ads: seq<ExchangeAdapter>, raises: Client -> bool): (hs: seq<Client>)
    reads ads
    ensures |hs| <= 2 * |ads|
  {
    if ads == [] then [] else HandlesOf(ads[..|ads| - 1], raises) + ads[|ads| - 1].Closes(raises)
  }

  /** Closing one more adapter appends its closes. */
  lemma HandlesOfSnoc(ads: seq<ExchangeAdapter>, i: nat, raises: Client -> bool)
    requires i < |ads|
    ensures HandlesOf(ads[..i + 1], raises) == HandlesOf(ads[..i], raises) + ads[i].Closes(raises)
  {
    assert ads[..i + 1][..i] == ads[..i];
  }

  /** Closing the adapters `ads` closes the handles of each adapter in turn: those of
      the adapters before the `i`-th and then its own start the sequence of closes. */
  lemma {:induction false} HandlesOfPrefix(ads: seq<ExchangeAdapter>, i: nat, raises: Client -> bool)
    requires i < |ads|
    ensures HandlesOf(ads[..i], raises) + ads[i].Closes(raises) <= HandlesOf(ads, raises)
  {
    var k := |ads| - 1;
    var init := ads[..k];
    assert HandlesOf(ads, raises) == HandlesOf(init, raises) + ads[k].Closes(raises);
    if i == k {
      assert init == ads[..i];
    } else {
      assert init[..i] == ads[..i] && init[i] == ads[i];
      HandlesOfPrefix(init, i, raises);
      PrefixExtend(HandlesOf(ads[..i], raises) + ads[i].Closes(raises), HandlesOf(init, raises), ads[k].Closes(raises));
    }
  }
}
