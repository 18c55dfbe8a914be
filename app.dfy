/** The application layer: the startup step that registers one adapter per enabled
    venue with the credentials the settings hold for it, the opportunities endpoint's
    profit filter, and the exchange status endpoint. */
module App {
  import opened Seqs
  import opened Text
  import opened Config
  import opened Adapter

  /** The settings attribute holding `suffix` for venue `name`: the lower-cased name,
      followed by the suffix. */
  function Attribute(name: string, suffix: string): string
  {
    Lower(name) + suffix
  }

  /** The config dict startup builds for venue `name`: `apiKey` and `secret` always,
      read from the settings and empty when the settings have no such attribute, and
      `password` exactly when the venue's passphrase attribute exists and is not
      empty. */
  function ExchangeConfig(st: Settings, name: string): (config: map<string, string>)
    ensures config.Keys <= {"apiKey", "secret", "password"}
    ensures var key := Attribute(name, "_api_key");
              "apiKey" in config && config["apiKey"] == if key in st.fields then st.fields[key] else ""
    ensures var secret := Attribute(name, "_api_secret");
              "secret" in config && config["secret"] == if secret in st.fields then st.fields[secret] else ""
    ensures "password" in config <==>
              Attribute(name, "_passphrase") in st.fields && st.fields[Attribute(name, "_passphrase")] != ""
    ensures "password" in config ==> config["password"] == st.fields[Attribute(name, "_passphrase")]
  {
    var config := map["apiKey" := GetAttr(st, Attribute(name, "_api_key"), ""),
                      "secret" := GetAttr(st, Attribute(name, "_api_secret"), "")];
    var passphrase := GetAttrOrNone(st, Attribute(name, "_passphrase"));
    if passphrase.Some? && passphrase.value != "" then config["password" := passphrase.value] else config
  }

  /** The venue has a non-empty API key and a non-empty secret in the settings. */
  predicate HasCredentials(st: Settings, name: string)
  {
    GetAttr(st, Attribute(name, "_api_key"), "") != "" && GetAttr(st, Attribute(name, "_api_secret"), "") != ""
  }

  /** The adapter built from a venue's assembled config uses private access exactly
      when the settings hold both credentials for it. */
  lemma PrivateIffCredentials(st: Settings, name: string)
    ensures UsePrivate(ExchangeConfig(st, name)) <==> HasCredentials(st, name)
  {
    var config := ExchangeConfig(st, name);
    assert Truthy(config, "apiKey") <==> GetAttr(st, Attribute(name, "_api_key"), "") != "";
  }

  /** With no credentials configured, every venue gets a public-only adapter. */
  lemma DefaultsArePublic(name: string)
    ensures !UsePrivate(ExchangeConfig(DefaultSettings(), name))
  {
    var st := DefaultSettings();
    PrivateIffCredentials(st, name);
    var key := Attribute(name, "_api_key");
    assert key in st.fields ==> st.fields[key] == "";
  }

  /** Credentials are looked up by the lower-cased venue name, so the case in which a
      venue is written does not matter. */
  lemma ConfigIgnoresCase(st: Settings, name: string)
    ensures ExchangeConfig(st, name) == ExchangeConfig(st, Lower(name))
  {
    LowerIdempotent(name);
  }

  /** Registering the first `i` names of `xs` after `ns`: a name not yet present is
      added at the end, one already present keeps its place. */
  function AddNames(ns: seq<string>, xs: seq<string>, i: nat): seq<string>
    requires i <= |xs|
  {
    if i == 0 then ns
    else
      var acc := AddNames(ns, xs, i - 1);
      if xs[i - 1] in acc then acc else acc + [xs[i - 1]]
  }

  /** Registering keeps the earlier names first, adds each new name once and nothing
      else. */
  lemma {:induction false} AddNamesProperties(ns: seq<string>, xs: seq<string>, i: nat)
    requires Distinct(ns) && i <= |xs|
    ensures ns <= AddNames(ns, xs, i)
    ensures Distinct(AddNames(ns, xs, i))
    ensures forall n :: n in AddNames(ns, xs, i) <==> n in ns || n in xs[..i]
  {
    if i > 0 {
      AddNamesProperties(ns, xs, i - 1);
      assert xs[..i] == xs[..i - 1] + [xs[i - 1]];
    }
  }

  /** The body of `startup_event`'s loop up to `add_exchange`: the config dict of
      venue `name`, built entry by entry. */
  method AssembleConfig(st: Settings, name: string) returns (config: map<string, string>)
    ensures config == ExchangeConfig(st, name)
  {
    var nameLower := Lower(name);
    config := map["apiKey" := GetAttr(st, nameLower + "_api_key", ""),
                  "secret" := GetAttr(st, nameLower + "_api_secret", "")];
    var passphrase := GetAttrOrNone(st, nameLower + "_passphrase");
    if passphrase.Some? && passphrase.value != "" {
      config := config["password" := passphrase.value];
    }
  }

  /** The loop of `startup_event` over the enabled venues: each venue's config dict is
      handed to `add_exchange` under the name as written. `made[k]` is the adapter the
      `k`-th turn creates, new, unconnected, without markets or handles and built from
      that venue's config; a venue ends registered with the adapter of its last
      mention (and, in the names, at the place of its first). */
  method RegisterEnabled(st: Settings, enabled: seq<string>, manager: ExchangeManager)
    returns (ghost made: seq<ExchangeAdapter>)
    requires manager.Valid()
    modifies manager
    ensures manager.Valid()
    ensures manager.names == AddNames(old(manager.names), enabled, |enabled|)
    ensures forall k :: 0 <= k < |made| ==>
              && fresh(made[k]) && !made[k].isConnected && made[k].markets == {}
              && made[k].publicClient == null && made[k].client == null
    ensures ConfiguredFrom(manager.adapters, enabled, |enabled|, st, made)
    ensures Untouched(old(manager.adapters), manager.adapters, enabled)
  {
    made := [];
    ghost var ns := manager.names;
    ghost var before := manager.adapters;
    var i := 0;
    while i < |enabled|
      invariant Registering(manager, ns, enabled, i, st, made, before)
      invariant forall k :: 0 <= k < |made| ==> fresh(made[k])
    {
      ghost var earlier := made;
      made := RegisterNext(st, enabled, i, manager, ns, made, before);
      i := i + 1;
    }
  }

  /** One turn of the loop of `startup_event`: registers the `i`-th enabled venue and
      records the adapter made for it. */
  method RegisterNext(st: Settings, enabled: seq<string>, i: nat, manager: ExchangeManager,
                      ghost ns: seq<string>, ghost made: seq<ExchangeAdapter>,
                      ghost before: map<string, ExchangeAdapter>)
    returns (ghost made': seq<ExchangeAdapter>)
    requires i < |enabled| && Registering(manager, ns, enabled, i, st, made, before)
    modifies manager
    ensures Registering(manager, ns, enabled, i + 1, st, made', before)
    ensures made' == made + [made'[i]] && fresh(made'[i])
  {
    ghost var adapter := AddVenue(st, enabled, i, manager, ns, made);
    AsAddedSnoc(made, adapter);
    made' := made + [adapter];
  }

  /** The config dict of the `i`-th enabled venue handed to `add_exchange`, which
      registers the new, unconnected `adapter` for it. */
  method AddVenue(st: Settings, enabled: seq<string>, i: nat, manager: ExchangeManager,
                  ghost ns: seq<string>, ghost made: seq<ExchangeAdapter>)
    returns (ghost adapter: ExchangeAdapter)
    requires i < |enabled| && manager.Valid()
    requires manager.names == AddNames(ns, enabled, i)
    requires ConfiguredFrom(manager.adapters, enabled, i, st, made)
    modifies manager
    ensures manager.Valid()
    ensures manager.names == AddNames(ns, enabled, i + 1)
    ensures ConfiguredFrom(manager.adapters, enabled, i + 1, st, made + [adapter])
    ensures fresh(adapter) && AsAdded(adapter)
    ensures forall n :: n in old(manager.adapters) && n != enabled[i] ==>
              n in manager.adapters && manager.adapters[n] == old(manager.adapters)[n]
  {
    var name := enabled[i];
    var config := AssembleConfig(st, name);
    ghost var before := manager.adapters;
    manager.AddExchange(name, config);
    ConfiguredStep(before, manager.adapters, enabled, i, st, made);
    adapter := manager.adapters[name];
  }

  /** An adapter as added, appended to adapters as added, leaves all of them as added. */
  lemma AsAddedSnoc(made: seq<ExchangeAdapter>, adapter: ExchangeAdapter)
    requires AllAsAdded(made) && AsAdded(adapter)
    ensures AllAsAdded(made + [adapter])
  {
    forall k | 0 <= k < |made| + 1
      ensures AsAdded((made + [adapter])[k])
    {
      if k < |made| {
        assert (made + [adapter])[k] == made[k];
      }
    }
  }

  /** The registry after the first `i` turns of the loop over `enabled`, started
      with the names `ns` and the entries `before`: the turns made `made`. */
  ghost predicate Registering(manager: ExchangeManager, ns: seq<string>, enabled: seq<string>, i: nat,
                              st: Settings, made: seq<ExchangeAdapter>, before: map<string, ExchangeAdapter>)
    reads manager, made
  {
    && i <= |enabled| && manager.Valid()
    && manager.names == AddNames(ns, enabled, i)
    && AllAsAdded(made)
    && ConfiguredFrom(manager.adapters, enabled, i, st, made)
    && Untouched(before, manager.adapters, enabled)
  }

  /** The entries of `before` for venues outside `enabled` are still in `now`. */
  ghost predicate Untouched(before: map<string, ExchangeAdapter>, now: map<string, ExchangeAdapter>, enabled: seq<string>)
  {
    forall n :: n in before && n !in enabled ==> n in now && now[n] == before[n]
  }

  /** The state `add_exchange` leaves a new adapter in: not connected, with no
      markets and no handles. */
  predicate AsAdded(a: ExchangeAdapter)
    reads a
  {
    !a.isConnected && a.markets == {} && a.publicClient == null && a.client == null
  }

  /** Every one of `made` is as added. */
  predicate AllAsAdded(made: seq<ExchangeAdapter>)
    reads made
  {
    forall k :: 0 <= k < |made| ==> AsAdded(made[k])
  }

  /** No venue after the `k`-th and before the `i`-th is the `k`-th again. */
  predicate LastMention(enabled: seq<string>, k: nat, i: nat)
    requires k < i <= |enabled|
  {
    forall j :: k < j < i ==> enabled[j] != enabled[k]
  }

  /** The first `i` turns of the loop made `made`, one adapter per turn from its own
      venue's config; every one of the first `i` venues is registered with an adapter
      built from its config: the one made at its last mention. */
  ghost predicate ConfiguredFrom(adapters: map<string, ExchangeAdapter>, enabled: seq<string>, i: nat,
                                 st: Settings, made: seq<ExchangeAdapter>)
  {
    && i <= |enabled| && |made| == i
    && forall k {:trigger made[k]} :: 0 <= k < i ==>
         && made[k].config == ExchangeConfig(st, enabled[k])
         && enabled[k] in adapters
         && adapters[enabled[k]].config == ExchangeConfig(st, enabled[k])
         && (LastMention(enabled, k, i) ==> adapters[enabled[k]] == made[k])
  }

  /** Registering the next enabled venue keeps the earlier ones registered. */
  lemma ConfiguredStep(before: map<string, ExchangeAdapter>, after: map<string, ExchangeAdapter>,
                       enabled: seq<string>, i: nat, st: Settings, made: seq<ExchangeAdapter>)
    requires i < |enabled| && ConfiguredFrom(before, enabled, i, st, made)
    requires enabled[i] in after && after[enabled[i]].config == ExchangeConfig(st, enabled[i])
    requires forall n :: n in before && n != enabled[i] ==> n in after && after[n] == before[n]
    ensures ConfiguredFrom(after, enabled, i + 1, st, made + [after[enabled[i]]])
  {
    var made' := made + [after[enabled[i]]];
    forall k | 0 <= k < i + 1
      ensures made'[k].config == ExchangeConfig(st, enabled[k])
      ensures enabled[k] in after && after[enabled[k]].config == ExchangeConfig(st, enabled[k])
      ensures LastMention(enabled, k, i + 1) ==> after[enabled[k]] == made'[k]
    {
      if k < i {
        assert made'[k] == made[k];
        assert made[k].config == ExchangeConfig(st, enabled[k]) && enabled[k] in before;
        if LastMention(enabled, k, i + 1) {
          assert enabled[i] != enabled[k];
          assert LastMention(enabled, k, i);
        }
      }
    }
  }

  /** `startup_event` up to the connection of the venues, on the empty registry the
      application starts with: registers the enabled venues, then connects every
      registered adapter. Each enabled venue ends connected exactly when its own
      connection succeeded, with the markets and handles its own `connect` gives an
      adapter as added, and uses private access exactly when the settings hold its
      credentials. */
  method StartupEvent(st: Settings, manager: ExchangeManager, library: set<string>, envs: string -> ConnectEnv)
    requires manager.Valid() && manager.names == [] && manager.adapters == map[]
    modifies manager
    ensures manager.Valid()
    ensures manager.names == AddNames([], ExchangesList(st), |ExchangesList(st)|)
    ensures forall n :: n in ExchangesList(st) ==>
              n in manager.adapters && manager.adapters[n].config == ExchangeConfig(st, n)
              && (manager.adapters[n].UsesPrivate() <==> HasCredentials(st, n))
              && manager.adapters[n].isConnected ==
                   ConnectedAfter(false, Lower(n) in library, HasCredentials(st, n), envs(n))
              && manager.adapters[n].ConnectedFrom(false, {}, null, null, true, library, envs(n))
  {
    var enabled := ExchangesList(st);
    ghost var made := RegisterEnabled(st, enabled, manager);
    OnlyEnabled(manager.adapters, manager.names, enabled, st, made);
    manager.InitializeAll(library, envs);
    forall n | n in enabled
      ensures n in manager.adapters && manager.adapters[n].config == ExchangeConfig(st, n)
              && (manager.adapters[n].UsesPrivate() <==> HasCredentials(st, n))
              && manager.adapters[n].isConnected ==
                   ConnectedAfter(false, Lower(n) in library, HasCredentials(st, n), envs(n))
              && manager.adapters[n].ConnectedFrom(false, {}, null, null, true, library, envs(n))
    {
      var k := IndexOf(enabled, n);
      assert made[k].config == ExchangeConfig(st, n);
      PrivateIffCredentials(st, n);
    }
  }

  /** After registering `enabled` on the empty registry, every registered adapter is
      one of those made for an enabled venue. */
  lemma OnlyEnabled(adapters: map<string, ExchangeAdapter>, names: seq<string>, enabled: seq<string>,
                    st: Settings, made: seq<ExchangeAdapter>)
    requires forall n :: n in adapters <==> n in names
    requires names == AddNames([], enabled, |enabled|)
    requires ConfiguredFrom(adapters, enabled, |enabled|, st, made)
    ensures forall n :: n in adapters ==> adapters[n] in made
  {
    AddNamesProperties([], enabled, |enabled|);
    assert enabled[..|enabled|] == enabled;
    forall n | n in adapters
      ensures adapters[n] in made
    {
      var k := LastIndexOf(enabled, n);
      assert LastMention(enabled, k, |enabled|);
      assert adapters[n] == made[k];
    }
  }

  /** One entry of the exchange status listing. */
  datatype ExchangeStatus = ExchangeStatus(name: string, connected: bool, private: bool)

  /** `get_exchanges_status()`'s listing: one entry per registered adapter, in
      insertion order, with the adapter's own name and its connection and access
      flags. */
  function ExchangesStatus(manager: ExchangeManager): (r: seq<ExchangeStatus>)
    reads manager, manager.adapters.Values
    requires forall n :: n in manager.names ==> n in manager.adapters
    ensures |r| == |manager.names|
    ensures forall i :: 0 <= i < |r| ==>
              var a := manager.adapters[manager.names[i]];
              r[i] == ExchangeStatus(a.name, a.isConnected, a.UsesPrivate())
    ensures manager.Valid() ==>
              && Distinct(StatusNames(r))
              && forall n :: n in manager.adapters <==> n in StatusNames(r)
  {
    var r := seq(|manager.names|,
                 i requires 0 <= i < |manager.names| && manager.names[i] in manager.adapters
                   reads manager, manager.adapters.Values =>
                   var a := manager.adapters[manager.names[i]];
                   ExchangeStatus(a.name, a.isConnected, a.UsesPrivate()));
    assert manager.Valid() ==> StatusNames(r) == manager.names;
    r
  }

  function StatusNames(r: seq<ExchangeStatus>): (ns: seq<string>)
    ensures |ns| == |r| && forall i :: 0 <= i < |r| ==> ns[i] == r[i].name
  {
    seq(|r|, i requires 0 <= i < |r| => r[i].name)
  }

  /** An arbitrage opportunity as the engine reports it: its profit after fees, and
      its other fields. */
  datatype Opportunity = Opportunity(details: map<string, string>, netProfitPct: real)

  /** The body `get_opportunities` returns. */
  datatype OpportunityList = OpportunityList(opportunities: seq<Opportunity>, count: nat)

  predicate ProfitableEnough(minProfit: real, o: Opportunity)
  {
    o.netProfitPct >= minProfit
  }

  /** `get_opportunities(min_profit)`: the opportunities whose net profit reaches
      `min_profit`, every one of them and in the engine's order, with their number. */
  function GetOpportunities(opps: seq<Opportunity>, minProfit: real): (r: OpportunityList)
    ensures r.count == |r.opportunities|
    ensures IsSubsequence(r.opportunities, opps)
    ensures forall i :: 0 <= i < |r.opportunities| ==> r.opportunities[i].netProfitPct >= minProfit
    ensures forall o :: multiset(r.opportunities)[o] ==
              if o.netProfitPct >= minProfit then multiset(opps)[o] else 0
  {
    var kept := Filter(o => ProfitableEnough(minProfit, o), opps);
    FilterKeeps(o => ProfitableEnough(minProfit, o), opps);
    OpportunityList(kept, |kept|)
  }

  /** The threshold `get_opportunities` uses when the query gives none. */
  const DefaultMinProfit: real := 0.0

  /** Without a threshold, the listing drops exactly the loss-making opportunities. */
  lemma DefaultDropsLosses(opps: seq<Opportunity>)
    ensures forall o :: o in GetOpportunities(opps, DefaultMinProfit).opportunities <==>
              o in opps && o.netProfitPct >= 0.0
  {
    var r := GetOpportunities(opps, DefaultMinProfit).opportunities;
    forall o
      ensures o in r <==> o in opps && o.netProfitPct >= 0.0
    {
      assert o in r <==> multiset(r)[o] > 0;
      assert o in opps <==> multiset(opps)[o] > 0;
    }
  }
}
