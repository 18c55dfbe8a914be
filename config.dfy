/** The application settings object and its two list-valued properties,
    `symbols_list` and `exchanges_list`, which read a comma-separated setting. */
module Config {
  import opened Text
  import opened Seqs

  /** The settings the connectivity layer reads. `fields` holds the string-valued
      credential attributes by attribute name (`binance_api_key`, `okx_passphrase`, ...);
      `getattr` on a name that is not a declared attribute finds nothing there. */
  datatype Settings = Settings(trackedSymbols: string, enabledExchanges: string, fields: map<string, string>)

  /** `getattr(settings, attribute, default)` for a string-valued attribute. */
  function GetAttr(st: Settings, attribute: string, default: string): string
  {
    if attribute in st.fields then st.fields[attribute] else default
  }

  /** `getattr(settings, attribute, None)`. */
  function GetAttrOrNone(st: Settings, attribute: string): Option<string>
  {
    if attribute in st.fields then Some(st.fields[attribute]) else None
  }

  datatype Option<T> = None | Some(value: T)

  /** The credential attributes the settings class declares, all defaulting to "". */
  const CredentialAttributes: seq<string> := [
    "binance_api_key", "binance_api_secret",
    "kraken_api_key", "kraken_api_secret",
    "bybit_api_key", "bybit_api_secret",
    "kucoin_api_key", "kucoin_api_secret", "kucoin_passphrase",
    "okx_api_key", "okx_api_secret", "okx_passphrase",
    "gate_api_key", "gate_api_secret",
    "mexc_api_key", "mexc_api_secret"
  ]

  const DefaultTrackedSymbols: string := "BTC/USDT,ETH/USDT"
  const DefaultEnabledExchanges: string := "binance,kraken"

  /** The settings with no environment overrides: every lookup of a credential with
      the empty default gives the empty string, and the attributes that exist are
      exactly the declared ones. */
  function DefaultSettings(): (st: Settings)
    ensures forall a :: GetAttr(st, a, "") == ""
    ensures forall a :: GetAttrOrNone(st, a).Some? <==> a in CredentialAttributes
  {
    Settings(DefaultTrackedSymbols, DefaultEnabledExchanges,
             map a | a in CredentialAttributes :: "")
  }

  /** A list element as the parser produces it: non-empty, comma-free, with no
      whitespace at either end. */
  predicate IsItem(s: string)
  {
    s != [] && ',' !in s && IsTrimmed(s)
  }

  predicate NonEmpty(s: string)
  {
    s != []
  }

  /** `[s.strip() for s in pieces]`. */
  function StripAll(pieces: seq<string>): (r: seq<string>)
    ensures |r| == |pieces|
    ensures forall i :: 0 <= i < |r| ==> r[i] == Strip(pieces[i])
  {
    seq(|pieces|, i requires 0 <= i < |pieces| => Strip(pieces[i]))
  }

  lemma StripAllAppend(a: seq<string>, b: seq<string>)
    ensures StripAll(a + b) == StripAll(a) + StripAll(b)
  {
  }

  /** `[s.strip() for s in text.split(",") if s.strip()]`: the comma-separated items of
      `text`, stripped, with the blank ones dropped. Every item is non-empty, has no
      surrounding whitespace and no comma, and there are at most as many items as
      there are commas plus one. */
  function ParseList(text: string): (items: seq<string>)
    ensures forall i :: 0 <= i < |items| ==> IsItem(items[i])
    ensures |items| <= Occurrences(text, ',') + 1
  {
    var pieces := Split(text, ',');
    ItemsOfPieces(pieces);
    KeepItems(pieces)
  }

  /** The stripped, non-blank pieces. */
  function KeepItems(pieces: seq<string>): seq<string>
  {
    Filter(NonEmpty, StripAll(pieces))
  }

  lemma ItemsOfPieces(pieces: seq<string>)
    requires forall i :: 0 <= i < |pieces| ==> ',' !in pieces[i]
    ensures forall i :: 0 <= i < |KeepItems(pieces)| ==> IsItem(KeepItems(pieces)[i])
    ensures |KeepItems(pieces)| <= |pieces|
  {
    var stripped := StripAll(pieces);
    var items := Filter(NonEmpty, stripped);
    SubsequenceLength(items, stripped);
    forall i | 0 <= i < |items| ensures IsItem(items[i]) {
      assert items[i] in stripped;
      var j :| 0 <= j < |stripped| && stripped[j] == items[i];
      if ',' in items[i] {
        StripChars(pieces[j], ',');
      }
    }
  }

  /** Parsing text that holds no comma yields its stripped self, or nothing when it
      is blank. */
  lemma ParseOnePiece(text: string)
    requires ',' !in text
    ensures ParseList(text) == if Strip(text) == [] then [] else [Strip(text)]
  {
    SplitNoSeparator(text, ',');
    var x := Strip(text);
    assert ParseList(text) == KeepItems([text]);
    assert StripAll([text]) == [x];
    assert [x][1..] == [];
    assert Filter(NonEmpty, [x]) == if NonEmpty(x) then [x] + Filter(NonEmpty, []) else Filter(NonEmpty, []);
  }

  /** The items of `a + "," + b` are the items of `a` followed by those of `b`:
      parsing keeps the order of the text. */
  lemma ParseAppend(a: string, b: string)
    ensures ParseList(a + [','] + b) == ParseList(a) + ParseList(b)
  {
    SplitAppend(a, b, ',');
    StripAllAppend(Split(a, ','), Split(b, ','));
    FilterAppend(NonEmpty, StripAll(Split(a, ',')), StripAll(Split(b, ',')));
    assert KeepItems(Split(a + [','] + b, ',')) == KeepItems(Split(a, ',')) + KeepItems(Split(b, ','));
  }

  /** A single well-formed item parses to itself. */
  lemma ParseItem(x: string)
    requires IsItem(x)
    ensures ParseList(x) == [x]
  {
    StripTrimmed(x);
    ParseOnePiece(x);
  }

  /** The empty setting parses to the empty list. */
  lemma ParseNothing()
    ensures ParseList([]) == []
  {
    ParseOnePiece([]);
    assert Strip([]) == [];
  }

  /** One more item in front of a list that already parses back. */
  lemma ParseJoinStep(x: string, rest: seq<string>)
    requires IsItem(x) && rest != []
    requires ParseList(Join(rest, ',')) == rest
    ensures ParseList(Join([x] + rest, ',')) == [x] + rest
  {
    var j := Join(rest, ',');
    assert ([x] + rest)[1..] == rest;
    assert Join([x] + rest, ',') == x + [','] + j;
    ParseItem(x);
    ParseAppend(x, j);
  }

  /** Writing a list of items out with commas and parsing it back gives the list. */
  lemma {:induction false} ParseJoin(items: seq<string>)
    requires forall i :: 0 <= i < |items| ==> IsItem(items[i])
    ensures ParseList(Join(items, ',')) == items
  {
    if items == [] {
      ParseNothing();
    } else if |items| == 1 {
      assert items == [items[0]];
      ParseItem(items[0]);
    } else {
      ParseJoin(items[1..]);
      ParseJoinStep(items[0], items[1..]);
      assert items == [items[0]] + items[1..];
    }
  }

  /** Parsing is idempotent on its own output. */
  lemma ParseIdempotent(text: string)
    ensures ParseList(Join(ParseList(text), ',')) == ParseList(text)
  {
    ParseJoin(ParseList(text));
  }

  /** The text parses to the empty list exactly when it consists of whitespace
      and commas only. */
  lemma {:induction false} ParseEmptyIffBlank(text: string)
    ensures ParseList(text) == [] <==> IsBlank(text)
    decreases |text|
  {
    if ',' !in text {
      ParseOnePiece(text);
      assert IsBlank(text) <==> forall i :: 0 <= i < |text| ==> IsSpace(text[i]);
    } else {
      var k := IndexOf(text, ',');
      var a, b := text[..k], text[k + 1..];
      assert text == a + [','] + b;
      ParseAppend(a, b);
      assert ',' !in a;
      ParseOnePiece(a);
      ParseEmptyIffBlank(b);
      BlankAppend(a, b);
    }
  }

  /** Only whitespace and commas. */
  predicate IsBlank(text: string)
  {
    forall i :: 0 <= i < |text| ==> IsSpace(text[i]) || text[i] == ','
  }

  lemma BlankAppend(a: string, b: string)
    requires ',' !in a
    ensures IsBlank(a + [','] + b) <==> (forall i :: 0 <= i < |a| ==> IsSpace(a[i])) && IsBlank(b)
  {
    var t := a + [','] + b;
    if IsBlank(t) {
      forall i | 0 <= i < |a| ensures IsSpace(a[i]) {
        assert t[i] == a[i];
      }
      forall i | 0 <= i < |b| ensures IsSpace(b[i]) || b[i] == ',' {
        assert t[|a| + 1 + i] == b[i];
      }
    }
  }

  /** `Settings.symbols_list`. */
  function SymbolsList(st: Settings): (symbols: seq<string>)
    ensures forall i :: 0 <= i < |symbols| ==> IsItem(symbols[i])
  {
    ParseList(st.trackedSymbols)
  }

  /** `Settings.exchanges_list`. */
  function ExchangesList(st: Settings): (names: seq<string>)
    ensures forall i :: 0 <= i < |names| ==> IsItem(names[i])
  {
    ParseList(st.enabledExchanges)
  }

  /** A two-item setting written `first,second`. */
  lemma ParsePair(first: string, second: string)
    requires IsItem(first) && IsItem(second)
    ensures ParseList(first + [','] + second) == [first, second]
  {
    assert ParseList(first) == [first] by { ParseItem(first); }
    assert ParseList(second) == [second] by { ParseItem(second); }
    ParseAppend(first, second);
  }

  lemma DefaultItems()
    ensures IsItem("BTC/USDT") && IsItem("ETH/USDT") && IsItem("binance") && IsItem("kraken")
  {
  }

  /** With no overrides the tracked symbols are BTC/USDT and ETH/USDT and the enabled
      exchanges binance and kraken. */
  lemma DefaultLists()
    ensures SymbolsList(DefaultSettings()) == ["BTC/USDT", "ETH/USDT"]
    ensures ExchangesList(DefaultSettings()) == ["binance", "kraken"]
  {
    var st := DefaultSettings();
    assert st.trackedSymbols == DefaultTrackedSymbols && st.enabledExchanges == DefaultEnabledExchanges;
    assert DefaultTrackedSymbols == "BTC/USDT" + [','] + "ETH/USDT";
    assert DefaultEnabledExchanges == "binance" + [','] + "kraken";
    DefaultItems();
    ParsePair("BTC/USDT", "ETH/USDT");
    ParsePair("binance", "kraken");
  }
}
