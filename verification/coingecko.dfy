/**
 * The CoinGecko helpers' decision logic: the strict gate that decides whether
 * a chat message asks for a price at all, the coin ids taken from it, the
 * price lines handed to the language model, the daily/hourly candle merge,
 * the chart interval and the DexScreener link.
 *
 * Every network lookup is a parameter: `guessName` stands for the regular
 * expressions that pull a coin name out of the message (the empty string when
 * none is found), `search` for the first id of a coin search, `price` for the
 * price summary of one coin, and the candle requests are given by their
 * replies.
 */
module Coingecko {
  import opened Wrappers
  import Text

  // ------------------------------------------------------ the price-question gate

  /** One element of the small regular expressions the gate uses. */
  datatype Atom =
    | Word(w: string)  // `w` literally
    | Maybe(c: char)   // `c?`
    | Spaces           // `\s+`

  type Pattern = seq<Atom>

  /** Whether `p` matches a prefix of `s` (some way of backtracking succeeds). */
  predicate MatchesAt(p: Pattern, s: string)
    decreases |s|, |p|
  {
    if p == [] then true
    else match p[0]
      case Word(w) => Text.StartsWith(s, w) && MatchesAt(p[1..], s[|w|..])
      case Maybe(c) =>
        (|s| > 0 && s[0] == c && MatchesAt(p[1..], s[1..])) || MatchesAt(p[1..], s)
      case Spaces =>
        |s| > 0 && Text.IsSpace(s[0]) && (MatchesAt(p[1..], s[1..]) || MatchesAt(p, s[1..]))
  }

  /** `re.search(p, s)` succeeds: `p` matches starting at some position of `s`. */
  predicate Search(p: Pattern, s: string)
    decreases |s|
  {
    MatchesAt(p, s) || (|s| > 0 && Search(p, s[1..]))
  }

  /**
   * A strict price pattern, written around the word every match must contain:
   * the pattern is `before`, then `keyword` literally, then `after`.
   */
  datatype PricePattern = PricePattern(before: Pattern, keyword: string, after: Pattern)

  function Regex(pp: PricePattern): Pattern {
    pp.before + ([Word(pp.keyword)] + pp.after)
  }

  /**
   * The ten strict price patterns, in order; a `(the\s+)?` group is written as
   * the two patterns with and without it, which `any(re.search ...)` cannot
   * tell apart.
   */
  function StrictPatterns(): seq<PricePattern> {
    [ PricePattern([Word("what"), Maybe('\''), Maybe('s'), Spaces, Word("the"), Spaces], "price", []),
      PricePattern([Word("what"), Spaces, Word("is"), Spaces, Word("the"), Spaces], "price", []),
      PricePattern([Word("how"), Spaces], "much", [Spaces, Word("is")]),
      PricePattern([Word("current"), Spaces], "price", []),
      PricePattern([], "price", [Spaces, Word("of")]),
      PricePattern([Word("show"), Spaces, Word("me"), Spaces, Word("the"), Spaces], "price", []),
      PricePattern([Word("show"), Spaces, Word("me"), Spaces], "price", []),
      PricePattern([Word("give"), Spaces, Word("me"), Spaces, Word("the"), Spaces], "price", []),
      PricePattern([Word("give"), Spaces, Word("me"), Spaces], "price", []),
      PricePattern([Word("tell"), Spaces, Word("me"), Spaces, Word("the"), Spaces], "price", []),
      PricePattern([Word("tell"), Spaces, Word("me"), Spaces], "price", []),
      PricePattern([Word("what"), Maybe('\''), Maybe('s'), Spaces, Word("it"), Spaces], "worth", []),
      PricePattern([Word("what"), Spaces, Word("is"), Spaces, Word("it"), Spaces], "worth", []) ]
  }

  /** The coin name directly followed by "price". */
  function DirectPriceStrings(): seq<string> {
    [ "aipg price", "ai power grid price",
      "btc price", "bitcoin price",
      "eth price", "ethereum price" ]
  }

  /** The message as the gate sees it: `message.lower().strip()`. */
  function MessageKey(message: string): string {
    Text.Strip(Text.Lower(message))
  }

  predicate HasStrictPricePattern(key: string) {
    exists pp :: pp in StrictPatterns() && Search(Regex(pp), key)
  }

  predicate HasDirectPrice(key: string) {
    exists d :: d in DirectPriceStrings() && Text.Contains(key, d)
  }

  /** The gate: only a very explicit price question fetches anything. */
  predicate AsksForPrice(key: string) {
    HasStrictPricePattern(key) || HasDirectPrice(key)
  }

  /** A pattern that is matched contains its literal middle part. */
  lemma {:induction false} MatchFindsWord(before: Pattern, w: string, after: Pattern, s: string)
    requires MatchesAt(before + ([Word(w)] + after), s)
    ensures Text.Contains(s, w)
    decreases |s|, |before|
  {
    var p := before + ([Word(w)] + after);
    if before == [] {
      assert p[0] == Word(w);
      assert Text.StartsWith(s, w);
    } else {
      assert p[1..] == before[1..] + ([Word(w)] + after);
      match before[0]
      case Word(v) =>
        MatchFindsWord(before[1..], w, after, s[|v|..]);
        assert s[|v|..] == s[|v|..];
        SuffixContains(s, |v|, w);
      case Maybe(c) =>
        if |s| > 0 && s[0] == c && MatchesAt(p[1..], s[1..]) {
          MatchFindsWord(before[1..], w, after, s[1..]);
        } else {
          MatchFindsWord(before[1..], w, after, s);
        }
      case Spaces =>
        if MatchesAt(p[1..], s[1..]) {
          MatchFindsWord(before[1..], w, after, s[1..]);
        } else {
          MatchFindsWord(before, w, after, s[1..]);
        }
    }
  }

  /** What a suffix of `s` contains, `s` contains. */
  lemma {:induction false} SuffixContains(s: string, k: nat, w: string)
    requires k <= |s| && Text.Contains(s[k..], w)
    ensures Text.Contains(s, w)
    decreases k
  {
    if k > 0 {
      assert s[1..][k - 1..] == s[k..];
      SuffixContains(s[1..], k - 1, w);
    }
  }

  /** A pattern found anywhere contains its literal middle part. */
  lemma {:induction false} SearchFindsWord(pp: PricePattern, s: string)
    requires Search(Regex(pp), s)
    ensures Text.Contains(s, pp.keyword)
    decreases |s|
  {
    if MatchesAt(Regex(pp), s) {
      MatchFindsWord(pp.before, pp.keyword, pp.after, s);
    } else {
      SearchFindsWord(pp, s[1..]);
    }
  }

  /** Every strict pattern is built around "price", "much" or "worth". */
  lemma StrictKeywords()
    ensures forall pp :: pp in StrictPatterns() ==> pp.keyword in {"price", "much", "worth"}
  {
  }

  /** Every direct price string ends in "price". */
  lemma DirectStringsContainPrice(d: string)
    requires d in DirectPriceStrings()
    ensures Text.Contains(d, "price")
  {
    assert d == d[..|d| - 5] + "price";
    Text.ContainsSuffix(d[..|d| - 5], "price");
  }

  /**
   * The gate never opens for a message that has none of the words "price",
   * "much" and "worth".
   */
  lemma GateNeedsKeyword(key: string)
    requires AsksForPrice(key)
    ensures Text.Contains(key, "price") || Text.Contains(key, "much") || Text.Contains(key, "worth")
  {
    if HasStrictPricePattern(key) {
      var pp :| pp in StrictPatterns() && Search(Regex(pp), key);
      SearchFindsWord(pp, key);
      StrictKeywords();
    } else {
      var d :| d in DirectPriceStrings() && Text.Contains(key, d);
      DirectStringsContainPrice(d);
      Text.ContainsTrans(key, d, "price");
    }
  }

  /** Any message with "price of" in it asks for a price. */
  lemma PriceQuestionOpensGate(before: string, after: string)
    ensures AsksForPrice(before + "price of" + after)
  {
    var pp := StrictPatterns()[4];
    assert Regex(pp) == [Word("price"), Spaces, Word("of")];
    PriceOfMatches(after);
    SearchAt(Regex(pp), before, "price of" + after);
    assert before + "price of" + after == before + ("price of" + after);
    assert pp in StrictPatterns();
  }

  /** `price\s+of` matches at the start of "price of...". */
  lemma PriceOfMatches(after: string)
    ensures MatchesAt([Word("price"), Spaces, Word("of")], "price of" + after)
  {
    var p := [Word("price"), Spaces, Word("of")];
    var s := "price of" + after;
    WordThen("of", [], "of" + after);
    assert s[5..][1..] == "of" + after;
    assert p[1..][1..] == [Word("of")] + [];
    assert MatchesAt(p[1..], s[5..]);
    WordThen("price", p[1..], s);
  }

  /** A match after any prefix is found by the search. */
  lemma {:induction false} SearchAt(p: Pattern, before: string, s: string)
    requires MatchesAt(p, s)
    ensures Search(p, before + s)
    decreases |before|
  {
    if before == [] {
      assert before + s == s;
    } else {
      SearchAt(p, before[1..], s);
      assert (before + s)[1..] == before[1..] + s;
    }
  }

  /** A literal word followed by a match of the rest of a pattern. */
  lemma WordThen(w: string, p: Pattern, s: string)
    requires Text.StartsWith(s, w) && MatchesAt(p, s[|w|..])
    ensures MatchesAt([Word(w)] + p, s)
  {
    assert ([Word(w)] + p)[1..] == p;
  }

  /** A coin name directly followed by "price" opens the gate wherever it appears. */
  lemma DirectPriceOpensGate(key: string, i: nat)
    requires i < |DirectPriceStrings()|
    requires Text.Contains(key, DirectPriceStrings()[i])
    ensures AsksForPrice(key)
  {
  }

  // ------------------------------------------------------------------ coin ids

  /** The known keywords and the coin id each stands for, in dictionary order. */
  function KnownCoins(): seq<(string, string)> {
    [ ("bitcoin", "bitcoin"), ("btc", "bitcoin"),
      ("ethereum", "ethereum"), ("eth", "ethereum"),
      ("aipg", "ai-power-grid"), ("ai power grid", "ai-power-grid") ]
  }

  /** The ids of the entries of `table` whose keyword occurs in `key`, in order. */
  function MatchedIds(table: seq<(string, string)>, key: string): seq<string> {
    if table == [] then []
    else
      MatchedIds(table[..|table| - 1], key)
      + (if Text.Contains(key, table[|table| - 1].0) then [table[|table| - 1].1] else [])
  }

  /** An id is found exactly when one of its keywords occurs in the message. */
  lemma {:induction false} MatchedIdsMembers(table: seq<(string, string)>, key: string, id: string)
    ensures id in MatchedIds(table, key)
        <==> exists j :: 0 <= j < |table| && Text.Contains(key, table[j].0) && table[j].1 == id
  {
    if table != [] {
      var init := table[..|table| - 1];
      MatchedIdsMembers(init, key, id);
      assert forall j :: 0 <= j < |init| ==> init[j] == table[j];
    }
  }

  /** One id per matching keyword: never more ids than keywords. */
  lemma {:induction false} MatchedIdsBound(table: seq<(string, string)>, key: string)
    ensures |MatchedIds(table, key)| <= |table|
  {
    if table != [] {
      MatchedIdsBound(table[..|table| - 1], key);
    }
  }

  /** The ids of two stretches of the table, one after the other. */
  lemma {:induction false} MatchedIdsAppend(a: seq<(string, string)>, b: seq<(string, string)>, key: string)
    ensures MatchedIds(a + b, key) == MatchedIds(a, key) + MatchedIds(b, key)
    decreases |b|
  {
    if b == [] {
      assert a + b == a;
    } else {
      assert (a + b)[..|a + b| - 1] == a + b[..|b| - 1];
      MatchedIdsAppend(a, b[..|b| - 1], key);
    }
  }

  /** "ethereum" also contains "eth": a message naming ethereum lists its id twice. */
  lemma EthereumListedTwice(key: string)
    requires Text.Contains(key, "ethereum")
    ensures multiset(MatchedIds(KnownCoins(), key))["ethereum"] >= 2
  {
    var t := KnownCoins();
    assert t == t[..2] + ([t[2]] + ([t[3]] + t[4..]));
    assert Text.Contains(key, "eth") by {
      assert "ethereum" == "eth" + "ereum";
      Text.ContainsPrefix("eth", "ereum");
      Text.ContainsTrans(key, "ethereum", "eth");
    }
    MatchedIdsAppend(t[..2], [t[2]] + ([t[3]] + t[4..]), key);
    MatchedIdsAppend([t[2]], [t[3]] + t[4..], key);
    MatchedIdsAppend([t[3]], t[4..], key);
    assert MatchedIds([t[2]], key) == ["ethereum"];
    assert MatchedIds([t[3]], key) == ["ethereum"];
  }

  /**
   * The coin ids for a message that passed the gate: the known coins it
   * mentions, or else the first search hit for the name guessed from it.
   */
  function CoinIds(key: string, guessName: string -> string, search: string -> Option<string>): seq<string> {
    if MatchedIds(KnownCoins(), key) != [] then MatchedIds(KnownCoins(), key)
    else if guessName(key) != "" && search(guessName(key)).Some? && search(guessName(key)).value != ""
    then [search(guessName(key)).value]
    else []
  }

  /** The name search is consulted only when no known coin is mentioned. */
  lemma KnownCoinsWin(key: string, guessName: string -> string, search: string -> Option<string>)
    requires exists j :: 0 <= j < |KnownCoins()| && Text.Contains(key, KnownCoins()[j].0)
    ensures CoinIds(key, guessName, search) == MatchedIds(KnownCoins(), key)
  {
    var j :| 0 <= j < |KnownCoins()| && Text.Contains(key, KnownCoins()[j].0);
    MatchedIdsMembers(KnownCoins(), key, KnownCoins()[j].1);
  }

  // ------------------------------------------------------------------ the reply

  /** The price summaries that came back non-empty, in coin-id order. */
  function PriceLines(ids: seq<string>, price: string -> Option<string>): seq<string> {
    if ids == [] then []
    else
      PriceLines(ids[..|ids| - 1], price)
      + (if price(ids[|ids| - 1]).Some? && price(ids[|ids| - 1]).value != ""
         then [price(ids[|ids| - 1]).value] else [])
  }

  /** Each price line is the summary of one of the coins, and each non-empty summary is a line. */
  lemma {:induction false} PriceLinesMembers(ids: seq<string>, price: string -> Option<string>, line: string)
    ensures line in PriceLines(ids, price)
        <==> line != "" && exists j :: 0 <= j < |ids| && price(ids[j]) == Some(line)
  {
    if ids != [] {
      var init := ids[..|ids| - 1];
      PriceLinesMembers(init, price, line);
      assert forall j :: 0 <= j < |init| ==> init[j] == ids[j];
    }
  }

  /** What `get_crypto_context` adds to the prompt. */
  function CryptoContext(
    message: string, guessName: string -> string,
    search: string -> Option<string>, price: string -> Option<string>): string
  {
    if !AsksForPrice(MessageKey(message)) then ""
    else Text.Join(PriceLines(CoinIds(MessageKey(message), guessName, search), price), "\n")
  }

  /**
   * The known-coin scan, then, when it found nothing, the name guess; `search`
   * is consulted only for a non-empty guess. `guessed` tells whether the
   * fallback ran.
   */
  method FindCoinIds(key: string, guessName: string -> string, search: string -> Option<string>)
    returns (ids: seq<string>, guessed: bool)
    ensures ids == CoinIds(key, guessName, search)
    ensures guessed <==> MatchedIds(KnownCoins(), key) == []
  {
    var table := KnownCoins();
    ids := [];
    for i := 0 to |table|
      invariant ids == MatchedIds(table[..i], key)
    {
      assert table[..i + 1][..i] == table[..i];
      if Text.Contains(key, table[i].0) {
        ids := ids + [table[i].1];
      }
    }
    assert table[..|table|] == table;
    guessed := ids == [];
    if guessed {
      var name := guessName(key);
      if name != "" {
        var hit := search(name);
        if hit.Some? && hit.value != "" {
          ids := ids + [hit.value];
        }
      }
    }
  }

  /** One price lookup per coin id, keeping the summaries that came back. */
  method FetchPrices(ids: seq<string>, price: string -> Option<string>) returns (data: seq<string>)
    ensures data == PriceLines(ids, price)
  {
    data := [];
    for i := 0 to |ids|
      invariant data == PriceLines(ids[..i], price)
    {
      assert ids[..i + 1][..i] == ids[..i];
      var p := price(ids[i]);
      if p.Some? && p.value != "" {
        data := data + [p.value];
      }
    }
    assert ids[..|ids|] == ids;
  }

  /**
   * `get_crypto_context`: the gate, the coin ids, and the successful price
   * summaries joined by newlines. `guessed` tells whether the name-guess
   * fallback ran.
   */
  method GetCryptoContext(
    message: string, guessName: string -> string,
    search: string -> Option<string>, price: string -> Option<string>)
    returns (context: string, guessed: bool)
    ensures context == CryptoContext(message, guessName, search, price)
    ensures guessed <==> AsksForPrice(MessageKey(message)) && MatchedIds(KnownCoins(), MessageKey(message)) == []
  {
    var key := Text.Strip(Text.Lower(message));
    if !(HasStrictPricePattern(key) || HasDirectPrice(key)) {
      return "", false;
    }
    var ids;
    ids, guessed := FindCoinIds(key, guessName, search);
    if ids == [] {
      return "", guessed;
    }
    var data := FetchPrices(ids, price);
    context := Text.Join(data, "\n");
  }

  /** A message without "price", "much" or "worth" gets no crypto context. */
  lemma QuietMessageGetsNothing(
    message: string, guessName: string -> string,
    search: string -> Option<string>, price: string -> Option<string>)
    requires !Text.Contains(MessageKey(message), "price")
    requires !Text.Contains(MessageKey(message), "much")
    requires !Text.Contains(MessageKey(message), "worth")
    ensures CryptoContext(message, guessName, search, price) == ""
  {
    if AsksForPrice(MessageKey(message)) {
      GateNeedsKeyword(MessageKey(message));
    }
  }

  /** Newline-free summaries joined by newlines split back into the same list. */
  lemma PriceLinesSplit(ids: seq<string>, price: string -> Option<string>)
    requires PriceLines(ids, price) != []
    requires forall id :: price(id).Some? ==> '\n' !in price(id).value
    ensures Text.Split(Text.Join(PriceLines(ids, price), "\n"), '\n') == PriceLines(ids, price)
  {
    var lines := PriceLines(ids, price);
    forall i | 0 <= i < |lines|
      ensures '\n' !in lines[i]
    {
      PriceLinesMembers(ids, price, lines[i]);
    }
    Text.SplitJoin(lines, '\n');
  }

  /**
   * When some price came back, the context splits on newlines into exactly
   * the price summaries, in coin-id order (provided none spans two lines).
   */
  lemma ContextIsPriceLines(
    message: string, guessName: string -> string,
    search: string -> Option<string>, price: string -> Option<string>)
    requires AsksForPrice(MessageKey(message))
    requires PriceLines(CoinIds(MessageKey(message), guessName, search), price) != []
    requires forall id :: price(id).Some? ==> '\n' !in price(id).value
    ensures Text.Split(CryptoContext(message, guessName, search, price), '\n')
         == PriceLines(CoinIds(MessageKey(message), guessName, search), price)
  {
    PriceLinesSplit(CoinIds(MessageKey(message), guessName, search), price);
  }

  /** With no coin id at all (no known coin, no search hit) the context is empty. */
  lemma NoCoinNoContext(
    message: string, guessName: string -> string,
    search: string -> Option<string>, price: string -> Option<string>)
    requires CoinIds(MessageKey(message), guessName, search) == []
    ensures CryptoContext(message, guessName, search, price) == ""
  {
  }

  // ------------------------------------------------------------------ candles

  /** One OHLC row `[timestamp, open, high, low, close]`. */
  datatype Candle = Candle(ts: int, open: real, high: real, low: real, close: real)

  /**
   * The reply to one request of the OHLC endpoint: an exception (an HTTP
   * error status, the network, undecodable JSON), a JSON value that is not a
   * list, or a list of rows.
   */
  datatype OhlcReply = RequestFailed | NotAList | Rows(candles: seq<Candle>)

  /** `isinstance(data, list) and len(data) > 0` */
  predicate HasCandles(r: OhlcReply) {
    r.Rows? && r.candles != []
  }

  predicate SortedByTs(s: seq<Candle>) {
    forall i, j :: 0 <= i < j < |s| ==> s[i].ts <= s[j].ts
  }

  /** `max(d[0] for d in cs)`: the latest timestamp of a non-empty list. */
  function MaxTs(cs: seq<Candle>): (m: int)
    requires cs != []
    ensures exists i :: 0 <= i < |cs| && cs[i].ts == m
    ensures forall i :: 0 <= i < |cs| ==> cs[i].ts <= m
  {
    if |cs| == 1 then cs[0].ts
    else if MaxTs(cs[..|cs| - 1]) >= cs[|cs| - 1].ts then MaxTs(cs[..|cs| - 1])
    else cs[|cs| - 1].ts
  }

  /** `[h for h in cs if h[0] > t]`: the rows strictly newer than `t`, in order. */
  function NewerThan(cs: seq<Candle>, t: int): (r: seq<Candle>)
    ensures |r| <= |cs|
    ensures forall c :: c in r <==> c in cs && c.ts > t
  {
    if cs == [] then []
    else (if cs[0].ts > t then [cs[0]] else []) + NewerThan(cs[1..], t)
  }

  /** `combined.sort(key=lambda x: x[0])`, in place. */
  method SortByTimestamp(a: array<Candle>)
    modifies a
    ensures SortedByTs(a[..])
    ensures multiset(a[..]) == multiset(old(a[..]))
  {
    var i := 0;
    while i < a.Length
      invariant 0 <= i <= a.Length
      invariant forall k, l :: 0 <= k < l < i ==> a[k].ts <= a[l].ts
      invariant multiset(a[..]) == multiset(old(a[..]))
    {
      InsertIntoSorted(a, i);
      i := i + 1;
    }
  }

  /** One insertion step: `a[i]` moves left past the strictly later candles of the sorted `a[..i]`. */
  method InsertIntoSorted(a: array<Candle>, i: int)
    requires 0 <= i < a.Length
    requires forall k, l :: 0 <= k < l < i ==> a[k].ts <= a[l].ts
    modifies a
    ensures forall k, l :: 0 <= k < l <= i ==> a[k].ts <= a[l].ts
    ensures multiset(a[..]) == multiset(old(a[..]))
  {
    var j := i;
    while j > 0 && a[j - 1].ts > a[j].ts
      invariant 0 <= j <= i
      invariant forall k, l :: 0 <= k < l <= i && k != j && l != j ==> a[k].ts <= a[l].ts
      invariant forall l :: j < l <= i ==> a[j].ts < a[l].ts
      invariant multiset(a[..]) == multiset(old(a[..]))
    {
      Swap(a, j - 1, j);
      j := j - 1;
    }
  }

  /** Exchanges two elements of the array. */
  method Swap(a: array<Candle>, x: int, y: int)
    requires 0 <= x < a.Length && 0 <= y < a.Length
    modifies a
    ensures a[x] == old(a[y]) && a[y] == old(a[x])
    ensures forall k :: 0 <= k < a.Length && k != x && k != y ==> a[k] == old(a[k])
    ensures multiset(a[..]) == multiset(old(a[..]))
  {
    a[x], a[y] := a[y], a[x];
  }

  /**
   * The merge of daily and hourly candles: every daily candle, plus the
   * hourly candles newer than the last daily one, sorted by timestamp.
   */
  method MergeCandles(daily: seq<Candle>, hourly: seq<Candle>) returns (combined: seq<Candle>)
    requires daily != []
    ensures SortedByTs(combined)
    ensures multiset(combined) == multiset(daily + NewerThan(hourly, MaxTs(daily)))
    ensures forall c :: c in combined <==> c in daily || (c in hourly && c.ts > MaxTs(daily))
  {
    var lastDaily := MaxTs(daily);
    var recent := NewerThan(hourly, lastDaily);
    var all := daily + recent;
    var a := new Candle[|all|](i requires 0 <= i < |all| => all[i]);
    assert a[..] == all;
    SortByTimestamp(a);
    combined := a[..];
    forall c
      ensures c in combined <==> c in all
    {
      assert c in combined <==> c in multiset(combined);
      assert c in all <==> c in multiset(all);
    }
  }

  /** Every hourly candle the merge adds is newer than every daily candle. */
  lemma AddedHourlyAreNewest(daily: seq<Candle>, hourly: seq<Candle>, c: Candle, d: Candle)
    requires daily != []
    requires c in NewerThan(hourly, MaxTs(daily)) && d in daily
    ensures d.ts < c.ts
  {
  }

  /**
   * `get_ohlc_data(coin, days)`: `hourly` is the reply to the one-day request,
   * `requested` the reply to the request for `days` days, made as a fallback
   * when the hourly reply has no rows and as the daily series when `days > 1`.
   */
  method GetOhlcData(days: int, hourly: OhlcReply, requested: OhlcReply)
    returns (result: Option<seq<Candle>>, requests: nat)
    ensures hourly.RequestFailed? ==> result == None && requests == 1
    ensures !hourly.RequestFailed? && !HasCandles(hourly) ==>
      requests == 2 && result == (if HasCandles(requested) then Some(requested.candles) else None)
    ensures HasCandles(hourly) && days <= 1 ==> result == Some(hourly.candles) && requests == 1
    ensures HasCandles(hourly) && days > 1 ==> requests == 2
    ensures HasCandles(hourly) && days > 1 && requested.RequestFailed? ==> result == None
    ensures HasCandles(hourly) && days > 1 && !requested.RequestFailed? && !HasCandles(requested) ==>
      result == Some(hourly.candles)
    ensures HasCandles(hourly) && days > 1 && HasCandles(requested) ==>
      result.Some? && SortedByTs(result.value)
      && multiset(result.value) == multiset(requested.candles + NewerThan(hourly.candles, MaxTs(requested.candles)))
  {
    requests := 1;
    if hourly.RequestFailed? {
      return None, requests;
    }
    if !HasCandles(hourly) {
      requests := 2;
      if HasCandles(requested) {
        return Some(requested.candles), requests;
      }
      return None, requests;
    }
    if days <= 1 {
      return Some(hourly.candles), requests;
    }
    requests := 2;
    if requested.RequestFailed? {
      return None, requests;
    }
    if !HasCandles(requested) {
      return Some(hourly.candles), requests;
    }
    var combined := MergeCandles(requested.candles, hourly.candles);
    return Some(combined), requests;
  }

  // ------------------------------------------------------------------ chart links

  /** The chart range interval asked of the market-chart endpoint. */
  function ChartInterval(days: int): (r: string)
    ensures r == "daily" || r == "hourly"
    ensures r == "daily" <==> days > 30
  {
    if days > 30 then "daily" else "hourly"
  }

  /** The AIPG token address on Base, in its mixed-case checksum spelling. */
  function AipgToken(): string {
    "0xa1c0deCaFE3E9Bf06A5F" + "29B7015CD373a9854608"
  }

  /** The DexScreener page of the main AIPG pair. */
  function AipgPairUrl(): string {
    "https://dexscreener.com/base/"
    + ("0x584bed2973b14455c08e26f566646092"
    + ("e2c0ed90527013bfcfcd60fa5e4ae6d2"))
  }

  function GenericUrl(chain: string, tokenAddress: string): string {
    "https://dexscreener.com/" + chain + "/" + tokenAddress
  }

  /** `get_dexscreener_url` as written: the lowered address is compared with the mixed-case literal. */
  function DexScreenerUrlAsWritten(tokenAddress: string, chain: string): string {
    if Text.Lower(tokenAddress) == AipgToken() then AipgPairUrl() else GenericUrl(chain, tokenAddress)
  }

  /** No lowered string equals the checksum spelling, so the pair link is never produced. */
  lemma AsWrittenNeverFindsPair(tokenAddress: string, chain: string)
    ensures DexScreenerUrlAsWritten(tokenAddress, chain) == GenericUrl(chain, tokenAddress)
  {
    var lowered := Text.Lower(tokenAddress);
    if |lowered| == |AipgToken()| {
      assert AipgToken()[8] == 'C';
      assert lowered[8] != AipgToken()[8];
    }
  }

  /** The evidently intended comparison: both sides lowered. */
  function DexScreenerUrl(tokenAddress: string, chain: string): string {
    if Text.Lower(tokenAddress) == Text.Lower(AipgToken()) then AipgPairUrl() else GenericUrl(chain, tokenAddress)
  }

  /** The address in any letter case, such as checksummed or all lower-case, finds the pair. */
  lemma AnyCaseFindsPair(chain: string)
    ensures forall t :: Text.Lower(t) == Text.Lower(AipgToken()) ==> DexScreenerUrl(t, chain) == AipgPairUrl()
    ensures DexScreenerUrl(AipgToken(), chain) == AipgPairUrl()
    ensures DexScreenerUrl(Text.Lower(AipgToken()), chain) == AipgPairUrl()
  {
    Text.LowerIdempotent(AipgToken());
  }

  /** Any other address gets the generic chain/address link. */
  lemma OtherAddressesGeneric(tokenAddress: string, chain: string)
    requires Text.Lower(tokenAddress) != Text.Lower(AipgToken())
    ensures DexScreenerUrl(tokenAddress, chain) == GenericUrl(chain, tokenAddress)
  {
  }
}
