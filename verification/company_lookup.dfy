/** The company search of src/ingestion/company_lookup.py, run over an
    already fetched ticker table (company_tickers.json). The HTTP request and
    its rate limit are not modelled: the outcome of the request is an input. */
module CompanyLookup {
  import opened Text

  /** The raw `cik_str` of a table entry: an int, a str, or a value of some
      other JSON type. A missing key reads as the str "". */
  datatype RawCik = IntCik(n: int) | StrCik(s: string) | OtherCik

  /** One entry of the table; a missing title or ticker reads as "". */
  datatype Entry = Entry(title: string, ticker: string, cik: RawCik)

  /** A search result: the padded CIK, the upper-cased ticker and the title
      as the table spells it. */
  datatype Company = Company(cik: string, ticker: string, name: string)

  /** The outcome of fetching the table: an exception, or a reply with its
      status code and the table's entries in order. */
  datatype Response = Failed | Reply(status: int, entries: seq<Entry>)

  const MaxResults: nat := 10
  const CikWidth: nat := 10
  const ZeroCik: string := "0000000000"
  const StatusOk: int := 200

  /** str(cik_raw) for an int or a str. */
  function CikText(raw: RawCik): string
    requires !raw.OtherCik?
  {
    if raw.IntCik? then IntToDecimal(raw.n) else raw.s
  }

  /** Lines 58-60: an int or a str that is truthy and whose text is not "0" is
      padded to ten characters; anything else gives no CIK. */
  function PaddedCik(raw: RawCik): (r: Option<string>)
    ensures r.Some? <==> !raw.OtherCik? && CikText(raw) != [] && CikText(raw) != "0"
    ensures r.Some? ==> r.value == ZFill(CikText(raw), CikWidth) && |r.value| >= CikWidth
  {
    match raw
    case IntCik(n) => if n != 0 then Some(ZFill(IntToDecimal(n), CikWidth)) else None
    case StrCik(s) => if s != [] && s != "0" then Some(ZFill(s, CikWidth)) else None
    case OtherCik => None
  }

  /** Lines 53-55: the upper-cased query occurs in the upper-cased title or
      ticker, or equals the upper-cased ticker. */
  predicate Matches(query: string, e: Entry)
  {
    var q := Upper(query);
    Contains(Upper(e.title), q) || Contains(Upper(e.ticker), q) || Upper(e.ticker) == q
  }

  /** The third disjunct of line 55 adds nothing: equal strings contain each other. */
  lemma MatchesSubstring(query: string, e: Entry)
    ensures Matches(query, e) <==> Contains(Upper(e.title), Upper(query)) || Contains(Upper(e.ticker), Upper(query))
  {
    var q := Upper(query);
    if Upper(e.ticker) == q {
      assert OccursAt(Upper(e.ticker), q, 0);
    }
  }

  /** Lines 62-68: what one entry contributes, before the limit. */
  function Pick(query: string, e: Entry): seq<Company>
  {
    var cik := PaddedCik(e.cik);
    if Matches(query, e) && cik.Some? && cik.value != ZeroCik then [Company(cik.value, Upper(e.ticker), e.title)]
    else []
  }

  /** What the entries contribute, in table order, before the limit. */
  function Picks(query: string, es: seq<Entry>): seq<Company>
    decreases |es|
  {
    if es == [] then [] else Picks(query, es[..|es| - 1]) + Pick(query, es[|es| - 1])
  }

  /** Lines 38-80: the first ten contributions of a 200 reply, otherwise none. */
  function Search(resp: Response, query: string): seq<Company>
  {
    if resp.Reply? && resp.status == StatusOk then PyPrefix(Picks(query, resp.entries), MaxResults) else []
  }

  /** An entry contributes at most one result, and a result is the entry's
      title unchanged, its ticker upper-cased and its CIK text padded to ten
      characters, for an entry that matches and whose CIK is not empty, "0"
      or all zeros once padded. */
  lemma PickShape(query: string, e: Entry)
    ensures |Pick(query, e)| <= 1
    ensures Pick(query, e) != [] <==>
      Matches(query, e) && !e.cik.OtherCik? && CikText(e.cik) != [] && CikText(e.cik) != "0" &&
      ZFill(CikText(e.cik), CikWidth) != ZeroCik
    ensures Pick(query, e) != [] ==>
      Pick(query, e)[0] == Company(ZFill(CikText(e.cik), CikWidth), Upper(e.ticker), e.title)
  {
  }

  lemma PicksNext(query: string, es: seq<Entry>, i: nat)
    requires i < |es|
    ensures Picks(query, es[..i + 1]) == Picks(query, es[..i]) + Pick(query, es[i])
  {
    assert es[..i + 1][..i] == es[..i];
  }

  /** Results keep the table order: the entries of a + b contribute those of
      a, then those of b. */
  lemma {:induction false} PicksConcat(query: string, a: seq<Entry>, b: seq<Entry>)
    ensures Picks(query, a + b) == Picks(query, a) + Picks(query, b)
    decreases |b|
  {
    if b == [] {
      assert a + b == a;
    } else {
      var b' := b[..|b| - 1];
      assert (a + b)[..|a + b| - 1] == a + b';
      PicksConcat(query, a, b');
      AppendAssoc(Picks(query, a), Picks(query, b'), Pick(query, b[|b| - 1]));
    }
  }

  /** Every contribution satisfies the match and CIK rules of lines 53-63. */
  lemma {:induction false} PicksGood(query: string, es: seq<Entry>)
    ensures |Picks(query, es)| <= |es|
    ensures forall k | 0 <= k < |Picks(query, es)| :: Good(query, Picks(query, es)[k])
    decreases |es|
  {
    if es != [] {
      var init := es[..|es| - 1];
      var last := es[|es| - 1];
      PicksGood(query, init);
      PickShape(query, last);
      MatchesSubstring(query, last);
      if Pick(query, last) != [] {
        UpperTwice(last.ticker);
      }
    }
  }

  /** A result whose name or ticker contains the upper-cased query and whose
      CIK has at least ten characters and is not all zeros. */
  predicate Good(query: string, c: Company)
  {
    (Contains(Upper(c.name), Upper(query)) || Contains(c.ticker, Upper(query))) &&
    c.ticker == Upper(c.ticker) &&
    |c.cik| >= CikWidth && c.cik != ZeroCik
  }

  lemma UpperTwice(s: string)
    ensures Upper(Upper(s)) == Upper(s)
  {
    forall k | 0 <= k < |s|
      ensures Upper(Upper(s))[k] == Upper(s)[k]
    {
    }
  }

  /** search_company returns at most ten results, each satisfying the match and
      CIK rules, as the first results of the table-order contributions (all of
      them when there are fewer than ten, exactly ten otherwise); a
      failed request or a status other than 200 gives none. */
  lemma SearchShape(resp: Response, query: string)
    ensures |Search(resp, query)| <= MaxResults
    ensures forall k | 0 <= k < |Search(resp, query)| :: Good(query, Search(resp, query)[k])
    ensures resp.Reply? && resp.status == StatusOk ==> Search(resp, query) <= Picks(query, resp.entries)
    ensures resp.Reply? && resp.status == StatusOk ==> |Search(resp, query)| == Min(MaxResults, |Picks(query, resp.entries)|)
    ensures !(resp.Reply? && resp.status == StatusOk) ==> Search(resp, query) == []
  {
    if resp.Reply? && resp.status == StatusOk {
      PicksGood(query, resp.entries);
    }
  }

  /** Once ten results have been collected, no later entry is looked at: the
      loop breaks (lines 70-71). */
  lemma SearchIgnoresRest(status: int, query: string, a: seq<Entry>, b: seq<Entry>)
    requires |Picks(query, a)| >= MaxResults
    ensures Search(Reply(status, a + b), query) == Search(Reply(status, a), query)
  {
    PicksConcat(query, a, b);
  }

  /** One pass of the loop body (lines 48-71): the entry's contribution, and
      whether the loop breaks after it. */
  method ScanEntry(query: string, companies: seq<Company>, e: Entry) returns (companies': seq<Company>, stop: bool)
    ensures companies' == companies + Pick(query, e)
    ensures stop <==> Matches(query, e) && |companies'| >= MaxResults
  {
    companies' := companies;
    stop := false;
    var q := Upper(query);
    var name := Upper(e.title);
    var ticker := Upper(e.ticker);
    if Contains(name, q) || Contains(ticker, q) || ticker == q {
      var cik := PaddedCik(e.cik);
      if cik.Some? && cik.value != ZeroCik {
        companies' := companies' + [Company(cik.value, ticker, e.title)];
      }
      stop := |companies'| >= MaxResults;
    }
  }

  /** Breaking once the tenth result is collected returns what the first ten
      contributions of the whole table are. */
  lemma StopEarly(query: string, entries: seq<Entry>, i: nat)
    requires i < |entries| && |Picks(query, entries[..i + 1])| == MaxResults
    ensures PyPrefix(Picks(query, entries), MaxResults) == Picks(query, entries[..i + 1])
  {
    var front, back := entries[..i + 1], entries[i + 1..];
    assert front + back == entries;
    PicksConcat(query, front, back);
    var p, q := Picks(query, front), Picks(query, back);
    assert Picks(query, entries) == p + q;
    PyPrefixOfConcat(p, q, MaxResults);
  }

  /** The search loop of lines 47-73. */
  method SearchCompany(resp: Response, query: string) returns (companies: seq<Company>)
    ensures companies == Search(resp, query)
  {
    if !resp.Reply? || resp.status != StatusOk {
      return [];
    }
    var entries := resp.entries;
    companies := [];
    var i := 0;
    while i < |entries|
      invariant 0 <= i <= |entries|
      invariant companies == Picks(query, entries[..i]) && |companies| < MaxResults
    {
      PicksNext(query, entries, i);
      PickShape(query, entries[i]);
      var stop;
      companies, stop := ScanEntry(query, companies, entries[i]);
      if stop {
        StopEarly(query, entries, i);
        return;
      }
      i := i + 1;
    }
    assert entries[..i] == entries;
  }

  // ---------------------------------------------------------------------------
  // Lookups built on the search (lines 82-177)

  /** The index of the first company whose ticker equals the given one,
      ignoring case, or |cs| when there is none. */
  function TickerIndex(cs: seq<Company>, ticker: string): (i: nat)
    ensures i <= |cs|
    ensures forall j | 0 <= j < i :: Upper(cs[j].ticker) != Upper(ticker)
    ensures i < |cs| ==> Upper(cs[i].ticker) == Upper(ticker)
    decreases |cs|
  {
    if cs == [] then 0
    else if Upper(cs[0].ticker) == Upper(ticker) then 0
    else 1 + TickerIndex(cs[1..], ticker)
  }

  /** The first company whose ticker equals the given one, ignoring case. */
  function FirstWithTicker(cs: seq<Company>, ticker: string): Option<Company>
  {
    var i := TickerIndex(cs, ticker);
    if i < |cs| then Some(cs[i]) else None
  }

  /** get_company_by_ticker (lines 92-99). */
  function ByTicker(resp: Response, ticker: string): Option<Company>
  {
    FirstWithTicker(Search(resp, ticker), ticker)
  }

  /** get_company_by_name (lines 111-117). */
  function ByName(resp: Response, name: string): Option<Company>
  {
    var cs := Search(resp, name);
    if cs != [] then Some(cs[0]) else None
  }

  /** company['cik'] if company else None (lines 130 and 143). */
  function CikOf(company: Option<Company>): Option<string>
  {
    if company.Some? then Some(company.value.cik) else None
  }

  /** get_cik_by_name_or_ticker (lines 156-162); each lookup fetches the table
      anew, so each has its own response. */
  function CikByNameOrTicker(tickerResp: Response, nameResp: Response, identifier: string): Option<string>
  {
    var cik := CikOf(ByTicker(tickerResp, identifier));
    if cik.Some? && cik.value != [] then cik else CikOf(ByName(nameResp, identifier))
  }

  /** search_companies (line 177): the search result cut at `limit` by Python
      slicing. */
  function SearchCompanies(resp: Response, query: string, limit: int): seq<Company>
  {
    PyPrefix(Search(resp, query), limit)
  }

  /** The ticker lookup finds the first search result whose ticker is the
      query upper-cased, and finds nothing exactly when no search result has
      that ticker. */
  lemma ByTickerSpec(resp: Response, ticker: string)
    ensures ByTicker(resp, ticker).Some? ==>
      exists i | 0 <= i < |Search(resp, ticker)| ::
        Search(resp, ticker)[i] == ByTicker(resp, ticker).value &&
        (forall j | 0 <= j < i :: Search(resp, ticker)[j].ticker != Upper(ticker))
    ensures ByTicker(resp, ticker).Some? ==> ByTicker(resp, ticker).value.ticker == Upper(ticker)
    ensures ByTicker(resp, ticker).None? <==>
      forall j | 0 <= j < |Search(resp, ticker)| :: Search(resp, ticker)[j].ticker != Upper(ticker)
  {
    var cs := Search(resp, ticker);
    var i := TickerIndex(cs, ticker);
    SearchShape(resp, ticker);
    assert forall j | 0 <= j < |cs| :: cs[j].ticker == Upper(cs[j].ticker) by {
      forall j | 0 <= j < |cs| ensures cs[j].ticker == Upper(cs[j].ticker) {
        assert Good(ticker, cs[j]);
      }
    }
    if i < |cs| {
      assert cs[i] == ByTicker(resp, ticker).value;
    }
  }

  /** The name lookup takes the first search result, and finds nothing exactly
      when the search finds nothing. */
  lemma ByNameSpec(resp: Response, name: string)
    ensures ByName(resp, name).None? <==> Search(resp, name) == []
    ensures ByName(resp, name).Some? ==> ByName(resp, name).value == Search(resp, name)[0] && Good(name, ByName(resp, name).value)
  {
    SearchShape(resp, name);
  }

  /** The name lookup is consulted only when the ticker lookup finds nothing;
      a CIK that is found is never all zeros. */
  lemma CikByNameOrTickerSpec(tickerResp: Response, nameResp: Response, identifier: string)
    ensures ByTicker(tickerResp, identifier).Some? ==>
      CikByNameOrTicker(tickerResp, nameResp, identifier) == Some(ByTicker(tickerResp, identifier).value.cik)
    ensures ByTicker(tickerResp, identifier).None? ==>
      CikByNameOrTicker(tickerResp, nameResp, identifier) == CikOf(ByName(nameResp, identifier))
    ensures CikByNameOrTicker(tickerResp, nameResp, identifier).Some? ==>
      |CikByNameOrTicker(tickerResp, nameResp, identifier).value| >= CikWidth &&
      CikByNameOrTicker(tickerResp, nameResp, identifier).value != ZeroCik
  {
    var cs := Search(tickerResp, identifier);
    SearchShape(tickerResp, identifier);
    SearchShape(nameResp, identifier);
    var i := TickerIndex(cs, identifier);
    if i < |cs| {
      assert Good(identifier, cs[i]);
    }
  }

  /** search_companies returns the first `limit` results of the search (all
      but the last -limit for a negative limit), so never more than ten. */
  lemma SearchCompaniesSpec(resp: Response, query: string, limit: int)
    ensures SearchCompanies(resp, query, limit) <= Search(resp, query)
    ensures |SearchCompanies(resp, query, limit)| <= MaxResults
    ensures limit >= 0 ==> |SearchCompanies(resp, query, limit)| == Min(limit, |Search(resp, query)|)
  {
    SearchShape(resp, query);
  }

  /** get_company_by_ticker (lines 92-99). */
  method GetCompanyByTicker(resp: Response, ticker: string) returns (company: Option<Company>)
    ensures company == ByTicker(resp, ticker)
  {
    var companies := SearchCompany(resp, ticker);
    company := FindTicker(companies, ticker);
  }

  /** The loop of lines 95-99: return the first company whose ticker matches,
      ignoring case. */
  method FindTicker(companies: seq<Company>, ticker: string) returns (company: Option<Company>)
    ensures company == FirstWithTicker(companies, ticker)
  {
    var i := 0;
    while i < |companies|
      invariant 0 <= i <= |companies|
      invariant forall j | 0 <= j < i :: Upper(companies[j].ticker) != Upper(ticker)
    {
      if Upper(companies[i].ticker) == Upper(ticker) {
        return Some(companies[i]);
      }
      i := i + 1;
    }
    return None;
  }

  method GetCompanyByName(resp: Response, name: string) returns (company: Option<Company>)
    ensures company == ByName(resp, name)
  {
    var companies := SearchCompany(resp, name);
    if companies != [] {
      return Some(companies[0]);
    }
    return None;
  }

  method GetCikByTicker(resp: Response, ticker: string) returns (cik: Option<string>)
    ensures cik == CikOf(ByTicker(resp, ticker))
  {
    var company := GetCompanyByTicker(resp, ticker);
    cik := if company.Some? then Some(company.value.cik) else None;
  }

  method GetCikByName(resp: Response, name: string) returns (cik: Option<string>)
    ensures cik == CikOf(ByName(resp, name))
  {
    var company := GetCompanyByName(resp, name);
    cik := if company.Some? then Some(company.value.cik) else None;
  }

  method GetCikByNameOrTicker(tickerResp: Response, nameResp: Response, identifier: string) returns (cik: Option<string>)
    ensures cik == CikByNameOrTicker(tickerResp, nameResp, identifier)
  {
    cik := GetCikByTicker(tickerResp, identifier);
    if cik.Some? && cik.value != [] {
      return;
    }
    cik := GetCikByName(nameResp, identifier);
  }

  method SearchCompaniesLimited(resp: Response, query: string, limit: int) returns (companies: seq<Company>)
    ensures companies == SearchCompanies(resp, query, limit)
  {
    var all := SearchCompany(resp, query);
    companies := if limit >= 0 then all[..Min(limit, |all|)] else all[..Max(0, |all| + limit)];
  }
}
