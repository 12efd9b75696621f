/**
  The readership request after its language code has been validated, shared
  by both readership handlers: the code is taken from the request path, the
  `limit` parameter is parsed, the book and author totals for the language
  are fetched, the countries speaking the language are looked up, and one
  record is built per country, up to the limit, each carrying the country's
  population.

  A population lookup that gets no response, or whose body does not decode
  to a non-empty list, makes the handler index a missing element or
  dereference a nil response: the request ends in a panic (`Aborted`).
 */
module ReadershipRequest {
  import opened Shared
  import Strconv
  import GoStrings
  import BookCountHandler

  datatype Outcome = Ok(records: seq<Readership>) | Rejected(status: int) | Aborted

  /** The language code: the first `/`-separated segment of the path once the
      readership prefix is cut off. */
  function LanguageCodeFromPath(path: string): (code: string)
    ensures '/' !in code
  {
    GoStrings.FirstSegment(GoStrings.TrimPrefix(path, ReadershipPath), '/')
  }

  /** A path naming `code` under the readership prefix, with or without
      further segments after it, yields `code`. */
  lemma LanguageCodeOfPath(code: string, tail: string)
    requires '/' !in code
    requires tail == "" || tail[0] == '/'
    ensures LanguageCodeFromPath(ReadershipPath + code + tail) == code
  {
    var path := ReadershipPath + code + tail;
    assert path[..|ReadershipPath|] == ReadershipPath;
    assert GoStrings.TrimPrefix(path, ReadershipPath) == code + tail;
    if tail == "" {
      assert code + tail == code;
    } else {
      assert code + tail == code + ['/'] + tail[1..];
      GoStrings.FirstSegmentOf(code, '/', tail[1..]);
    }
  }

  /** Repeated segments are ignored: only the first one counts. */
  lemma RepeatedSegmentsIgnored()
    ensures LanguageCodeFromPath("/librarystats/v1/readership/no/no/en/en") == "no"
  {
    assert "/librarystats/v1/readership/no/no/en/en" == ReadershipPath + "no" + "/no/en/en";
    LanguageCodeOfPath("no", "/no/en/en");
  }

  /** The `limit` parameter: absent means 0 (no limit); otherwise it must be a
      decimal integer of at least 1. No value means the request is refused. */
  function ParseLimit(limitStr: string): (r: Option<int>)
    ensures r == Some(0) <==> limitStr == ""
    ensures limitStr != "" ==> (r.Some? <==> Strconv.Atoi(limitStr).Some? && Strconv.Atoi(limitStr).value >= 1)
    ensures r.Some? && limitStr != "" ==> r == Strconv.Atoi(limitStr)
  {
    if limitStr == "" then Some(0)
    else
      var parsed := Strconv.Atoi(limitStr);
      if parsed.None? || parsed.value < 1 then None else parsed
  }

  /** Every positive 64-bit limit written in decimal is accepted as itself. */
  lemma ParseLimitOfDecimal(n: int)
    requires 1 <= n <= Strconv.MaxInt64
    ensures ParseLimit(Strconv.Itoa(n)) == Some(n)
  {
    Strconv.AtoiItoa(n);
  }

  /** Zero, negative and non-numeric limits are refused. */
  lemma ParseLimitRejects()
    ensures ParseLimit("0") == None
    ensures ParseLimit("-3") == None
    ensures ParseLimit("ten") == None
  {
    assert Strconv.Itoa(0) == "0";
    Strconv.AtoiItoa(0);
    assert Strconv.Itoa(-3) == "-3";
    Strconv.AtoiItoa(-3);
    assert !Strconv.IsDigit("ten"[0]);
  }

  function CountriesUrl(code: string): string {
    LanguageApi + code
  }

  function PopulationUrl(country: Country): string {
    CurrentRestCountriesApi + "/alpha/" + country.iso31661Alpha3
  }

  /** The population of the first decoded country; no value where the
      handler panics (no response, undecodable body, empty list). */
  function GetReadership(f: Fetch<seq<CountryFromRestCountries>>): (r: Option<int>)
    ensures r.Some? <==> f.Decoded? && |f.value| > 0
  {
    if f.Decoded? && |f.value| > 0 then Some(f.value[0].population) else None
  }

  function Record(country: Country, books: int, authors: int, population: int): Readership {
    Readership(country.officialName, country.iso31661Alpha2, books, authors, population)
  }

  /** The records for `countries`, built in order; no value when some
      population lookup panics. */
  function Readerships(countries: seq<Country>, books: int, authors: int,
                       population: string -> Fetch<seq<CountryFromRestCountries>>): Option<seq<Readership>>
    decreases |countries|
  {
    if |countries| == 0 then Some([])
    else
      var last := countries[|countries| - 1];
      match Readerships(countries[..|countries| - 1], books, authors, population)
      case None => None
      case Some(rs) =>
        match GetReadership(population(PopulationUrl(last)))
        case None => None
        case Some(p) => Some(rs + [Record(last, books, authors, p)])
  }

  predicate PopulationKnown(country: Country, population: string -> Fetch<seq<CountryFromRestCountries>>) {
    GetReadership(population(PopulationUrl(country))).Some?
  }

  /** The records exist exactly when every population lookup answers; then
      record i describes country i, with the shared book and author totals
      and the population of the first element of country i's lookup. */
  lemma {:induction false} ReadershipsClosedForm(countries: seq<Country>, books: int, authors: int,
                                                 population: string -> Fetch<seq<CountryFromRestCountries>>)
    ensures Readerships(countries, books, authors, population).Some? <==>
      forall i :: 0 <= i < |countries| ==> PopulationKnown(countries[i], population)
    ensures Readerships(countries, books, authors, population).Some? ==>
      var rs := Readerships(countries, books, authors, population).value;
      && |rs| == |countries|
      && forall i :: 0 <= i < |countries| ==>
           rs[i] == Record(countries[i], books, authors, population(PopulationUrl(countries[i])).value[0].population)
    decreases |countries|
  {
    if |countries| > 0 {
      var init := countries[..|countries| - 1];
      ReadershipsClosedForm(init, books, authors, population);
      assert forall i :: 0 <= i < |init| ==> init[i] == countries[i];
    }
  }

  /** How many countries get a record: all of them without a limit, at most
      `limit` with one. */
  function RecordCount(limit: int, countries: int): (n: int)
    ensures limit > 0 ==> n == if limit < countries then limit else countries
    ensures limit <= 0 ==> n == countries
  {
    if limit > 0 && limit < countries then limit else countries
  }

  /** The loop over the countries, stopping at the limit. */
  method BuildReaderships(countries: seq<Country>, limit: int, books: int, authors: int,
                          population: string -> Fetch<seq<CountryFromRestCountries>>)
    returns (r: Option<seq<Readership>>)
    ensures r == Readerships(countries[..RecordCount(limit, |countries|)], books, authors, population)
  {
    var readerships: seq<Readership> := [];
    var i := 0;
    while i < |countries|
      invariant 0 <= i <= RecordCount(limit, |countries|)
      invariant Readerships(countries[..i], books, authors, population) == Some(readerships)
    {
      if limit > 0 && i >= limit {
        break;
      }
      var country := countries[i];
      assert countries[..i + 1][..i] == countries[..i];
      var inhabitants := GetReadership(population(PopulationUrl(country)));
      if inhabitants.None? {
        var taken := countries[..RecordCount(limit, |countries|)];
        ReadershipsClosedForm(taken, books, authors, population);
        assert taken[i] == country;
        return None;
      }
      readerships := readerships + [Record(country, books, authors, inhabitants.value)];
      i := i + 1;
    }
    assert i == RecordCount(limit, |countries|);
    return Some(readerships);
  }

  /** The answer to a readership request whose code passed validation. */
  function ValidatedResponse(code: string, limitStr: string, remote: Remote): Outcome {
    match ParseLimit(limitStr)
    case None => Rejected(StatusBadRequest)
    case Some(limit) =>
      match BookCountHandler.AuthorsAndBooks(code, remote)
      case None => Aborted
      case Some(totals) =>
        match remote.languages(CountriesUrl(code))
        case TransportError => Rejected(StatusServiceUnavailable)
        case DecodeError => Rejected(StatusInternalServerError)
        case Decoded(countries) =>
          if |countries| == 0 then Rejected(StatusNotFound)
          else
            match Readerships(countries[..RecordCount(limit, |countries|)], totals.1, totals.0, remote.population)
            case None => Aborted
            case Some(rs) => Ok(rs)
  }

  method ServeValidated(code: string, limitStr: string, remote: Remote) returns (resp: Outcome)
    ensures resp == ValidatedResponse(code, limitStr, remote)
  {
    var limit := 0;
    if limitStr != "" {
      var parsed := Strconv.Atoi(limitStr);
      if parsed.None? || parsed.value < 1 {
        return Rejected(StatusBadRequest);
      }
      limit := parsed.value;
    }
    var totals := BookCountHandler.GetAuthorsAndBooks(code, remote);
    if totals.None? {
      return Aborted;
    }
    var (authors, books) := totals.value;
    var countries := remote.languages(CountriesUrl(code));
    if countries.TransportError? {
      return Rejected(StatusServiceUnavailable);
    }
    if countries.DecodeError? {
      return Rejected(StatusInternalServerError);
    }
    if |countries.value| == 0 {
      return Rejected(StatusNotFound);
    }
    var readerships := BuildReaderships(countries.value, limit, books, authors, remote.population);
    if readerships.None? {
      return Aborted;
    }
    return Ok(readerships.value);
  }

  /** A refused limit ends the request before any lookup. */
  lemma BadLimitRejectedBeforeLookups(code: string, limitStr: string, remote: Remote, other: Remote)
    requires ParseLimit(limitStr).None?
    ensures ValidatedResponse(code, limitStr, remote) == ValidatedResponse(code, limitStr, other) == Rejected(StatusBadRequest)
  {
  }

  /** A failed country lookup and an empty country list are told apart: the
      first ends the request with the lookup's error status, the second with
      404. */
  lemma CountryLookupOutcomes(code: string, limitStr: string, remote: Remote)
    requires ParseLimit(limitStr).Some? && BookCountHandler.AuthorsAndBooks(code, remote).Some?
    ensures remote.languages(CountriesUrl(code)).TransportError? ==>
      ValidatedResponse(code, limitStr, remote) == Rejected(StatusServiceUnavailable)
    ensures remote.languages(CountriesUrl(code)).DecodeError? ==>
      ValidatedResponse(code, limitStr, remote) == Rejected(StatusInternalServerError)
    ensures remote.languages(CountriesUrl(code)) == Decoded([]) ==>
      ValidatedResponse(code, limitStr, remote) == Rejected(StatusNotFound)
  {
  }

  /** The records of a successful answer: one per country in lookup order,
      `min(limit, |countries|)` of them with a limit and all without, each
      with the same book and author totals and the population of the first
      element of its country's lookup. */
  lemma ValidatedRecords(code: string, limitStr: string, remote: Remote, limit: int,
                         countries: seq<Country>, authors: int, books: int)
    requires ParseLimit(limitStr) == Some(limit)
    requires BookCountHandler.AuthorsAndBooks(code, remote) == Some((authors, books))
    requires remote.languages(CountriesUrl(code)) == Decoded(countries)
    requires ValidatedResponse(code, limitStr, remote).Ok?
    ensures var rs := ValidatedResponse(code, limitStr, remote).records;
      && 0 < |countries|
      && |rs| == (if limit > 0 && limit < |countries| then limit else |countries|)
      && forall i :: 0 <= i < |rs| ==>
           && rs[i].country == countries[i].officialName
           && rs[i].isocode == countries[i].iso31661Alpha2
           && rs[i].books == books && rs[i].authors == authors
           && remote.population(PopulationUrl(countries[i])).Decoded?
           && |remote.population(PopulationUrl(countries[i])).value| > 0
           && rs[i].readership == remote.population(PopulationUrl(countries[i])).value[0].population
  {
    var taken := countries[..RecordCount(limit, |countries|)];
    ReadershipsClosedForm(taken, books, authors, remote.population);
    assert forall i :: 0 <= i < |taken| ==> taken[i] == countries[i];
  }

  /** A validated request panics exactly when the language's catalog request
      gets no response or a country within the limit has no usable
      population answer. */
  lemma ValidatedAborts(code: string, limitStr: string, remote: Remote, limit: int, countries: seq<Country>)
    requires ParseLimit(limitStr) == Some(limit)
    requires remote.languages(CountriesUrl(code)) == Decoded(countries) && |countries| > 0
    ensures ValidatedResponse(code, limitStr, remote) == Aborted <==>
      || BookCountHandler.AuthorsAndBooks(code, remote).None?
      || exists i :: 0 <= i < RecordCount(limit, |countries|) && !PopulationKnown(countries[i], remote.population)
  {
    var taken := countries[..RecordCount(limit, |countries|)];
    var totals := BookCountHandler.AuthorsAndBooks(code, remote);
    if totals.Some? {
      ReadershipsClosedForm(taken, totals.value.1, totals.value.0, remote.population);
      assert forall i :: 0 <= i < |taken| ==> taken[i] == countries[i];
    }
  }
}
