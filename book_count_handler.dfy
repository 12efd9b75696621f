/**
  The book-count request (`handleBookCountGetRequest`) and the book and
  author totals the readership request reuses (`GetAuthorsAndBooks`).

  A request names a comma-separated list of language codes. The codes are
  de-duplicated; for each code the first catalog page is requested; a code
  whose first page counts no book gets an all-zero entry that keeps its code;
  otherwise the result is paginated to the end, its distinct authors are
  counted and the share of the whole catalog is truncated to five decimals.
  Entries are stored by index in de-duplicated order and then filtered.

  A catalog request that gets no response leaves a nil response, which the
  handler dereferences: the request then ends in a panic (`Aborted`). So
  does a code that makes the request URL unparsable: `http.NewRequest`
  then returns a nil request, whose header the handler sets.
 */
module BookCountHandler {
  import opened Shared
  import GoStrings
  import Dedup
  import Pagination
  import Authors
  import GoUrl

  datatype Response = Ok(counts: seq<BookCount>) | Rejected(status: int) | Aborted

  /** The first-page request for one language. */
  function LanguageUrl(code: string): string {
    CurrentGutendexApi + "?languages=" + code
  }

  function Abs(x: int): nat {
    if x < 0 then -x else x
  }

  /** The share of `books` in `total` in units of 1e-5, rounded down. */
  function Share(books: nat, total: nat): (q: nat)
    requires total > 0
    ensures q * total <= books * 100000 < (q + 1) * total
    ensures books <= total ==> q <= 100000
  {
    QuotientBounds(books * 100000, total, books);
    books * 100000 / total
  }

  /** Division of naturals rounds down; the quotient of `100000 * b` by a
      divisor of at least `b` is at most 100000. */
  lemma QuotientBounds(n: nat, d: nat, b: nat)
    requires d > 0 && n == b * 100000
    ensures (n / d) * d <= n < (n / d + 1) * d
    ensures b <= d ==> n / d <= 100000
  {
    var q := n / d;
    assert n == q * d + n % d;
    assert (q + 1) * d == q * d + d;
    if b <= d && q > 100000 {
      MultiplyMonotone(100001, q, d);
      assert false;
    }
  }

  lemma MultiplyMonotone(a: nat, b: nat, d: nat)
    requires a <= b
    ensures a * d <= b * d
  {
    assert b * d == a * d + (b - a) * d;
  }

  /** `int(float64(books) / float64(totalBooks) * 100000)` taken over the
      rationals: the share in units of 1e-5, truncated toward zero whatever
      the signs. A total of 0 gives 0. */
  function TruncatedFraction(books: int, totalBooks: int): (f: int)
    ensures totalBooks != 0 ==> Abs(f) == Share(Abs(books), Abs(totalBooks))
    ensures (books >= 0 && totalBooks >= 0) || (books <= 0 && totalBooks <= 0) ==> f >= 0
    ensures (books >= 0 && totalBooks <= 0) || (books <= 0 && totalBooks >= 0) ==> f <= 0
    ensures totalBooks > 0 && 0 <= books <= totalBooks ==> 0 <= f <= 100000
  {
    if totalBooks == 0 then 0
    else
      var magnitude: int := Share(Abs(books), Abs(totalBooks));
      if (books < 0) == (totalBooks < 0) then magnitude else -magnitude
  }

  /** Truncation, not rounding: 0.123456789 is reported as 0.12345. */
  lemma FractionTruncates()
    ensures TruncatedFraction(123456789, 1000000000) == 12345
  {
  }

  /** A negative share is truncated toward zero too: 1/-3 is -0.33333. */
  lemma NegativeFractionTruncatesTowardZero()
    ensures TruncatedFraction(1, -3) == -33333
    ensures TruncatedFraction(-2, 3) == -66666
  {
  }

  /** The entries `removeEmptyElements` drops. */
  predicate IsEmptyCount(c: BookCount) {
    c.language == "" && c.books == 0 && c.authors == 0 && c.fraction == 0
  }

  function KeepNonEmpty(counts: seq<BookCount>): (r: seq<BookCount>)
    decreases |counts|
  {
    if |counts| == 0 then []
    else if IsEmptyCount(counts[|counts| - 1]) then KeepNonEmpty(counts[..|counts| - 1])
    else KeepNonEmpty(counts[..|counts| - 1]) + [counts[|counts| - 1]]
  }

  method RemoveEmptyElements(counts: seq<BookCount>) returns (newCounts: seq<BookCount>)
    ensures newCounts == KeepNonEmpty(counts)
  {
    newCounts := [];
    for i := 0 to |counts|
      invariant newCounts == KeepNonEmpty(counts[..i])
    {
      assert counts[..i + 1][..i] == counts[..i];
      if IsEmptyCount(counts[i]) {
        continue;
      } else {
        newCounts := newCounts + [counts[i]];
      }
    }
    assert counts[..|counts|] == counts;
  }

  /** The filter keeps exactly the entries that are not empty, each as often
      as it occurs, in order. */
  lemma KeepNonEmptyMembers(counts: seq<BookCount>)
    ensures forall x :: x in KeepNonEmpty(counts) <==> x in counts && !IsEmptyCount(x)
    ensures forall x :: multiset(KeepNonEmpty(counts))[x] == if IsEmptyCount(x) then 0 else multiset(counts)[x]
    ensures Dedup.IsSubsequence(KeepNonEmpty(counts), counts)
  {
    KeepNonEmptyMultiset(counts);
    KeepNonEmptySubsequence(counts);
    forall x
      ensures x in KeepNonEmpty(counts) <==> x in counts && !IsEmptyCount(x)
    {
      assert x in KeepNonEmpty(counts) <==> multiset(KeepNonEmpty(counts))[x] > 0;
      assert x in counts <==> multiset(counts)[x] > 0;
    }
  }

  lemma {:induction false} KeepNonEmptyMultiset(counts: seq<BookCount>)
    ensures forall x :: multiset(KeepNonEmpty(counts))[x] == if IsEmptyCount(x) then 0 else multiset(counts)[x]
    decreases |counts|
  {
    if |counts| > 0 {
      var init := counts[..|counts| - 1];
      var last := counts[|counts| - 1];
      KeepNonEmptyMultiset(init);
      assert counts == init + [last];
      assert multiset(counts) == multiset(init) + multiset{last};
      if !IsEmptyCount(last) {
        assert multiset(KeepNonEmpty(counts)) == multiset(KeepNonEmpty(init)) + multiset{last};
      }
    }
  }

  lemma {:induction false} KeepNonEmptySubsequence(counts: seq<BookCount>)
    ensures Dedup.IsSubsequence(KeepNonEmpty(counts), counts)
    decreases |counts|
  {
    if |counts| > 0 {
      var init := counts[..|counts| - 1];
      var last := counts[|counts| - 1];
      KeepNonEmptySubsequence(init);
      if IsEmptyCount(last) {
        Dedup.SubsequenceExtend(KeepNonEmpty(init), init, last);
        assert init + [last] == counts;
      } else {
        var r := KeepNonEmpty(counts);
        assert r[..|r| - 1] == KeepNonEmpty(init);
      }
    }
  }

  /** An entry for a language that matched nothing still names its language,
      so the filter keeps it. */
  lemma ZeroEntryWithLanguageKept(code: string)
    requires code != ""
    ensures KeepNonEmpty([BookCount(code, 0, 0, 0)]) == [BookCount(code, 0, 0, 0)]
  {
    assert [BookCount(code, 0, 0, 0)][..0] == [];
  }

  /** The entry for one language, given its decoded first page. */
  function LanguageStat(code: string, first: GutendexResult, totalBooks: int, remote: Remote): BookCount {
    if first.count == 0 then BookCount(code, 0, 0, 0)
    else
      var full := Pagination.Paginate(first, remote.validUrl, remote.catalog, remote.fuel).0;
      BookCount(code, full.count, |Authors.AuthorKeys(full.results)|, TruncatedFraction(full.count, totalBooks))
  }

  /** A language whose first page counts no book gets the all-zero entry
      under its own code, and no further page is fetched for it: the entry
      is the same whatever the catalog would answer. */
  lemma ZeroCountSkipsPagination(code: string, first: GutendexResult, totalBooks: int, remote: Remote, other: Remote)
    requires first.count == 0
    ensures LanguageStat(code, first, totalBooks, remote) == LanguageStat(code, first, totalBooks, other)
                                                          == BookCount(code, 0, 0, 0)
  {
  }

  /** Along a chain of result pages the entry reports the first page's count
      as its books, the distinct authors of all results of the chain, and the
      truncated share of the catalog total. */
  lemma LanguageStatAlongChain(code: string, first: GutendexResult, totalBooks: int, remote: Remote,
                               pages: seq<GutendexResult>)
    requires first.count != 0
    requires Pagination.Chain(first.next, pages, remote.validUrl, remote.catalog)
    requires |pages| <= remote.fuel
    ensures LanguageStat(code, first, totalBooks, remote) ==
      BookCount(code, first.count, |Authors.AuthorKeys(first.results + Pagination.AllResults(pages))|,
                TruncatedFraction(first.count, totalBooks))
  {
    Pagination.PaginateFollowsChain(first, pages, remote.validUrl, remote.catalog, remote.fuel);
  }

  /** The decoded first page for a language. */
  function FirstPage(code: string, remote: Remote): GutendexResult {
    Pagination.DecodedPage(remote.catalog(LanguageUrl(code)))
  }

  /** The entries before filtering: entry i belongs to code i. */
  function Stats(codes: seq<string>, totalBooks: int, remote: Remote): (stats: seq<BookCount>)
    ensures |stats| == |codes|
    ensures forall i :: 0 <= i < |codes| ==> stats[i].language == codes[i]
  {
    seq(|codes|, i requires 0 <= i < |codes| => LanguageStat(codes[i], FirstPage(codes[i], remote), totalBooks, remote))
  }

  /** The codes of a `language` query, split at commas, first occurrences only. */
  function RequestedCodes(languageQuery: string): seq<string> {
    Dedup.FirstOccurrences(GoStrings.Split(languageQuery, ','))
  }

  /** The first-page request for `code` panics: its URL does not parse, or
      it gets no response. */
  predicate RequestFails(code: string, remote: Remote) {
    !GoUrl.RequestUrlParses(LanguageUrl(code)) || remote.catalog(LanguageUrl(code)).TransportError?
  }

  predicate AnyRequestFails(codes: seq<string>, remote: Remote) {
    || remote.catalog(CurrentGutendexApi).TransportError?
    || exists i :: 0 <= i < |codes| && RequestFails(codes[i], remote)
  }

  function BookCountResponse(languageQuery: string, remote: Remote): Response {
    if languageQuery == "" then Rejected(StatusBadRequest)
    else
      var codes := RequestedCodes(languageQuery);
      if AnyRequestFails(codes, remote) then Aborted
      else
        var totalBooks := Pagination.DecodedPage(remote.catalog(CurrentGutendexApi)).count;
        Ok(KeepNonEmpty(Stats(codes, totalBooks, remote)))
  }

  /** The loop body of the handler for one language whose first page answered. */
  method CountLanguage(code: string, decoded: GutendexResult, totalBooks: int, remote: Remote) returns (c: BookCount)
    ensures c == LanguageStat(code, decoded, totalBooks, remote)
  {
    if decoded.count == 0 {
      return BookCount(code, 0, 0, 0);
    }
    var full, _ := Pagination.RebuildFullGutendexResult(decoded, remote.validUrl, remote.catalog, remote.fuel);
    var booksOfLanguage := full.count;
    var fraction := TruncatedFraction(booksOfLanguage, totalBooks);
    var uniqueAuthors := Authors.GetUniqueAuthors(full.results);
    return BookCount(code, booksOfLanguage, uniqueAuthors, fraction);
  }

  /** Every first-page request answered and entry k computed for code k:
      the answer is the filtered entries. */
  lemma AnsweredResponse(languageQuery: string, remote: Remote, stats: seq<BookCount>)
    requires languageQuery != "" && !remote.catalog(CurrentGutendexApi).TransportError?
    requires var codes := RequestedCodes(languageQuery);
      && |stats| == |codes|
      && forall k :: 0 <= k < |codes| ==>
           && !RequestFails(codes[k], remote)
           && stats[k] == LanguageStat(codes[k], FirstPage(codes[k], remote),
                                       Pagination.DecodedPage(remote.catalog(CurrentGutendexApi)).count, remote)
    ensures BookCountResponse(languageQuery, remote) == Ok(KeepNonEmpty(stats))
  {
    var codes := RequestedCodes(languageQuery);
    var totalBooks := Pagination.DecodedPage(remote.catalog(CurrentGutendexApi)).count;
    assert stats == Stats(codes, totalBooks, remote);
  }

  /** A failed first-page request ends the request in a panic. */
  lemma FailedRequestAborts(languageQuery: string, remote: Remote, k: int)
    requires languageQuery != ""
    requires 0 <= k < |RequestedCodes(languageQuery)| && RequestFails(RequestedCodes(languageQuery)[k], remote)
    ensures BookCountResponse(languageQuery, remote) == Aborted
  {
  }

  /** The handler's first loop: one first-page request per code, in order
      (`makeGutendexRequest`). `requested` is false when a code makes the URL
      unparsable: `http.NewRequest` then returns a nil request, whose header
      is set, and the loop panics there. */
  method RequestFirstPages(codes: seq<string>, remote: Remote)
    returns (responses: seq<Fetch<GutendexResult>>, requested: bool)
    ensures requested <==> forall k :: 0 <= k < |codes| ==> GoUrl.RequestUrlParses(LanguageUrl(codes[k]))
    ensures requested ==> |responses| == |codes|
    ensures requested ==> forall k :: 0 <= k < |codes| ==> responses[k] == remote.catalog(LanguageUrl(codes[k]))
  {
    responses := seq(|codes|, _ => TransportError);
    for i := 0 to |codes|
      invariant |responses| == |codes|
      invariant forall k :: 0 <= k < i ==> GoUrl.RequestUrlParses(LanguageUrl(codes[k]))
      invariant forall k :: 0 <= k < i ==> responses[k] == remote.catalog(LanguageUrl(codes[k]))
    {
      var url := LanguageUrl(codes[i]);
      if !GoUrl.RequestUrlParses(url) {
        return responses, false;
      }
      responses := responses[i := remote.catalog(url)];
    }
    return responses, true;
  }

  /** The handler's second loop: entry i for code i, from its first page;
      `answered` is false when a first page got no response, whose nil body
      the loop then dereferences. */
  method CountLanguages(codes: seq<string>, responses: seq<Fetch<GutendexResult>>, totalBooks: int, remote: Remote)
    returns (stats: seq<BookCount>, answered: bool)
    requires |responses| == |codes|
    ensures answered <==> forall k :: 0 <= k < |codes| ==> !responses[k].TransportError?
    ensures answered ==> |stats| == |codes|
    ensures answered ==> forall k :: 0 <= k < |codes| ==>
      stats[k] == LanguageStat(codes[k], Pagination.DecodedPage(responses[k]), totalBooks, remote)
  {
    var bookCounts := seq(|codes|, _ => ZeroBookCount);
    for i := 0 to |codes|
      invariant |bookCounts| == |codes|
      invariant forall k :: 0 <= k < i ==> !responses[k].TransportError?
      invariant forall k :: 0 <= k < i ==>
        bookCounts[k] == LanguageStat(codes[k], Pagination.DecodedPage(responses[k]), totalBooks, remote)
    {
      if responses[i].TransportError? {
        return [], false;
      }
      var c := CountLanguage(codes[i], Pagination.DecodedPage(responses[i]), totalBooks, remote);
      bookCounts := bookCounts[i := c];
    }
    return bookCounts, true;
  }

  method HandleBookCountGetRequest(languageQuery: string, remote: Remote) returns (resp: Response)
    ensures resp == BookCountResponse(languageQuery, remote)
  {
    if languageQuery == "" {
      return Rejected(StatusBadRequest);
    }
    var languageQueries := GoStrings.Split(languageQuery, ',');
    languageQueries := Dedup.RemoveDuplicates(languageQueries);
    var n := |languageQueries|;

    var responses, requested := RequestFirstPages(languageQueries, remote);
    if !requested {
      var k :| 0 <= k < n && !GoUrl.RequestUrlParses(LanguageUrl(languageQueries[k]));
      FailedRequestAborts(languageQuery, remote, k);
      return Aborted;
    }

    var totalResponse := remote.catalog(CurrentGutendexApi);
    if totalResponse.TransportError? {
      return Aborted;
    }
    var totalBooks := Pagination.DecodedPage(totalResponse).count;

    var stats, answered := CountLanguages(languageQueries, responses, totalBooks, remote);
    if !answered {
      var k :| 0 <= k < n && responses[k].TransportError?;
      FailedRequestAborts(languageQuery, remote, k);
      return Aborted;
    }
    AnsweredResponse(languageQuery, remote, stats);
    var counts := RemoveEmptyElements(stats);
    return Ok(counts);
  }

  /** A request without a `language` parameter is refused with 400 whatever
      the catalog would answer. */
  lemma EmptyQueryRejected(remote: Remote, other: Remote)
    ensures BookCountResponse("", remote) == BookCountResponse("", other) == Rejected(StatusBadRequest)
  {
  }

  /** A code with a control byte ahead of any `#` makes its request URL
      unparsable. */
  lemma ControlByteUrl(code: string, i: int)
    requires 0 <= i < |code| && GoUrl.IsControlByte(code[i])
    requires forall j :: 0 <= j < i ==> code[j] != '#'
    ensures !GoUrl.RequestUrlParses(LanguageUrl(code))
  {
    var prefix := CurrentGutendexApi + "?languages=";
    var url := prefix + code;
    assert url == LanguageUrl(code);
    assert forall j :: 0 <= j < |prefix| ==> url[j] == prefix[j] != '#';
    assert forall j :: |prefix| <= j < |prefix| + i ==> url[j] == code[j - |prefix|] != '#';
    assert url[|prefix| + i] == code[i];
    GoUrl.ControlByteRefused(url, |prefix| + i);
  }

  /** A requested code with a control byte ahead of any `#` makes the request
      URL unparsable: the request panics whatever the catalog would answer. */
  lemma ControlByteCodeAborts(languageQuery: string, remote: Remote, code: string, i: int)
    requires code in GoStrings.Split(languageQuery, ',')
    requires 0 <= i < |code| && GoUrl.IsControlByte(code[i])
    requires forall j :: 0 <= j < i ==> code[j] != '#'
    ensures BookCountResponse(languageQuery, remote) == Aborted
  {
    assert GoStrings.Split("", ',') == [""];
    var codes := RequestedCodes(languageQuery);
    Dedup.FirstOccurrencesElements(GoStrings.Split(languageQuery, ','));
    var k :| 0 <= k < |codes| && codes[k] == code;
    ControlByteUrl(code, i);
    FailedRequestAborts(languageQuery, remote, k);
  }

  /** `?language=%01` asks for the code "\x01", and the request panics. */
  lemma ControlByteQueryAborts(remote: Remote)
    ensures BookCountResponse("\U{1}", remote) == Aborted
  {
    assert GoStrings.SepFree(["\U{1}"], ',');
    GoStrings.SplitJoin(["\U{1}"], ',');
    assert GoStrings.Join(["\U{1}"], ',') == "\U{1}";
    ControlByteCodeAborts("\U{1}", remote, "\U{1}", 0);
  }

  /** The codes the entries are reported under, in order. */
  function Languages(counts: seq<BookCount>): (langs: seq<string>)
    ensures |langs| == |counts|
    ensures forall i :: 0 <= i < |counts| ==> langs[i] == counts[i].language
  {
    seq(|counts|, i requires 0 <= i < |counts| => counts[i].language)
  }

  lemma {:induction false} LanguagesOfSubsequence(a: seq<BookCount>, b: seq<BookCount>)
    requires Dedup.IsSubsequence(a, b)
    ensures Dedup.IsSubsequence(Languages(a), Languages(b))
    decreases |b|
  {
    if |a| > 0 {
      assert Languages(a)[..|a| - 1] == Languages(a[..|a| - 1]);
      assert Languages(b)[..|b| - 1] == Languages(b[..|b| - 1]);
      if a[|a| - 1] == b[|b| - 1] {
        LanguagesOfSubsequence(a[..|a| - 1], b[..|b| - 1]);
      } else {
        LanguagesOfSubsequence(a, b[..|b| - 1]);
        if Languages(a)[|a| - 1] == Languages(b)[|b| - 1] {
          Dedup.SubsequenceShrink(Languages(a), Languages(b)[..|b| - 1]);
        }
      }
    }
  }

  /** A successful answer is the filtered entries of the requested codes. */
  lemma OkResponseCounts(languageQuery: string, remote: Remote)
    requires BookCountResponse(languageQuery, remote).Ok?
    ensures BookCountResponse(languageQuery, remote).counts ==
      KeepNonEmpty(Stats(RequestedCodes(languageQuery), Pagination.DecodedPage(remote.catalog(CurrentGutendexApi)).count, remote))
  {
  }

  /** The filtered entries of the requested codes: languages in request order
      with no language twice, an entry for every non-empty requested code, and
      each entry the statistics of its own language. */
  lemma {:induction false} FilteredStatsShape(languageQuery: string, totalBooks: int, remote: Remote)
    ensures var counts := KeepNonEmpty(Stats(RequestedCodes(languageQuery), totalBooks, remote));
      && Dedup.IsSubsequence(Languages(counts), RequestedCodes(languageQuery))
      && Dedup.NoDuplicates(Languages(counts))
      && (forall c :: c in GoStrings.Split(languageQuery, ',') && c != "" ==> c in Languages(counts))
      && (forall x :: x in counts ==> x == LanguageStat(x.language, FirstPage(x.language, remote), totalBooks, remote))
  {
    var codes := RequestedCodes(languageQuery);
    var stats := Stats(codes, totalBooks, remote);
    var counts := KeepNonEmpty(stats);
    KeepNonEmptyMembers(stats);
    LanguagesOfSubsequence(counts, stats);
    assert Languages(stats) == codes;
    Dedup.FirstOccurrencesElements(GoStrings.Split(languageQuery, ','));
    Dedup.SubsequenceDistinct(Languages(counts), codes);
    forall c | c in GoStrings.Split(languageQuery, ',') && c != ""
      ensures c in Languages(counts)
    {
      NamedEntryKept(stats, c);
    }
    KeptEntriesAreStats(codes, totalBooks, remote);
  }

  /** Every entry that survives the filter is the statistics of the language
      it names. */
  lemma KeptEntriesAreStats(codes: seq<string>, totalBooks: int, remote: Remote)
    ensures forall x :: x in KeepNonEmpty(Stats(codes, totalBooks, remote)) ==>
      x == LanguageStat(x.language, FirstPage(x.language, remote), totalBooks, remote)
  {
    var stats := Stats(codes, totalBooks, remote);
    KeepNonEmptyMembers(stats);
    forall x | x in KeepNonEmpty(stats)
      ensures x == LanguageStat(x.language, FirstPage(x.language, remote), totalBooks, remote)
    {
      var i :| 0 <= i < |stats| && stats[i] == x;
    }
  }

  /** An entry that names a language survives the filter. */
  lemma NamedEntryKept(stats: seq<BookCount>, c: string)
    requires c != "" && c in Languages(stats)
    ensures c in Languages(KeepNonEmpty(stats))
  {
    var counts := KeepNonEmpty(stats);
    KeepNonEmptyMembers(stats);
    var i :| 0 <= i < |stats| && Languages(stats)[i] == c;
    assert stats[i] in counts;
    var j :| 0 <= j < |counts| && counts[j] == stats[i];
    assert Languages(counts)[j] == c;
  }

  /** What a successful book-count answer holds: languages in request order
      with no language twice, an entry for every non-empty requested code, and
      each entry the statistics of its own language. */
  lemma BookCountResponseShape(languageQuery: string, remote: Remote)
    requires BookCountResponse(languageQuery, remote).Ok?
    ensures var counts := BookCountResponse(languageQuery, remote).counts;
      var totalBooks := Pagination.DecodedPage(remote.catalog(CurrentGutendexApi)).count;
      && Dedup.IsSubsequence(Languages(counts), RequestedCodes(languageQuery))
      && Dedup.NoDuplicates(Languages(counts))
      && (forall c :: c in GoStrings.Split(languageQuery, ',') && c != "" ==> c in Languages(counts))
      && (forall x :: x in counts ==> x == LanguageStat(x.language, FirstPage(x.language, remote), totalBooks, remote))
  {
    OkResponseCounts(languageQuery, remote);
    FilteredStatsShape(languageQuery, Pagination.DecodedPage(remote.catalog(CurrentGutendexApi)).count, remote);
  }

  /** As written, a requested code that matches no book is still reported,
      as an all-zero entry under its own code. */
  lemma ZeroMatchLanguageReported(languageQuery: string, remote: Remote, code: string)
    requires BookCountResponse(languageQuery, remote).Ok?
    requires code in GoStrings.Split(languageQuery, ',') && code != ""
    requires FirstPage(code, remote).count == 0
    ensures BookCount(code, 0, 0, 0) in BookCountResponse(languageQuery, remote).counts
  {
    BookCountResponseShape(languageQuery, remote);
    var counts := BookCountResponse(languageQuery, remote).counts;
    var j :| 0 <= j < |counts| && Languages(counts)[j] == code;
    assert counts[j] in counts;
  }

  /** "en,en" names one language. */
  lemma RepeatedCodeRequestedOnce()
    ensures RequestedCodes("en,en") == ["en"]
  {
    assert GoStrings.Join(["en", "en"], ',') == "en,en";
    GoStrings.SplitJoin(["en", "en"], ',');
    var split := ["en", "en"];
    assert split[..1] == ["en"] && split[..1][..0] == [];
  }

  /** A duplicated code is answered once: "en,en" gives one entry, for "en". */
  lemma DuplicateCodesAnsweredOnce(remote: Remote)
    requires BookCountResponse("en,en", remote).Ok?
    ensures |BookCountResponse("en,en", remote).counts| == 1
    ensures BookCountResponse("en,en", remote).counts[0].language == "en"
  {
    RepeatedCodeRequestedOnce();
    var totalBooks := Pagination.DecodedPage(remote.catalog(CurrentGutendexApi)).count;
    var stats := Stats(["en"], totalBooks, remote);
    AnsweredResponse("en,en", remote, stats);
    assert stats[..0] == [];
    assert KeepNonEmpty(stats) == [stats[0]];
  }

  function AuthorsAndBooks(code: string, remote: Remote): Option<(int, int)> {
    var res := remote.catalog(LanguageUrl(code));
    if RequestFails(code, remote) then None
    else
      var full := Pagination.Paginate(Pagination.DecodedPage(res), remote.validUrl, remote.catalog, remote.fuel).0;
      Some((|Authors.AuthorKeys(full.results)|, full.count))
  }

  /** The distinct authors of the fully paginated results and the first
      page's count; no value when the first request panics. */
  method GetAuthorsAndBooks(twoLetterLanguageCode: string, remote: Remote) returns (r: Option<(int, int)>)
    ensures r == AuthorsAndBooks(twoLetterLanguageCode, remote)
  {
    var url := LanguageUrl(twoLetterLanguageCode);
    if !GoUrl.RequestUrlParses(url) {
      return None;
    }
    var res := remote.catalog(url);
    if res.TransportError? {
      return None;
    }
    var mp := Pagination.DecodedPage(res);
    var full, _ := Pagination.RebuildFullGutendexResult(mp, remote.validUrl, remote.catalog, remote.fuel);
    var uniqueAuthors := Authors.GetUniqueAuthors(full.results);
    return Some((uniqueAuthors, full.count));
  }

  /** Along a chain of result pages the totals are the distinct authors of the
      first page's results followed by every page's results, and the first
      page's count. */
  lemma AuthorsAndBooksAlongChain(code: string, remote: Remote, pages: seq<GutendexResult>)
    requires !RequestFails(code, remote)
    requires Pagination.Chain(FirstPage(code, remote).next, pages, remote.validUrl, remote.catalog)
    requires |pages| <= remote.fuel
    ensures var first := FirstPage(code, remote);
      AuthorsAndBooks(code, remote) ==
        Some((|Authors.AuthorKeys(first.results + Pagination.AllResults(pages))|, first.count))
  {
    Pagination.PaginateFollowsChain(FirstPage(code, remote), pages, remote.validUrl, remote.catalog, remote.fuel);
  }
}
