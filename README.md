# Library statistics service: book counts and readership

This project models in Dafny the core of a small Go web service that reports statistics about the Gutenberg book catalog (served through the Gutendex API):

- **Book counts.** For a comma-separated list of language codes, the service reports how many books the catalog holds in each language. It also reports how many distinct authors wrote them, and what share of the whole catalog they make up, truncated to five decimals.
- **Readership.** For one two-letter language code, the service reports one record per country that speaks the language. Each record carries the country's population and the language's book and author totals.

The model covers these operations:

- The de-duplication of the requested codes.
- The pagination that follows `next` cursors until the catalog has been read in full.
- The distinct-author count.
- The per-language statistics and the filter applied to them.
- `GetAuthorsAndBooks`.
- The language-code checker.
- Both variants of the readership request: the one in the `server` package, which checks the code inline, and the one in the `handlers` package, which delegates the check to `LanguageCodeChecker`.

Modelling choices:

- **Strings.** A Go string is a Dafny `string` whose characters stand for its bytes (values 0 to 255). `len(s)` is therefore `|s|`.
- **Letters.** `unicode.IsLetter(rune(b))` on a byte `b` is the exact set of letters below U+0100: the ASCII letters, U+AA, U+B5, U+BA, U+C0–U+D6, U+D8–U+F6 and U+F8–U+FF.
- **Remote services.** The catalog, the country-by-language lookup, the population lookup and the existence probe are function-valued fields of `Shared.Remote`. `url.ParseRequestURI` is a validity predicate among those fields.
- **Fetch outcomes.** A fetch either gets no response (`TransportError`), gets a body that does not decode (`DecodeError`), or decodes to a value.
- **Request outcomes.** A request ends in one of three ways:
  - an answer (`Ok`);
  - an error status (`Rejected`);
  - a panic (`Aborted`), where the Go code dereferences a nil response or indexes an empty slice.
- **Pagination bound.** Pagination in the source has no bound. In the model, `fuel` in `Remote` limits how many cursor pages one pagination follows.

## Model

| member | source | states |
|---|---|---|
| Strconv.Itoa | server/bookCountHandler.go:290 | the decimal text of a year is never empty |
| Strconv.Atoi | server/readershipHandler.go:54 | a parsed value lies in the 64-bit range; text that is not an optional `+` or `-` followed by at least one decimal digit is refused |
| Strconv.DigitsBound | server/readershipHandler.go:54 | k decimal digits denote less than 10^k |
| Strconv.ShortDecimalParses | server/readershipHandler.go:54 | decimal text of at most 18 digits, signed or not, is always accepted, as the number it denotes |
| Strconv.NonCanonicalAccepted | server/readershipHandler.go:54 | "+5", "007" and "-0" are accepted as 5, 7 and 0 |
| Strconv.DigitsRoundTrip | server/bookCountHandler.go:290 | reading back the digits printed for a natural number gives that number |
| Strconv.AtoiItoa | server/handlers/readershipHandler.go:54 | parsing the decimal text of any 64-bit integer gives that integer back |
| Strconv.ItoaInjective | server/bookCountHandler.go:290 | different integers print to different texts |
| GoStrings.TrimPrefix | server/readershipHandler.go:34 | with the prefix present, prefix plus result is the input; without it, the input is unchanged |
| GoStrings.Split | server/bookCountHandler.go:50 | there is at least one piece; the first piece is a prefix of the input, free of the separator, and ends at the first separator or at the end |
| GoStrings.SplitSepFree | server/bookCountHandler.go:50 | no piece contains the separator |
| GoStrings.JoinSplit | server/bookCountHandler.go:50 | joining the pieces with the separator gives the input back |
| GoStrings.SplitJoin | server/bookCountHandler.go:50 | splitting the join of separator-free pieces gives the pieces back |
| GoStrings.FirstSegment | server/readershipHandler.go:38 | the first piece is a separator-free prefix that runs up to the first separator or to the end |
| GoStrings.FirstSegmentOf | server/handlers/readershipHandler.go:37-40 | a separator-free segment followed by the separator is the first piece, whatever follows |
| Dedup.RemoveDuplicates | server/bookCountHandler.go:135-157 | the loop over the `encountered` map yields the first occurrence of each code, in input order |
| Dedup.FirstOccurrencesElements | server/bookCountHandler.go:135-157 | the result holds exactly the input's elements, none twice |
| Dedup.FirstOccurrencesSubsequence | server/bookCountHandler.go:135-157 | the result is the input with elements left out |
| Dedup.FirstOccurrencesOrder | server/bookCountHandler.go:143-153 | an element placed before another in the result occurs in the input before every occurrence of the other |
| Dedup.FirstOccurrencesOfDistinct | server/bookCountHandler.go:135-157 | an input without repetitions comes back unchanged |
| Dedup.FirstOccurrencesIdempotent | server/bookCountHandler.go:135-157 | de-duplicating twice is de-duplicating once |
| Pagination.Paginate | server/bookCountHandler.go:162-200 | the count is never changed; earlier results stay a prefix; the loop ends normally exactly when no cursor is left; an invalid cursor or a cursor fetch without response is what stopped it when so reported |
| Pagination.RebuildFullGutendexResult | server/bookCountHandler.go:162-200 | the cursor-following loop computes the pagination's result and stop reason |
| Pagination.PaginateFollowsChain | server/bookCountHandler.go:163-197 | along a chain of pages, the result is the initial results followed by every page's results in fetch order, with the count untouched and no cursor left |
| Pagination.PaginateAbortsUnchanged | server/bookCountHandler.go:165-178 | an invalid cursor or a fetch without response returns the accumulated result at once, unchanged, and not as a normal end |
| Pagination.PaginateDecodeFailure | server/bookCountHandler.go:183-194 | an undecodable follow-up page adds nothing and clears both cursors, which ends the loop normally |
| Pagination.PaginateFuelMonotone | server/bookCountHandler.go:163 | the fuel bound only ever cuts the loop short: once a run ends for another reason, more fuel changes nothing |
| Authors.GetUniqueAuthors | server/bookCountHandler.go:273-296 | the nested loop over books and authors returns the number of distinct keys name+itoa(birth)+itoa(death) |
| Authors.AuthorKeysMembers | server/bookCountHandler.go:282-292 | a key is counted exactly when some author of some book has it |
| Authors.UniqueAuthorsBound | server/bookCountHandler.go:282-295 | there are never more distinct authors than author entries |
| Authors.UniqueAuthorsPermutation | server/bookCountHandler.go:283-292 | the count does not depend on the order of the books |
| Authors.AuthorlessBookAddsNothing | server/bookCountHandler.go:285-286 | a book without authors, wherever it stands, adds no author |
| Authors.KeyConcatenationCollides | server/bookCountHandler.go:287-290 | two different authors named Ann, born 1 and dying in 23 versus born 12 and dying in 3, share the key "Ann123" and count as one |
| BookCountHandler.Share | server/bookCountHandler.go:96-99 | the share of `books` in a positive `total`, in 1e-5 units, is the largest whole number q with q*total <= books*100000, and at most 100000 when books <= total |
| BookCountHandler.TruncatedFraction | server/bookCountHandler.go:93-99 | for a non-zero total, books*100000/total truncated toward zero: its magnitude is the Share of abs(books) in abs(total) and its sign is the sign of the quotient; it lies between 0 and 100000 when 0 <= books <= total |
| BookCountHandler.NegativeFractionTruncatesTowardZero | server/bookCountHandler.go:96-99 | 1 of -3 books is reported as -0.33333 and -2 of 3 as -0.66666, not rounded away from zero |
| BookCountHandler.FractionTruncates | server/bookCountHandler.go:96-99 | 0.123456789 is reported as 0.12345: truncation, not rounding |
| BookCountHandler.RemoveEmptyElements | server/bookCountHandler.go:205-215 | the loop keeps, in order, the entries the filter keeps |
| BookCountHandler.KeepNonEmptyMembers | server/bookCountHandler.go:205-215 | exactly the entries that are not (empty language, zero books, zero authors, zero fraction) survive, each as many times as it occurs in the input, in their original order |
| BookCountHandler.ZeroEntryWithLanguageKept | server/bookCountHandler.go:208 | an all-zero entry that names a language is kept |
| BookCountHandler.ZeroCountSkipsPagination | server/bookCountHandler.go:74-87 | a first page that counts no book gives the all-zero entry under its code, whatever the catalog would answer next |
| BookCountHandler.LanguageStatAlongChain | server/bookCountHandler.go:89-110 | otherwise the entry has the first page's count, the distinct authors of all paginated results, and the truncated share of the total |
| BookCountHandler.Stats | server/bookCountHandler.go:66-111 | entry i belongs to the i-th de-duplicated code |
| BookCountHandler.CountLanguage | server/bookCountHandler.go:70-110 | the loop body computes the entry of one language |
| BookCountHandler.RequestFirstPages | server/bookCountHandler.go:55-58 | the first loop requests every code's first page in order, and stops in a panic exactly when some code makes the request URL unparsable |
| BookCountHandler.CountLanguages | server/bookCountHandler.go:67-111 | the second loop computes entry i from code i's first page, and stops in a panic exactly when some first page got no response |
| BookCountHandler.AnsweredResponse | server/bookCountHandler.go:49-114 | with every request answered, entries computed code by code make the filtered answer |
| BookCountHandler.FailedRequestAborts | server/bookCountHandler.go:301-318 | one first-page request with an unparsable URL or without response makes the whole request panic |
| BookCountHandler.HandleBookCountGetRequest | server/bookCountHandler.go:32-130 | the handler computes the response of the request: 400 on an empty query; a panic when a code makes its request URL unparsable (the nil request's header is set) or a catalog request gets no response; otherwise the filtered entries |
| BookCountHandler.EmptyQueryRejected | server/bookCountHandler.go:42-47 | an empty `language` query is refused with 400 whatever the catalog would answer |
| BookCountHandler.ControlByteCodeAborts | server/bookCountHandler.go:301-310 | a requested code with a control byte ahead of any `#` makes the request panic, whatever the catalog would answer |
| BookCountHandler.ControlByteQueryAborts | server/bookCountHandler.go:301-310 | the query "\x01" (`?language=%01`) makes the request panic |
| BookCountHandler.BookCountResponseShape | server/bookCountHandler.go:49-114 | an answer lists languages in request order, none twice, with an entry for every non-empty requested code, each entry the statistics of its own language |
| BookCountHandler.ZeroMatchLanguageReported | server/bookCountHandler.go:74-87 | a requested code that matches no book is still reported, as an all-zero entry under its own code |
| BookCountHandler.RepeatedCodeRequestedOnce | server/bookCountHandler.go:50-53 | "en,en" names one language |
| BookCountHandler.DuplicateCodesAnsweredOnce | server/bookCountHandler.go:50-114 | a request for "en,en" is answered with one entry, for "en" |
| BookCountHandler.GetAuthorsAndBooks | server/bookCountHandler.go:326-337 | returns the distinct authors of the fully paginated results and the first page's count, and panics when the request URL does not parse or the first request gets no response |
| BookCountHandler.AuthorsAndBooksAlongChain | server/bookCountHandler.go:326-337 | along a chain of pages the totals are the distinct authors of all results and the first page's count |
| GoUrl.ControlByteRefused | server/bookCountHandler.go:303 | a URL with a control byte ahead of any `#` does not parse |
| GoUrl.PlainUrlParses | server/bookCountHandler.go:303 | a URL without control bytes and without `#` parses |
| GoUrl.FragmentExamples | server/bookCountHandler.go:303 | after a `#` only percent-escapes are checked: "a#%zz" fails, "a#%41" and a control byte after the `#` parse |
| LanguageCodeChecker.LanguageCodeChecker | server/util/languageCodeChecker.go:20-43 | a code is accepted exactly when it is two letter bytes and the probe answers 200; 503 is written exactly when the probe of a well-formed code gets no response |
| LanguageCodeChecker.SyntaxRejectsBeforeProbe | server/util/languageCodeChecker.go:21-24 | a code that is not two letters is refused whatever the probe would answer |
| LanguageCodeChecker.OnlyStatusOkAccepts | server/util/languageCodeChecker.go:33-42 | for a well-formed code, only 200 accepts; 204 refuses without writing a status |
| LanguageCodeChecker.CheckerExamples | server/util/languageCodeChecker.go:21-38 | "eng", "e" and "" are refused; "en" is accepted when the probe answers 200 |
| ReadershipRequest.LanguageCodeFromPath | server/handlers/readershipHandler.go:35-40 | the extracted code never contains a slash |
| ReadershipRequest.LanguageCodeOfPath | server/handlers/readershipHandler.go:35-40 | a path of the readership prefix, a slash-free code and nothing or a slash-started tail yields that code |
| ReadershipRequest.RepeatedSegmentsIgnored | server/handlers/readershipHandler.go:37-40 | /librarystats/v1/readership/no/no/en/en yields "no" |
| ReadershipRequest.ParseLimit | server/handlers/readershipHandler.go:48-60 | an absent limit means 0; otherwise a limit is accepted exactly when it parses as an integer of at least 1, and is that integer |
| ReadershipRequest.ParseLimitOfDecimal | server/handlers/readershipHandler.go:48-60 | every positive 64-bit limit written in decimal is accepted as itself |
| ReadershipRequest.ParseLimitRejects | server/handlers/readershipHandler.go:54-59 | "0", "-3" and "ten" are refused |
| ReadershipRequest.GetReadership | server/handlers/readershipHandler.go:118-138 | a population exists exactly when the lookup decodes to a non-empty list |
| ReadershipRequest.ReadershipsClosedForm | server/handlers/readershipHandler.go:79-96 | the records exist exactly when every population lookup answers; then record i describes country i with the shared totals and the population of the first decoded element |
| ReadershipRequest.BuildReaderships | server/handlers/readershipHandler.go:78-96 | the loop with its limit break builds the records of the first RecordCount countries |
| ReadershipRequest.ServeValidated | server/handlers/readershipHandler.go:47-112 | after validation the handler computes the response of the request |
| ReadershipRequest.BadLimitRejectedBeforeLookups | server/handlers/readershipHandler.go:48-60 | a refused limit gives 400 before any lookup, whatever the services would answer |
| ReadershipRequest.CountryLookupOutcomes | server/handlers/readershipHandler.go:66-75 | a country lookup without response gives 503, an undecodable one 500, an empty list 404 |
| ReadershipRequest.ValidatedRecords | server/handlers/readershipHandler.go:79-96 | an answer has min(limit, countries) records with a limit and one per country without, record i naming country i with the same book and author totals and the first decoded population |
| ReadershipRequest.ValidatedAborts | server/handlers/readershipHandler.go:118-138 | a validated request panics exactly when the catalog request gets no response or a country within the limit has no usable population answer |
| ReadershipHandlers.HandleReadershipGetRequest | server/handlers/readershipHandler.go:31-113 | the handler computes the response of the request |
| ReadershipHandlers.RefusedExactlyWhenCheckerRefuses | server/handlers/readershipHandler.go:42-45 | the request is refused exactly when the checker refuses, with 400 or the checker's 503, before the limit and any lookup but the probe; otherwise it proceeds |
| ReadershipHandlers.MalformedCodeRefused | server/handlers/readershipHandler.go:42-45 | a code that is not two letters is refused with 400 whatever any service would answer |
| ReadershipHandlers.CheckedCodeBuildsRequest | server/bookCountHandler.go:301-310 | a two-letter code builds a catalog URL that parses, so the totals lookup panics exactly when the catalog gives no response |
| ReadershipServer.HandleReadershipGetRequest | server/readershipHandler.go:30-113 | the handler computes the response of the request |
| ReadershipServer.MalformedCodeRefusedBeforeLookups | server/readershipHandler.go:41-45 | a code that is not two letter bytes is refused with 400 whatever the limit and the services |
| ReadershipServer.WellFormedCodeServed | server/readershipHandler.go:41-66 | a well-formed code proceeds to limit parsing and the lookups |
| ReadershipServer.PathExamples | server/readershipHandler.go:34-45 | a path ending in "eng" is refused; "en/extra" is read as "en" |
| ReadershipServer.VariantsAgreeWhenProbeAccepts | server/readershipHandler.go:41-45 | the two variants answer alike when the probe accepts the code; when the probe refuses a well-formed code, only the `handlers` variant refuses |

## Left out

- HTTP plumbing is not modelled: method dispatch (501 for other methods), headers, `w.Write`, client timeouts and `CloseIdleConnections`. A request is modelled by its path, its query parameters and the answers of the remote services.
- JSON encoding and decoding are not modelled. A body either decodes to a value or fails, so partial decodes are not represented. A JSON `null` country list, which Go decodes to a nil slice and the handler then answers with an empty 200 response, is not distinguished from an empty list.
- `getUniqueAuthors` reaches its results through `prettyPrintJSON` and `json.Unmarshal`. That round trip is taken to be the identity.
- The handler's `responses` and `bookCounts` slices are sequences updated by index. No other code holds them, so no aliasing is lost.
- Error statuses that helpers write while the handler carries on are not tracked. These are the 500 and 400 written by pagination or decoding, and the 500 written just before a nil-response panic. An `Ok` outcome carries only the records.
- A panic ends a request without a modelled status (`Aborted`).
- BookCountHandler.TruncatedFraction: models the float64 computation over the rationals, in units of 1e-5, truncated toward zero for either sign. Float rounding near a unit boundary is not modelled. A total of 0, where Go converts an infinite or NaN float, gives 0.
- Pagination.Paginate: the source follows cursors without bound. The fuel bound means an upstream that cycles cursors stops with `OutOfFuel` instead of looping forever.
- `url.ParseRequestURI` is an abstract validity predicate.
- server/handlers/bookCountHandler.go is not part of this model. The `handlers` readership variant is modelled as calling the `GetAuthorsAndBooks` of server/bookCountHandler.go.
- server/readershipHandler.go refers to `ReadershipPath`, `LanguageApi` and `CurrentRestCountriesApi`, which server/constants.go does not declare. The model uses the values declared in server/shared/constants.go.
- Two behaviours of the code that a reader might not expect. The model follows the code:
  - A requested language that matches no book stays in the book-count answer. server/bookCountHandler.go:74-87 gives it an all-zero entry that still carries its code, so `removeEmptyElements` (server/bookCountHandler.go:205-215) does not remove it (BookCountHandler.ZeroMatchLanguageReported).
  - An undecodable country list is answered with 500, not 503 (server/readershipHandler.go:157-160; ReadershipRequest.CountryLookupOutcomes).
- `url.Parse`, as `http.NewRequest` uses it, is modelled only as far as the catalog URL can vary: a control byte before the first `#` and a malformed percent-escape after it are refused. The scheme, host and path are constants that parse.
- Not part of this model:
  - the status handlers, which do remote probes and read the wall clock;
  - the diagnostics, location and default handlers;
  - restexample.go and server/server.go.
