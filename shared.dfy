/**
  Record types, constants and the remote services of the library-statistics
  service. A Go string is modelled as a Dafny `string` whose characters are
  the bytes of the Go string (values 0..255), so `|s|` is Go's `len(s)`.
 */
module Shared {

  datatype Option<+T> = None | Some(value: T)

  /** Outcome of one GET against a remote JSON service: no response at all,
      a response whose body does not decode, or the decoded body. */
  datatype Fetch<+T> = TransportError | DecodeError | Decoded(value: T)

  /** Outcome of the existence probe against the language lookup service. */
  datatype Probe = ProbeFailed | Status(code: int)

  /** An author as the catalog reports it; 0 stands for an unknown year. */
  datatype Person = Person(birthYear: int, deathYear: int, name: string)

  datatype Book = Book(id: int, title: string, authors: seq<Person>, languages: seq<string>)

  /** One page of catalog results; `next` and `previous` are cursor URLs, "" when absent. */
  datatype GutendexResult = GutendexResult(count: int, results: seq<Book>, next: string, previous: string)

  /** The Go zero value of a page, which is what a failed decode leaves behind. */
  const EmptyGutendexResult := GutendexResult(0, [], "", "")

  /** Statistics for one language. `fraction` is the share of the whole catalog
      counted in units of 1e-5 (the service reports it with five decimals). */
  datatype BookCount = BookCount(language: string, books: int, authors: int, fraction: int)

  /** The Go zero value of a BookCount, which `make` puts in every slot. */
  const ZeroBookCount := BookCount("", 0, 0, 0)

  datatype Readership = Readership(country: string, isocode: string, books: int, authors: int, readership: int)

  datatype Country = Country(
    iso31661Alpha3: string,
    iso31661Alpha2: string,
    officialName: string,
    regionName: string,
    subRegionName: string,
    language: string)

  datatype CountryFromRestCountries = CountryFromRestCountries(population: int)

  /** The three external services as the handlers see them, plus the bound
      on how many cursor pages one pagination may follow. */
  datatype Remote = Remote(
    catalog: string -> Fetch<GutendexResult>,
    validUrl: string -> bool,
    fuel: nat,
    languages: string -> Fetch<seq<Country>>,
    population: string -> Fetch<seq<CountryFromRestCountries>>,
    probe: string -> Probe)

  const Version := "v1"
  const LibraryStatsPath := "/librarystats/" + Version
  const BookCountPath := LibraryStatsPath + "/bookcount/"
  const ReadershipPath := LibraryStatsPath + "/readership/"

  const GutendexApi := "http://129.241.150.113:8000/books/"
  const RestCountriesApi := "http://129.241.150.113:8080/v3.1"
  const LanguageApi := "http://129.241.150.113:3000/language2countries/"
  const CurrentGutendexApi := GutendexApi
  const CurrentRestCountriesApi := RestCountriesApi

  const StatusOK := 200
  const StatusNoContent := 204
  const StatusBadRequest := 400
  const StatusNotFound := 404
  const StatusInternalServerError := 500
  const StatusServiceUnavailable := 503
}
