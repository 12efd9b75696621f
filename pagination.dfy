/**
  Rebuilding a complete catalog result by following `next` cursors
  (`rebuildFullGutendexResult`). The source loops for as long as the
  catalog hands out cursors; here `fuel` bounds the number of pages followed.
 */
module Pagination {
  import opened Shared

  /** Why the loop ended: no cursor left, a cursor that is not a valid URL,
      a cursor fetch without a response, or the fuel bound. */
  datatype Stop = Exhausted | InvalidUrl | ResponseError | OutOfFuel

  /** The page a follow-up fetch decodes into: the decoded body, or the zero
      page when decoding fails. */
  function DecodedPage(f: Fetch<GutendexResult>): GutendexResult {
    if f.Decoded? then f.value else EmptyGutendexResult
  }

  /** One round of the loop: append the new page's results and adopt its cursors. */
  function Absorb(mp: GutendexResult, page: GutendexResult): GutendexResult {
    mp.(results := mp.results + page.results, next := page.next, previous := page.previous)
  }

  function Paginate(mp: GutendexResult, validUrl: string -> bool, get: string -> Fetch<GutendexResult>, fuel: nat)
    : (out: (GutendexResult, Stop))
    ensures out.0.count == mp.count
    ensures mp.results <= out.0.results
    ensures out.1 == Exhausted <==> out.0.next == ""
    ensures out.1 == InvalidUrl ==> !validUrl(out.0.next)
    ensures out.1 == ResponseError ==> validUrl(out.0.next) && get(out.0.next).TransportError?
    decreases fuel
  {
    if mp.next == "" then (mp, Exhausted)
    else if !validUrl(mp.next) then (mp, InvalidUrl)
    else if fuel == 0 then (mp, OutOfFuel)
    else if get(mp.next).TransportError? then (mp, ResponseError)
    else Paginate(Absorb(mp, DecodedPage(get(mp.next))), validUrl, get, fuel - 1)
  }

  method RebuildFullGutendexResult(start: GutendexResult, validUrl: string -> bool,
                                   get: string -> Fetch<GutendexResult>, fuel: nat)
    returns (mp: GutendexResult, stop: Stop)
    ensures (mp, stop) == Paginate(start, validUrl, get, fuel)
  {
    mp := start;
    var left := fuel;
    while mp.next != ""
      invariant Paginate(mp, validUrl, get, left) == Paginate(start, validUrl, get, fuel)
      decreases left
    {
      if !validUrl(mp.next) {
        return mp, InvalidUrl;
      }
      if left == 0 {
        return mp, OutOfFuel;
      }
      var res := get(mp.next);
      if res.TransportError? {
        return mp, ResponseError;
      }
      var newMp := if res.Decoded? then res.value else EmptyGutendexResult;
      mp := mp.(results := mp.results + newMp.results);
      mp := mp.(next := newMp.next, previous := newMp.previous);
      left := left - 1;
    }
    return mp, Exhausted;
  }

  /** `pages` is the chain of pages reached from `cursor`: every cursor on the
      way is a valid URL whose fetch answers, each page is what the previous
      page's `next` yields, and the last page has no `next`. */
  predicate Chain(cursor: string, pages: seq<GutendexResult>, validUrl: string -> bool,
                  get: string -> Fetch<GutendexResult>)
    decreases |pages|
  {
    if |pages| == 0 then cursor == ""
    else
      && cursor != ""
      && validUrl(cursor)
      && !get(cursor).TransportError?
      && DecodedPage(get(cursor)) == pages[0]
      && Chain(pages[0].next, pages[1..], validUrl, get)
  }

  function AllResults(pages: seq<GutendexResult>): seq<Book>
    decreases |pages|
  {
    if |pages| == 0 then [] else pages[0].results + AllResults(pages[1..])
  }

  /** Along a chain of n pages, with fuel for n fetches, the result is the
      initial results followed by every page's results in fetch order, the
      count is untouched, and the cursors are those of the last page. */
  lemma {:induction false} PaginateFollowsChain(mp: GutendexResult, pages: seq<GutendexResult>,
                                                validUrl: string -> bool, get: string -> Fetch<GutendexResult>, fuel: nat)
    requires Chain(mp.next, pages, validUrl, get)
    requires |pages| <= fuel
    ensures Paginate(mp, validUrl, get, fuel) ==
      (GutendexResult(mp.count, mp.results + AllResults(pages), "",
                      if |pages| == 0 then mp.previous else pages[|pages| - 1].previous),
       Exhausted)
    decreases |pages|
  {
    if |pages| > 0 {
      var mp' := Absorb(mp, pages[0]);
      PaginateFollowsChain(mp', pages[1..], validUrl, get, fuel - 1);
      assert mp.results + AllResults(pages) == mp'.results + AllResults(pages[1..]);
      if |pages| > 1 {
        assert pages[1..][|pages[1..]| - 1] == pages[|pages| - 1];
      }
    } else {
      assert mp.results + AllResults(pages) == mp.results;
    }
  }

  /** An invalid cursor, or a cursor fetch with no response, ends the loop at
      once and leaves the accumulated result as it was. */
  lemma PaginateAbortsUnchanged(mp: GutendexResult, validUrl: string -> bool,
                                get: string -> Fetch<GutendexResult>, fuel: nat)
    requires mp.next != ""
    requires !validUrl(mp.next) || get(mp.next).TransportError?
    ensures Paginate(mp, validUrl, get, fuel).0 == mp
    ensures Paginate(mp, validUrl, get, fuel).1 != Exhausted
  {
  }

  /** A follow-up page that fails to decode adds nothing and clears both
      cursors, which ends the loop normally. */
  lemma PaginateDecodeFailure(mp: GutendexResult, validUrl: string -> bool,
                              get: string -> Fetch<GutendexResult>, fuel: nat)
    requires mp.next != "" && validUrl(mp.next) && get(mp.next) == DecodeError && fuel > 0
    ensures Paginate(mp, validUrl, get, fuel) == (mp.(next := "", previous := ""), Exhausted)
  {
    assert mp.results + [] == mp.results;
  }

  /** Fuel only bounds the loop: once a run ends for any other reason, more
      fuel gives the same outcome. */
  lemma {:induction false} PaginateFuelMonotone(mp: GutendexResult, validUrl: string -> bool,
                                                get: string -> Fetch<GutendexResult>, fuel: nat, more: nat)
    requires Paginate(mp, validUrl, get, fuel).1 != OutOfFuel
    requires fuel <= more
    ensures Paginate(mp, validUrl, get, more) == Paginate(mp, validUrl, get, fuel)
    decreases fuel
  {
    if mp.next != "" && validUrl(mp.next) && fuel > 0 && !get(mp.next).TransportError? {
      PaginateFuelMonotone(Absorb(mp, DecodedPage(get(mp.next))), validUrl, get, fuel - 1, more - 1);
    }
  }
}
