/**
  The readership request of the `handlers` package: the language code is
  validated by `LanguageCodeChecker`, syntax first and then the existence
  probe, before the shared request logic runs.
 */
module ReadershipHandlers {
  import opened Shared
  import GoStrings
  import LanguageCodeChecker
  import ReadershipRequest
  import BookCountHandler
  import GoUrl

  /** When the checker refuses the code the handler writes 400, unless the
      checker has already written 503 because its probe got no response: the
      first status written is the one the client sees. */
  function ReadershipResponse(path: string, limitStr: string, remote: Remote): ReadershipRequest.Outcome {
    var code := ReadershipRequest.LanguageCodeFromPath(path);
    var verdict := LanguageCodeChecker.LanguageCodeChecker(code, remote.probe);
    if !verdict.0 then ReadershipRequest.Rejected(if verdict.1.Some? then verdict.1.value else StatusBadRequest)
    else ReadershipRequest.ValidatedResponse(code, limitStr, remote)
  }

  method HandleReadershipGetRequest(path: string, limitStr: string, remote: Remote) returns (resp: ReadershipRequest.Outcome)
    ensures resp == ReadershipResponse(path, limitStr, remote)
  {
    var cutQuery := GoStrings.TrimPrefix(path, ReadershipPath);
    var twoLetterLanguageCode := GoStrings.Split(cutQuery, '/')[0];
    var (valid, written) := LanguageCodeChecker.LanguageCodeChecker(twoLetterLanguageCode, remote.probe);
    if !valid {
      if written.Some? {
        return ReadershipRequest.Rejected(written.value);
      }
      return ReadershipRequest.Rejected(StatusBadRequest);
    }
    resp := ReadershipRequest.ServeValidated(twoLetterLanguageCode, limitStr, remote);
  }

  /** The request is refused exactly when the checker refuses the code, with
      400, or 503 when the probe of a well-formed code got no response; a refusal happens before the
      limit is read and before any lookup but the probe. */
  lemma RefusedExactlyWhenCheckerRefuses(path: string, limitStr: string, remote: Remote,
                                         otherLimit: string, other: Remote)
    requires other.probe == remote.probe
    ensures var code := ReadershipRequest.LanguageCodeFromPath(path);
      var verdict := LanguageCodeChecker.LanguageCodeChecker(code, remote.probe);
      && (verdict.0 ==> ReadershipResponse(path, limitStr, remote) == ReadershipRequest.ValidatedResponse(code, limitStr, remote))
      && (!verdict.0 ==>
            && ReadershipResponse(path, limitStr, remote) == ReadershipResponse(path, otherLimit, other)
            && ReadershipResponse(path, limitStr, remote) ==
                 ReadershipRequest.Rejected(
                   if LanguageCodeChecker.IsTwoLetterCode(code) && remote.probe(LanguageCodeChecker.ProbeUrl(code)).ProbeFailed? then StatusServiceUnavailable
                   else StatusBadRequest))
  {
  }

  /** A code that is not two letters is refused with 400 whatever any
      service would answer. */
  lemma MalformedCodeRefused(path: string, limitStr: string, remote: Remote)
    requires !LanguageCodeChecker.IsTwoLetterCode(ReadershipRequest.LanguageCodeFromPath(path))
    ensures ReadershipResponse(path, limitStr, remote) == ReadershipRequest.Rejected(StatusBadRequest)
  {
  }

  /** A code that passed the syntax check builds a catalog URL that parses,
      so the totals lookup panics only when the catalog does not answer. */
  lemma CheckedCodeBuildsRequest(code: string, remote: Remote)
    requires LanguageCodeChecker.IsTwoLetterCode(code)
    ensures GoUrl.RequestUrlParses(BookCountHandler.LanguageUrl(code))
    ensures BookCountHandler.AuthorsAndBooks(code, remote).None? <==>
      remote.catalog(BookCountHandler.LanguageUrl(code)).TransportError?
  {
    var url := BookCountHandler.LanguageUrl(code);
    var prefix := CurrentGutendexApi + "?languages=";
    assert url == prefix + code;
    assert forall i :: 0 <= i < |prefix| ==> !GoUrl.IsControlByte(prefix[i]) && prefix[i] != '#';
    assert forall i :: 0 <= i < |url| ==> !GoUrl.IsControlByte(url[i]) && url[i] != '#' by {
      forall i | 0 <= i < |url|
        ensures !GoUrl.IsControlByte(url[i]) && url[i] != '#'
      {
        if i >= |prefix| {
          assert url[i] == code[i - |prefix|];
        }
      }
    }
    GoUrl.PlainUrlParses(url);
  }
}
