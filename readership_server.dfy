/**
  The readership request of the `server` package: the language code is
  checked inline, two bytes that are both letters, with no existence probe,
  before the shared request logic runs.
 */
module ReadershipServer {
  import opened Shared
  import GoStrings
  import LanguageCodeChecker
  import ReadershipRequest
  import ReadershipHandlers

  function ReadershipResponse(path: string, limitStr: string, remote: Remote): ReadershipRequest.Outcome {
    var code := ReadershipRequest.LanguageCodeFromPath(path);
    if !LanguageCodeChecker.IsTwoLetterCode(code) then ReadershipRequest.Rejected(StatusBadRequest)
    else ReadershipRequest.ValidatedResponse(code, limitStr, remote)
  }

  method HandleReadershipGetRequest(path: string, limitStr: string, remote: Remote) returns (resp: ReadershipRequest.Outcome)
    ensures resp == ReadershipResponse(path, limitStr, remote)
  {
    var cutQuery := GoStrings.TrimPrefix(path, ReadershipPath);
    var twoLetterLanguageCode := GoStrings.Split(cutQuery, '/')[0];
    if |twoLetterLanguageCode| != 2
       || !LanguageCodeChecker.IsLetterByte(twoLetterLanguageCode[0])
       || !LanguageCodeChecker.IsLetterByte(twoLetterLanguageCode[1])
    {
      return ReadershipRequest.Rejected(StatusBadRequest);
    }
    resp := ReadershipRequest.ServeValidated(twoLetterLanguageCode, limitStr, remote);
  }

  /** A code that is not two letters is refused with 400 before the limit is
      read and before any lookup: the answer depends on nothing else. */
  lemma MalformedCodeRefusedBeforeLookups(path: string, limitStr: string, remote: Remote,
                                          otherLimit: string, other: Remote)
    requires !LanguageCodeChecker.IsTwoLetterCode(ReadershipRequest.LanguageCodeFromPath(path))
    ensures ReadershipResponse(path, limitStr, remote) == ReadershipResponse(path, otherLimit, other)
                                                       == ReadershipRequest.Rejected(StatusBadRequest)
  {
  }

  /** A well-formed code goes on to the shared request logic. */
  lemma WellFormedCodeServed(path: string, limitStr: string, remote: Remote)
    requires LanguageCodeChecker.IsTwoLetterCode(ReadershipRequest.LanguageCodeFromPath(path))
    ensures ReadershipResponse(path, limitStr, remote) ==
      ReadershipRequest.ValidatedResponse(ReadershipRequest.LanguageCodeFromPath(path), limitStr, remote)
  {
  }

  /** "eng" is refused; "en/extra" is read as "en". */
  lemma PathExamples(limitStr: string, remote: Remote)
    ensures ReadershipResponse(ReadershipPath + "eng", limitStr, remote) == ReadershipRequest.Rejected(StatusBadRequest)
    ensures ReadershipResponse(ReadershipPath + "en/extra", limitStr, remote) ==
      ReadershipRequest.ValidatedResponse("en", limitStr, remote)
  {
    ReadershipRequest.LanguageCodeOfPath("eng", "");
    assert ReadershipPath + "eng" + "" == ReadershipPath + "eng";
    ReadershipRequest.LanguageCodeOfPath("en", "/extra");
    assert ReadershipPath + "en" + "/extra" == ReadershipPath + "en/extra";
  }

  /** The two variants answer alike whenever the existence probe accepts the
      code; they part only where the probe refuses a well-formed code, which
      this variant serves and the other refuses. */
  lemma VariantsAgreeWhenProbeAccepts(path: string, limitStr: string, remote: Remote)
    ensures var code := ReadershipRequest.LanguageCodeFromPath(path);
      && (remote.probe(LanguageCodeChecker.ProbeUrl(code)) == Status(StatusOK) ==>
            ReadershipResponse(path, limitStr, remote) == ReadershipHandlers.ReadershipResponse(path, limitStr, remote))
      && (LanguageCodeChecker.IsTwoLetterCode(code) && remote.probe(LanguageCodeChecker.ProbeUrl(code)) != Status(StatusOK) ==>
            ReadershipHandlers.ReadershipResponse(path, limitStr, remote).Rejected?)
  {
  }
}
