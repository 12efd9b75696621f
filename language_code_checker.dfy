/**
  Validation of a two-letter language code (`LanguageCodeChecker`): a
  syntactic check on the bytes of the code, then an existence probe against
  the language lookup service whose status code decides, failing closed.
 */
module LanguageCodeChecker {
  import opened Shared

  /** `unicode.IsLetter(rune(b))` for one byte `b`: a byte read as a code
      point is below U+0100, where the letters are the ASCII letters and the
      Latin-1 letters. */
  predicate IsLetterByte(c: char) {
    || ('A' <= c <= 'Z')
    || ('a' <= c <= 'z')
    || c == '\U{AA}' || c == '\U{B5}' || c == '\U{BA}'
    || ('\U{C0}' <= c <= '\U{D6}')
    || ('\U{D8}' <= c <= '\U{F6}')
    || ('\U{F8}' <= c <= '\U{FF}')
  }

  /** Exactly two bytes, both letters. */
  predicate IsTwoLetterCode(code: string) {
    |code| == 2 && IsLetterByte(code[0]) && IsLetterByte(code[1])
  }

  function ProbeUrl(languageCode: string): string {
    LanguageApi + "/" + languageCode
  }

  /** The checker's verdict, and the error status it has already written to
      the response when the probe got no answer. */
  function LanguageCodeChecker(languageCode: string, probe: string -> Probe): (r: (bool, Option<int>))
    ensures r.0 <==> IsTwoLetterCode(languageCode) && probe(ProbeUrl(languageCode)) == Status(StatusOK)
    ensures r.1.Some? <==> IsTwoLetterCode(languageCode) && probe(ProbeUrl(languageCode)).ProbeFailed?
    ensures r.1.Some? ==> !r.0 && r.1.value == StatusServiceUnavailable
  {
    if !IsTwoLetterCode(languageCode) then (false, None)
    else match probe(ProbeUrl(languageCode))
      case ProbeFailed => (false, Some(StatusServiceUnavailable))
      case Status(code) =>
        if code == StatusNoContent then (false, None)
        else if code == StatusOK then (true, None)
        else (false, None)
  }

  /** A code that fails the syntactic check is rejected without consulting
      the service: the verdict is the same whatever the service would say. */
  lemma SyntaxRejectsBeforeProbe(languageCode: string, probe: string -> Probe, other: string -> Probe)
    requires !IsTwoLetterCode(languageCode)
    ensures LanguageCodeChecker(languageCode, probe) == LanguageCodeChecker(languageCode, other) == (false, None)
  {
  }

  /** Fail closed: any answer but 200 rejects the code. */
  lemma OnlyStatusOkAccepts(languageCode: string, probe: string -> Probe)
    requires IsTwoLetterCode(languageCode)
    ensures LanguageCodeChecker(languageCode, probe).0 <==> probe(ProbeUrl(languageCode)) == Status(200)
    ensures probe(ProbeUrl(languageCode)) == Status(204) ==> LanguageCodeChecker(languageCode, probe) == (false, None)
  {
  }

  /** "eng", "e" and "" are rejected whatever the service says; "en" is
      accepted when the service answers 200. */
  lemma CheckerExamples(probe: string -> Probe)
    ensures !LanguageCodeChecker("eng", probe).0
    ensures !LanguageCodeChecker("e", probe).0
    ensures !LanguageCodeChecker("", probe).0
    ensures probe(ProbeUrl("en")) == Status(200) ==> LanguageCodeChecker("en", probe).0
  {
  }
}
