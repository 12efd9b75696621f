/**
  When `http.NewRequest` refuses a URL. It parses the URL with `url.Parse`,
  which cuts the text at the first `#`: the part before it fails on an ASCII
  control byte, and the fragment after it fails on a malformed
  percent-escape. The scheme, host and path of the catalog URLs are
  constants that parse; only the language code appended to them varies.
 */
module GoUrl {

  /** The bytes below 0x20 and 0x7F. */
  predicate IsControlByte(c: char) {
    c < ' ' || c == '\U{7F}'
  }

  predicate IsHexDigit(c: char) {
    ('0' <= c <= '9') || ('a' <= c <= 'f') || ('A' <= c <= 'F')
  }

  /** Every `%` is followed by two hexadecimal digits. */
  predicate EscapesValid(s: string)
    decreases |s|
  {
    if |s| == 0 then true
    else if s[0] == '%' then |s| >= 3 && IsHexDigit(s[1]) && IsHexDigit(s[2]) && EscapesValid(s[3..])
    else EscapesValid(s[1..])
  }

  /** No control byte before the first `#`, and valid escapes after it. */
  predicate RequestUrlParses(url: string)
    decreases |url|
  {
    if |url| == 0 then true
    else if url[0] == '#' then EscapesValid(url[1..])
    else !IsControlByte(url[0]) && RequestUrlParses(url[1..])
  }

  /** A control byte ahead of any `#` makes the URL unparsable. */
  lemma {:induction false} ControlByteRefused(url: string, i: int)
    requires 0 <= i < |url| && IsControlByte(url[i])
    requires forall j :: 0 <= j < i ==> url[j] != '#'
    ensures !RequestUrlParses(url)
    decreases i
  {
    if i > 0 {
      assert url[0] != '#';
      ControlByteRefused(url[1..], i - 1);
    }
  }

  /** A URL without control bytes and without `#` parses. */
  lemma {:induction false} PlainUrlParses(url: string)
    requires forall i :: 0 <= i < |url| ==> !IsControlByte(url[i]) && url[i] != '#'
    ensures RequestUrlParses(url)
    decreases |url|
  {
    if |url| > 0 {
      PlainUrlParses(url[1..]);
    }
  }

  /** The fragment is checked for escapes only: "a#%zz" fails, while "a#%41"
      and a control byte after the `#` pass. */
  lemma FragmentExamples()
    ensures !RequestUrlParses("a#%zz")
    ensures RequestUrlParses("a#%41")
    ensures RequestUrlParses("a#\U{1}")
  {
    assert "a#%zz"[1..] == "#%zz";
    assert "a#%41"[1..] == "#%41";
    assert "#%41"[1..] == "%41";
    assert "%41"[3..] == "";
    assert "a#\U{1}"[1..] == "#\U{1}";
    assert "#\U{1}"[1..] == "\U{1}";
    assert "\U{1}"[1..] == "";
  }
}
