/**
  The two `strings` functions the handlers use to take a request apart:
  `strings.TrimPrefix` and `strings.Split` with a one-byte separator.
 */
module GoStrings {

  function TrimPrefix(s: string, prefix: string): (r: string)
    ensures prefix <= s ==> prefix + r == s
    ensures !(prefix <= s) ==> r == s
  {
    if prefix <= s then s[|prefix|..] else s
  }

  /** The pieces of `s` between occurrences of `sep`. There is always at least
      one piece; the first one runs up to the first `sep` (or to the end). */
  function Split(s: string, sep: char): (parts: seq<string>)
    ensures |parts| >= 1
    ensures parts[0] <= s && sep !in parts[0]
    ensures |parts[0]| < |s| ==> s[|parts[0]|] == sep
    decreases |s|
  {
    if |s| == 0 then [""]
    else
      var rest := Split(s[1..], sep);
      if s[0] == sep then [""] + rest
      else [[s[0]] + rest[0]] + rest[1..]
  }

  function Join(parts: seq<string>, sep: char): string
    decreases |parts|
  {
    if |parts| == 0 then ""
    else if |parts| == 1 then parts[0]
    else parts[0] + [sep] + Join(parts[1..], sep)
  }

  predicate SepFree(parts: seq<string>, sep: char) {
    forall i :: 0 <= i < |parts| ==> sep !in parts[i]
  }

  /** No piece contains the separator. */
  lemma {:induction false} SplitSepFree(s: string, sep: char)
    ensures SepFree(Split(s, sep), sep)
    decreases |s|
  {
    if |s| > 0 {
      SplitSepFree(s[1..], sep);
    }
  }

  /** Joining the pieces with the separator gives the string back. */
  lemma {:induction false} JoinSplit(s: string, sep: char)
    ensures Join(Split(s, sep), sep) == s
    decreases |s|
  {
    if |s| > 0 {
      var rest := Split(s[1..], sep);
      JoinSplit(s[1..], sep);
      if s[0] == sep {
        assert Split(s, sep)[1..] == rest;
      } else {
        var parts := Split(s, sep);
        assert parts[1..] == rest[1..];
        if |rest| > 1 {
          assert rest[1..][1..] == rest[2..];
        }
      }
    }
  }

  /** Joining pieces whose first piece starts with `c` starts with `c`. */
  lemma JoinFirstChar(parts: seq<string>, sep: char)
    requires |parts| >= 1 && |parts[0]| > 0
    ensures var tail := [parts[0][1..]] + parts[1..];
      Join(parts, sep) == [parts[0][0]] + Join(tail, sep)
  {
    var tail := [parts[0][1..]] + parts[1..];
    assert tail[1..] == parts[1..];
    assert parts[0] == [parts[0][0]] + tail[0];
  }

  /** Splitting a join of separator-free pieces gives the pieces back. */
  lemma {:induction false} SplitJoin(parts: seq<string>, sep: char)
    requires |parts| >= 1 && SepFree(parts, sep)
    ensures Split(Join(parts, sep), sep) == parts
    decreases |parts|, |parts[0]|
  {
    if |parts[0]| > 0 {
      var c := parts[0][0];
      assert c != sep by { assert c in parts[0]; }
      var tail := [parts[0][1..]] + parts[1..];
      assert SepFree(tail, sep) by {
        forall i | 0 <= i < |tail| ensures sep !in tail[i] {
          if i > 0 { assert tail[i] == parts[i]; }
        }
      }
      SplitJoin(tail, sep);
      JoinFirstChar(parts, sep);
      var s := Join(parts, sep);
      assert s[1..] == Join(tail, sep);
      assert Split(s, sep) == [[c] + tail[0]] + tail[1..];
      assert tail[1..] == parts[1..];
      assert [c] + tail[0] == parts[0];
    } else if |parts| > 1 {
      SplitJoin(parts[1..], sep);
      var s := Join(parts, sep);
      assert s == [sep] + Join(parts[1..], sep);
      assert s[1..] == Join(parts[1..], sep);
      assert Split(s, sep) == [""] + parts[1..];
      assert [""] + parts[1..] == parts;
    } else {
      assert parts == [""];
    }
  }

  /** The first `sep`-separated piece of `s`. */
  function FirstSegment(s: string, sep: char): (r: string)
    ensures r <= s && sep !in r
    ensures r == s || s[|r|] == sep
  {
    Split(s, sep)[0]
  }

  /** A segment followed by the separator is the first segment, whatever follows. */
  lemma FirstSegmentOf(seg: string, sep: char, rest: string)
    requires sep !in seg
    ensures FirstSegment(seg + [sep] + rest, sep) == seg
  {
    var s := seg + [sep] + rest;
    var r := FirstSegment(s, sep);
    assert forall i :: 0 <= i < |seg| ==> s[i] == seg[i];
    assert s[|seg|] == sep;
    assert |r| == |seg|;
    assert r == s[..|seg|] == seg;
  }
}
