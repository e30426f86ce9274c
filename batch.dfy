/** The pure helpers of both batch drivers: turning the lines of the input
    file into hostnames, and naming the results file. */
module Batch {
  import opened Wrappers

  /** Python's `str.isspace` for one character: the ASCII whitespace and
      separator controls, NEL, NO-BREAK SPACE and the Unicode space
      separators, line and paragraph separators. */
  predicate IsSpace(c: char)
  {
    || c == ' '
    || '\t' <= c <= '\r'
    || '\U{1C}' <= c <= '\U{1F}'
    || c == '\U{85}' || c == '\U{A0}' || c == '\U{1680}'
    || '\U{2000}' <= c <= '\U{200A}'
    || c == '\U{2028}' || c == '\U{2029}' || c == '\U{202F}' || c == '\U{205F}' || c == '\U{3000}'
  }

  predicate AllSpace(s: string)
  {
    forall i :: 0 <= i < |s| ==> IsSpace(s[i])
  }

  /** `s.lstrip()`. */
  function TrimStart(s: string): string
    decreases |s|
  {
    if s != [] && IsSpace(s[0]) then TrimStart(s[1..]) else s
  }

  /** `s.rstrip()`. */
  function TrimEnd(s: string): string
    decreases |s|
  {
    if s != [] && IsSpace(s[|s| - 1]) then TrimEnd(s[..|s| - 1]) else s
  }

  /** `line.strip()`. */
  function Strip(s: string): string
  {
    TrimEnd(TrimStart(s))
  }

  /** `s.lstrip()` is the suffix of `s` left after its leading whitespace. */
  lemma {:induction false} TrimStartSuffix(s: string)
    ensures |TrimStart(s)| <= |s| && TrimStart(s) == s[|s| - |TrimStart(s)|..]
    ensures AllSpace(s[..|s| - |TrimStart(s)|])
    ensures TrimStart(s) == [] || !IsSpace(TrimStart(s)[0])
    decreases |s|
  {
    if s != [] && IsSpace(s[0]) {
      TrimStartSuffix(s[1..]);
      var k := |s| - |TrimStart(s)|;
      assert s[..k] == [s[0]] + s[1..][..k - 1];
    }
  }

  /** `s.rstrip()` is the prefix of `s` left before its trailing whitespace. */
  lemma {:induction false} TrimEndPrefix(s: string)
    ensures |TrimEnd(s)| <= |s| && TrimEnd(s) == s[..|TrimEnd(s)|]
    ensures AllSpace(s[|TrimEnd(s)|..])
    ensures TrimEnd(s) == [] || !IsSpace(TrimEnd(s)[|TrimEnd(s)| - 1])
    decreases |s|
  {
    if s != [] && IsSpace(s[|s| - 1]) {
      var t := s[..|s| - 1];
      TrimEndPrefix(t);
      var k := |TrimEnd(s)|;
      assert s[k..] == t[k..] + [s[|s| - 1]];
    }
  }

  /** `line.strip()` is the infix of the line between its leading and its
      trailing whitespace, with no whitespace at either end; it is empty
      exactly for a blank line. */
  lemma StripInfix(s: string) returns (i: nat)
    ensures i + |Strip(s)| <= |s| && Strip(s) == s[i..i + |Strip(s)|]
    ensures AllSpace(s[..i]) && AllSpace(s[i + |Strip(s)|..])
    ensures Strip(s) != [] ==> !IsSpace(Strip(s)[0]) && !IsSpace(Strip(s)[|Strip(s)| - 1])
    ensures Strip(s) == [] <==> AllSpace(s)
  {
    var t := TrimStart(s);
    TrimStartSuffix(s);
    TrimEndPrefix(t);
    var r := TrimEnd(t);
    i := |s| - |t|;
    assert r == s[i..i + |r|];
    assert s[i + |r|..] == t[|r|..];
    if r != [] {
      assert r[0] == t[0];
      assert s[i] == r[0] && !IsSpace(s[i]);
    } else {
      assert s == s[..i] + t;
    }
  }

  /** Stripping a stripped line changes nothing. */
  lemma StripIdempotent(s: string)
    ensures Strip(Strip(s)) == Strip(s)
  {
    var _ := StripInfix(s);
    var r := Strip(s);
    assert TrimStart(r) == r;
    assert TrimEnd(r) == r;
  }

  /** `[line.strip() for line in f if line.strip()]`: the stripped non-blank
      lines, in file order. */
  function NonBlankLines(lines: seq<string>): (hs: seq<string>)
    ensures |hs| <= |lines|
    ensures forall h :: h in hs ==> h != []
    decreases |lines|
  {
    if lines == [] then []
    else
      var h := Strip(lines[0]);
      (if h == [] then [] else [h]) + NonBlankLines(lines[1..])
  }

  /** The filter works line by line: the hostnames of two pieces of a file,
      concatenated, are the hostnames of the whole, so order is kept and no
      line is merged with or dropped for another. */
  lemma {:induction false} NonBlankLinesConcat(a: seq<string>, b: seq<string>)
    ensures NonBlankLines(a + b) == NonBlankLines(a) + NonBlankLines(b)
    decreases |a|
  {
    if a == [] {
      assert a + b == b;
    } else {
      assert (a + b)[0] == a[0];
      assert (a + b)[1..] == a[1..] + b;
      NonBlankLinesConcat(a[1..], b);
    }
  }

  /** A file whose lines are already bare hostnames gives exactly those
      hostnames, repeated ones included. */
  lemma {:induction false} NonBlankLinesOfBareNames(lines: seq<string>)
    requires forall l :: l in lines ==> l != [] && Strip(l) == l
    ensures NonBlankLines(lines) == lines
    decreases |lines|
  {
    if lines != [] {
      assert lines[0] in lines;
      assert forall l :: l in lines[1..] ==> l in lines;
      NonBlankLinesOfBareNames(lines[1..]);
    }
  }

  /** A hostname comes out exactly when some line strips to it, and every
      line that is not blank gives one. */
  lemma {:induction false} NonBlankLinesMembership(lines: seq<string>, h: string)
    ensures h in NonBlankLines(lines) <==> h != [] && exists l :: l in lines && Strip(l) == h
    decreases |lines|
  {
    if lines != [] {
      NonBlankLinesMembership(lines[1..], h);
      forall l | l in lines ensures l == lines[0] || l in lines[1..] {
        if l != lines[0] {
          var k :| 0 <= k < |lines| && lines[k] == l;
          assert lines[1..][k - 1] == l;
        }
      }
    }
  }

  /** Blank lines are dropped, line ends are stripped and a repeated
      hostname is kept twice. */
  lemma BlankAndDuplicateLines()
    ensures NonBlankLines(["a.example\n", " \n", "a.example"]) == ["a.example", "a.example"]
  {
    var x := "a.example";
    assert x + "\n" == "a.example\n";
    assert TrimStart(x) == x;
    assert TrimEnd(x) == x;
    assert Strip(x) == x;
    assert (x + "\n")[..|x|] == x;
    assert TrimEnd(x + "\n") == x;
    assert TrimStart(x + "\n") == x + "\n";
    assert Strip(x + "\n") == x;
    assert TrimStart("\n") == "";
    assert TrimStart(" \n") == "";
    assert Strip(" \n") == "";
    var lines := [x + "\n", " \n", x];
    assert lines[1..] == [" \n", x];
    assert lines[1..][1..] == [x];
    assert NonBlankLines([x]) == [x];
    assert NonBlankLines([" \n", x]) == [x];
  }

  // ---------------------------------------------------------------------
  // The results file name

  const ResultsSuffix: string := "_results.json"

  /** `f"{input_file.stem}_results.json"`. */
  function ResultsFileName(stem: string): string
  {
    stem + ResultsSuffix
  }

  /** Reads the stem back out of a results file name, if it is one. */
  function StemOf(name: string): Option<string>
  {
    if |ResultsSuffix| <= |name| && name[|name| - |ResultsSuffix|..] == ResultsSuffix
    then Some(name[..|name| - |ResultsSuffix|])
    else None
  }

  /** The results file name ends in "_results.json" and the input's stem is
      all that comes before it; so two different stems never share a results
      file. */
  lemma ResultsFileNameRoundTrip(stem: string, name: string)
    ensures StemOf(ResultsFileName(stem)) == Some(stem)
    ensures StemOf(name) == Some(stem) <==> name == ResultsFileName(stem)
  {
    var n := ResultsFileName(stem);
    assert n[|n| - |ResultsSuffix|..] == ResultsSuffix;
    assert n[..|n| - |ResultsSuffix|] == stem;
    if StemOf(name) == Some(stem) {
      assert name == name[..|name| - |ResultsSuffix|] + name[|name| - |ResultsSuffix|..];
    }
  }

  lemma ResultsFileNameInjective(a: string, b: string)
    requires ResultsFileName(a) == ResultsFileName(b)
    ensures a == b
  {
    ResultsFileNameRoundTrip(a, ResultsFileName(a));
    ResultsFileNameRoundTrip(b, ResultsFileName(b));
  }
}
