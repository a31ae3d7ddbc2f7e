/**
 The plugin's reading of the compiler's error text (`parseError`): the line
 number is the digit run after the first `line <digit>` anywhere in the
 text, and the message is the first line that is not blank and is not a
 traceback location line. Either part missing means no diagnostic.
 */
module Diagnostics {
  import opened Options
  import opened Text

  /** A parsed diagnostic: the reported (one-based) line and a one-line message. */
  datatype Diagnostic = Diagnostic(line: nat, message: string)

  /** The literal part of the pattern `/line (\d+)/`. */
  const LineKeyword: string := "line "

  /** A location line of a Python traceback: two spaces, then `File`. */
  const LocationPrefix: string := "  File"

  /** The pattern `/line (\d+)/` matches at position `i` of `s`. */
  predicate LineTokenAt(s: string, i: int) {
    0 <= i && i + |LineKeyword| < |s| && s[i..i + |LineKeyword|] == LineKeyword
    && IsDigit(s[i + |LineKeyword|])
  }

  /** `i` is the leftmost match of `/line (\d+)/`, the one `match` reports. */
  predicate IsFirstLineToken(s: string, i: int) {
    LineTokenAt(s, i) && forall j :: 0 <= j < i ==> !LineTokenAt(s, j)
  }

  /** The leftmost match of the pattern at or after `from`. */
  function FindLineToken(s: string, from: nat): (r: Option<nat>)
    ensures r.Some? ==> from <= r.value && LineTokenAt(s, r.value)
    ensures r.Some? ==> forall j :: from <= j < r.value ==> !LineTokenAt(s, j)
    ensures r.None? ==> forall j :: from <= j ==> !LineTokenAt(s, j)
    decreases |s| - from
  {
    if |s| <= from then None
    else if LineTokenAt(s, from) then Some(from)
    else FindLineToken(s, from + 1)
  }

  /** The end of the maximal run of digits starting at `k`: the greedy
      `\d+` of the pattern. */
  function DigitRunEnd(s: string, k: nat): (e: nat)
    requires k <= |s|
    ensures k <= e <= |s|
    ensures forall i :: k <= i < e ==> IsDigit(s[i])
    ensures e == |s| || !IsDigit(s[e])
    decreases |s| - k
  {
    if k < |s| && IsDigit(s[k]) then DigitRunEnd(s, k + 1) else k
  }

  /** The digits the pattern captures when it matches at `i`. */
  function CapturedDigits(s: string, i: nat): (ds: string)
    requires LineTokenAt(s, i)
    ensures |ds| >= 1 && AllDigits(ds)
  {
    var k := i + |LineKeyword|;
    var e := DigitRunEnd(s, k);
    assert forall j :: 0 <= j < e - k ==> s[k..e][j] == s[k + j];
    s[k..e]
  }

  /** `stderr.split('\n')`. */
  function Lines(s: string): seq<string> {
    Split(s, '\n')
  }

  /** The test the `find` call applies: not blank once trimmed (`Trim`
      gives `[]` exactly on all-blank text), and not starting with the
      location prefix (checked on the untrimmed line). */
  predicate IsMessageLine(x: string) {
    !AllWhitespace(x) && !StartsWith(x, LocationPrefix)
  }

  /** `k` is the first line that passes the test, the one `find` returns. */
  predicate IsFirstMessageLine(lines: seq<string>, k: int) {
    0 <= k < |lines| && IsMessageLine(lines[k])
    && forall j :: 0 <= j < k ==> !IsMessageLine(lines[j])
  }

  function FindMessageLine(lines: seq<string>): (r: Option<nat>)
    ensures r.Some? ==> IsFirstMessageLine(lines, r.value)
    ensures r.None? ==> forall k :: 0 <= k < |lines| ==> !IsMessageLine(lines[k])
    decreases |lines|
  {
    if |lines| == 0 then None
    else if IsMessageLine(lines[0]) then Some(0)
    else
      match FindMessageLine(lines[1..])
      case None => None
      case Some(k) => Some(k + 1)
  }

  /** A message as the popup shows it: one non-empty line with no
      whitespace at either end. */
  predicate IsOneLineMessage(m: string) {
    m != [] && '\n' !in m && IsTrimmed(m)
  }

  /** `parseError(stderr)`. A diagnostic's message is always one trimmed,
      non-empty line. */
  function ParseError(stderr: string): (r: Option<Diagnostic>)
    ensures r.Some? ==> IsOneLineMessage(r.value.message)
  {
    var lines := Lines(stderr);
    match (FindLineToken(stderr, 0), FindMessageLine(lines))
    case (Some(i), Some(k)) =>
      Some(Diagnostic(DecimalValue(CapturedDigits(stderr, i)), Trim(lines[k])))
    case _ => None
  }

  /** There is no diagnostic exactly when the text has no `line <digit>`
      or no line passes the message test. */
  lemma ParseErrorNoneIff(stderr: string)
    ensures ParseError(stderr).None? <==>
      || (forall i :: !LineTokenAt(stderr, i))
      || (forall k :: 0 <= k < |Lines(stderr)| ==> !IsMessageLine(Lines(stderr)[k]))
  {
    var t := FindLineToken(stderr, 0);
    var m := FindMessageLine(Lines(stderr));
    if t.Some? && m.Some? {
      assert LineTokenAt(stderr, t.value);
      assert IsMessageLine(Lines(stderr)[m.value]);
    }
  }

  /** A diagnostic reads its line number from the leftmost match of
      `/line (\d+)/` and its message from the first line that passes the
      test, trimmed. */
  lemma ParseErrorUsesFirstMatches(stderr: string)
    requires ParseError(stderr).Some?
    ensures exists i :: IsFirstLineToken(stderr, i)
                        && ParseError(stderr).value.line == DecimalValue(CapturedDigits(stderr, i))
    ensures exists k :: IsFirstMessageLine(Lines(stderr), k)
                        && ParseError(stderr).value.message == Trim(Lines(stderr)[k])
  {
    var i := FindLineToken(stderr, 0).value;
    var k := FindMessageLine(Lines(stderr)).value;
    assert IsFirstLineToken(stderr, i);
    assert IsFirstMessageLine(Lines(stderr), k);
  }

  /** The line number is recovered exactly: when the first `line <digits>`
      in the text spells the number `n`, the diagnostic reports `n`. */
  lemma ParseRecoversLine(s: string, pre: string, n: nat, post: string)
    requires s == pre + LineKeyword + DecimalString(n) + post
    requires forall j :: 0 <= j < |pre| ==> !LineTokenAt(s, j)
    requires post == [] || !IsDigit(post[0])
    requires exists k :: 0 <= k < |Lines(s)| && IsMessageLine(Lines(s)[k])
    ensures ParseError(s).Some? && ParseError(s).value.line == n
  {
    var ds := DecimalString(n);
    var i := |pre|;
    var k := i + |LineKeyword|;
    assert s[i..k] == LineKeyword;
    assert s[k] == ds[0];
    assert LineTokenAt(s, i);
    assert IsFirstLineToken(s, i);
    var e := DigitRunEnd(s, k);
    assert s[k..k + |ds|] == ds;
    assert forall j :: k <= j < k + |ds| ==> IsDigit(s[j]) by {
      assert forall j :: k <= j < k + |ds| ==> s[j] == ds[j - k];
    }
    assert k + |ds| == |s| || s[k + |ds|] == post[0];
    assert e == k + |ds|;
    assert CapturedDigits(s, i) == ds;
    DecimalRoundTrip(n);
    ParseErrorNoneIff(s);
    ParseErrorUsesFirstMatches(s);
    var i' :| IsFirstLineToken(s, i') && ParseError(s).value.line == DecimalValue(CapturedDigits(s, i'));
    assert i' == i by {
      assert !(i' < i) && !(i < i');
    }
  }

  /** Splitting two separator-free lines joined by a newline. */
  lemma LinesOfTwo(first: string, second: string)
    requires '\n' !in first && '\n' !in second
    ensures Lines(first + "\n" + second) == [first, second]
  {
    SplitAfterPiece(first, second, '\n');
    SplitOfPiece(second, '\n');
  }

  /** No match of the pattern starts before `m` when no `l` there is
      followed by `i`. */
  lemma NoTokenBefore(s: string, m: nat)
    requires forall j :: 0 <= j < m && j + 1 < |s| ==> !(s[j] == 'l' && s[j + 1] == 'i')
    ensures forall j :: 0 <= j < m ==> !LineTokenAt(s, j)
  {
    forall j | 0 <= j < m
      ensures !LineTokenAt(s, j)
    {
      if j + |LineKeyword| < |s| {
        assert s[j..j + |LineKeyword|][0] == s[j];
        assert s[j..j + |LineKeyword|][1] == s[j + 1];
      }
    }
  }

  /** The message of a successful parse is the trim of the first message line. */
  lemma MessageIsFirstMessageLine(s: string, k: nat)
    requires IsFirstMessageLine(Lines(s), k)
    requires ParseError(s).Some?
    ensures ParseError(s).value.message == Trim(Lines(s)[k])
  {
    ParseErrorUsesFirstMatches(s);
    var k' :| IsFirstMessageLine(Lines(s), k') && ParseError(s).value.message == Trim(Lines(s)[k']);
    assert k' == k by {
      assert !(k' < k) && !(k < k');
    }
  }

  /** A trimmed line that is not a location line passes the `find` test. */
  lemma TrimmedLineIsMessage(x: string)
    requires x != [] && IsTrimmed(x) && !StartsWith(x, LocationPrefix)
    ensures IsMessageLine(x) && Trim(x) == x
  {
    TrimOfPadded("", x, "");
    assert "" + x + "" == x;
  }

  /** The message of a two-line text is its second line when the first is
      a location line and the second is already trimmed. */
  lemma MessageAfterLocation(first: string, second: string)
    requires '\n' !in first && '\n' !in second
    requires StartsWith(first, LocationPrefix)
    requires second != [] && IsTrimmed(second) && !StartsWith(second, LocationPrefix)
    requires ParseError(first + "\n" + second).Some?
    ensures ParseError(first + "\n" + second).value.message == second
  {
    var s := first + "\n" + second;
    LinesOfTwo(first, second);
    TrimmedLineIsMessage(second);
    assert IsFirstMessageLine(Lines(s), 1);
    MessageIsFirstMessageLine(s, 1);
  }

  /** The message of a two-line text is its first line when that line is
      already trimmed and is not a location line. */
  lemma MessageOnFirstLine(first: string, second: string)
    requires '\n' !in first && '\n' !in second
    requires first != [] && IsTrimmed(first) && !StartsWith(first, LocationPrefix)
    requires ParseError(first + "\n" + second).Some?
    ensures ParseError(first + "\n" + second).value.message == first
  {
    var s := first + "\n" + second;
    LinesOfTwo(first, second);
    TrimmedLineIsMessage(first);
    assert IsFirstMessageLine(Lines(s), 0);
    MessageIsFirstMessageLine(s, 0);
  }

  /** The message line of both examples. */
  const SyntaxErrorLine: string := "SyntaxError: invalid syntax"

  lemma SyntaxErrorLineFacts()
    ensures '\n' !in SyntaxErrorLine
    ensures SyntaxErrorLine != [] && IsTrimmed(SyntaxErrorLine)
    ensures !StartsWith(SyntaxErrorLine, LocationPrefix)
  {
  }

  /** The location line of the running example, with and without the
      two-space indent. */
  const IndentedLocation: string := "  File \"test.py\", line 4, in <module>"
  const UnindentedLocation: string := "File \"test.py\", line 4, in <module>"

  /** What precedes `line 4` in the two location lines. */
  const IndentedPrefix: string := "  File \"test.py\", "
  const UnindentedPrefix: string := "File \"test.py\", "

  /** What follows a location line's prefix. */
  const LocationRest: string := "line 4, in <module>"

  lemma IndentedLocationFacts()
    ensures IndentedLocation == IndentedPrefix + LocationRest
    ensures '\n' !in IndentedLocation
    ensures StartsWith(IndentedLocation, LocationPrefix)
  {
  }

  lemma UnindentedLocationFacts()
    ensures UnindentedLocation == UnindentedPrefix + LocationRest
    ensures '\n' !in UnindentedLocation
  {
  }

  lemma UnindentedLocationEnds()
    ensures UnindentedLocation != [] && IsTrimmed(UnindentedLocation)
    ensures !StartsWith(UnindentedLocation, LocationPrefix)
  {
    assert UnindentedLocation[0] == 'F';
  }

  /** Neither prefix holds an `l` followed by `i`. */
  predicate NoLi(pre: string) {
    forall j :: 0 <= j < |pre| ==> pre[j] != 'l' || (j + 1 < |pre| && pre[j + 1] != 'i')
  }

  lemma PrefixesHaveNoLi()
    ensures NoLi(IndentedPrefix) && NoLi(UnindentedPrefix)
  {
  }

  /** The running example of the source's comment, with the two-space
      indent Python puts before a location line, parses to line 4 and the
      `SyntaxError` line. */
  lemma IndentedTracebackExample()
    ensures ParseError(IndentedLocation + "\n" + SyntaxErrorLine)
         == Some(Diagnostic(4, SyntaxErrorLine))
  {
    IndentedLocationFacts();
    SyntaxErrorLineFacts();
    PrefixesHaveNoLi();
    TracebackLineFour(IndentedPrefix, IndentedLocation, SyntaxErrorLine);
    MessageAfterLocation(IndentedLocation, SyntaxErrorLine);
  }

  /** Without the indent the location line itself is the message, as the
      comment in the source spells the example: the test looks for exactly
      two spaces before `File` and does not trim first. */
  lemma UnindentedLocationIsMessage()
    ensures ParseError(UnindentedLocation + "\n" + SyntaxErrorLine)
         == Some(Diagnostic(4, UnindentedLocation))
  {
    UnindentedLocationFacts();
    UnindentedLocationEnds();
    SyntaxErrorLineFacts();
    PrefixesHaveNoLi();
    TracebackLineFour(UnindentedPrefix, UnindentedLocation, SyntaxErrorLine);
    MessageOnFirstLine(UnindentedLocation, SyntaxErrorLine);
  }

  /** Both examples report line 4: the location line is a prefix, then
      `line 4, in <module>`, and the second line is a message line. */
  lemma TracebackLineFour(pre: string, first: string, second: string)
    requires first == pre + LocationRest
    requires NoLi(pre)
    requires '\n' !in first && '\n' !in second
    requires second == SyntaxErrorLine
    ensures ParseError(first + "\n" + second).Some?
    ensures ParseError(first + "\n" + second).value.line == 4
  {
    var s := first + "\n" + second;
    var post := ", in <module>\n" + second;
    TracebackShape(s, pre, first, second, post);
    LinesOfTwo(first, second);
    SyntaxErrorLineFacts();
    TrimmedLineIsMessage(second);
    assert IsMessageLine(Lines(s)[1]);
    PrefixHasNoToken(s, pre);
    ParseRecoversLine(s, pre, 4, post);
  }

  lemma TracebackShape(s: string, pre: string, first: string, second: string, post: string)
    requires first == pre + LocationRest
    requires s == first + "\n" + second
    requires post == ", in <module>\n" + second
    ensures s == pre + LineKeyword + DecimalString(4) + post
  {
    assert DecimalString(4) == "4";
    assert LocationRest + "\n" + second == LineKeyword + "4" + post;
  }

  /** No match of the pattern starts inside a prefix without `li`. */
  lemma PrefixHasNoToken(s: string, pre: string)
    requires |pre| < |s| && s[..|pre|] == pre && s[|pre|] == 'l'
    requires NoLi(pre)
    ensures forall j :: 0 <= j < |pre| ==> !LineTokenAt(s, j)
  {
    assert forall j :: 0 <= j < |pre| ==> s[j] == pre[j];
    NoTokenBefore(s, |pre|);
  }

  /** Text with no `line <digit>` anywhere gives no diagnostic, whatever
      its lines. */
  lemma NoLineNumberNoDiagnostic(s: string)
    requires forall i :: !LineTokenAt(s, i)
    ensures ParseError(s) == None
  {
    ParseErrorNoneIff(s);
  }

  /** In particular, text without any `l` gives no diagnostic. */
  lemma NoLetterLNoDiagnostic(s: string)
    requires 'l' !in s
    ensures ParseError(s) == None
  {
    NoTokenBefore(s, |s|);
    NoLineNumberNoDiagnostic(s);
  }

  /** Nothing bounds the line number from below: `line 0` on a line of its
      own is reported as line 0, whatever line follows, and is itself the
      message. The editor then marks line -1. */
  lemma LineZeroIsReported(second: string)
    requires '\n' !in second
    ensures ParseError(LineKeyword + "0\n" + second).Some?
    ensures ParseError(LineKeyword + "0\n" + second).value.line == 0
    ensures ParseError(LineKeyword + "0\n" + second).value.message == LineKeyword + "0"
  {
    var first := LineKeyword + "0";
    var s := first + "\n" + second;
    assert LineKeyword + "0\n" + second == s;
    assert DecimalString(0) == "0";
    assert s == [] + LineKeyword + DecimalString(0) + ("\n" + second);
    assert '\n' !in first by {
      assert forall k :: 0 <= k < |first| ==> first[k] != '\n';
    }
    assert first[0] == 'l' && first[|first| - 1] == '0';
    assert !StartsWith(first, LocationPrefix) by {
      assert first[0] != LocationPrefix[0];
    }
    LinesOfTwo(first, second);
    TrimmedLineIsMessage(first);
    assert IsMessageLine(Lines(s)[0]);
    ParseRecoversLine(s, [], 0, "\n" + second);
    MessageOnFirstLine(first, second);
  }
}
