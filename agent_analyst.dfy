/**
 * The parsing core of the backend's analyst agent: `_parse_response`, which
 * splits the model's raw text into an answer and a list of source URLs, and
 * `run_analysis`, which turns either the agent's output or its failure into
 * the same `{answer, sources}` shape.
 *
 * Two readings of the fallback cleanup are kept side by side:
 * `ParseAsWritten` (and the method `ParseResponse`) delete each found URL
 * with `str.replace`, one after the other, as the code does; `Parse` deletes
 * exactly the matched spans, which is what the cleanup is for.
 */
module AgentAnalyst {
  import opened Wrappers
  import opened Whitespace
  import opened UrlScan

  /** The dictionary both functions return: `{"answer": ..., "sources": [...]}`. */
  datatype Analysis = Analysis(answer: string, sources: seq<string>)

  /** The literal part of the separator pattern `\s*sources:\s*`, in lower case. */
  const Delimiter: string := "sources:"

  /**
   * Text character `c` matches pattern character `p` under `re.IGNORECASE`:
   * itself, the ASCII upper-case letter, and for `s` also U+017F (long s).
   */
  predicate FoldEq(c: char, p: char) {
    c == p || ('a' <= p <= 'z' && c as int == p as int - 32) || (p == 's' && c as int == 0x17F)
  }

  /** `t` is `d` up to case, character by character. */
  predicate FoldsTo(t: string, d: string) {
    |t| == |d| && forall i :: 0 <= i < |t| ==> FoldEq(t[i], d[i])
  }

  /** The delimiter occurs, in any case, at position `k`. No word boundary is asked for. */
  predicate DelimiterAt(s: string, k: nat) {
    k + |Delimiter| <= |s| && FoldsTo(s[k..k + |Delimiter|], Delimiter)
  }

  lemma DelimiterStartsWithNonWs(s: string, k: nat)
    requires DelimiterAt(s, k)
    ensures !IsWs(Python, s[k])
  {
    assert FoldEq(s[k..k + |Delimiter|][0], Delimiter[0]);
  }

  /**
   * The separator pattern tried at `p`, with the regular expression's
   * backtracking resolved: the leading `\s*` can only stop at the first
   * non-whitespace position, and the trailing `\s*` takes all it can.
   * The result is the end of the match.
   */
  function MatchSeparator(s: string, p: nat): (r: Option<nat>)
    requires p <= |s|
    ensures r.Some? ==> p + |Delimiter| <= r.value <= |s|
  {
    var k := SkipWs(Python, s, p);
    if DelimiterAt(s, k) then Some(SkipWs(Python, s, k + |Delimiter|)) else None
  }

  /** The leading `\s*` has one way to succeed: a delimiter after a run of whitespace starts where that run ends. */
  lemma LeadingWsForced(s: string, p: nat, j: nat)
    requires p <= j <= |s| && AllWs(Python, s[p..j]) && DelimiterAt(s, j)
    ensures SkipWs(Python, s, p) == j
  {
    DelimiterStartsWithNonWs(s, j);
    var r := SkipWs(Python, s, p);
  }

  /** `re.search`: the leftmost position at or after `p` where the separator matches, with the end of that match. */
  function SearchSeparator(s: string, p: nat): (r: Option<(nat, nat)>)
    requires p <= |s|
    ensures r.Some? ==> p <= r.value.0 <= |s| && MatchSeparator(s, r.value.0) == Some(r.value.1)
    ensures r.Some? ==> forall q :: p <= q < r.value.0 ==> MatchSeparator(s, q).None?
    ensures r.None? ==> forall q :: p <= q <= |s| ==> MatchSeparator(s, q).None?
    decreases |s| - p
  {
    match MatchSeparator(s, p)
    case Some(e) => Some((p, e))
    case None => if p == |s| then None else SearchSeparator(s, p + 1)
  }

  /**
   * `re.split(r'\s*sources:\s*', s, maxsplit=1, flags=re.IGNORECASE)`:
   * `[s]` when nothing matches, otherwise the text before and after the
   * first match; the whitespace around the delimiter belongs to neither.
   */
  function Split(s: string): (parts: seq<string>)
    ensures |parts| == 1 || |parts| == 2
    ensures |parts| == 1 ==> parts[0] == s
    ensures |parts| == 2 ==> |parts[0]| + |Delimiter| + |parts[1]| <= |s|
    ensures |parts| == 2 ==> parts[0] == s[..|parts[0]|] && parts[1] == s[|s| - |parts[1]|..]
  {
    match SearchSeparator(s, 0)
    case None => [s]
    case Some((start, end)) => [s[..start], s[end..]]
  }

  /** The text between the two parts is what the pattern matched: whitespace, the delimiter, whitespace. */
  predicate IsSeparator(t: string) {
    var k := SkipWs(Python, t, 0);
    DelimiterAt(t, k) && AllWs(Python, t[k + |Delimiter|..])
  }

  /** Splitting loses nothing: the parts and the separator between them rebuild the text. */
  lemma SplitRejoins(s: string)
    requires |Split(s)| == 2
    ensures var parts := Split(s);
            var sep := s[|parts[0]|..|s| - |parts[1]|];
            s == parts[0] + sep + parts[1] && IsSeparator(sep)
            && (parts[0] == [] || !IsWs(Python, parts[0][|parts[0]| - 1]))
            && (parts[1] == [] || !IsWs(Python, parts[1][0]))
  {
    var (start, end) := SearchSeparator(s, 0).value;
    var parts := Split(s);
    assert parts == [s[..start], s[end..]];
    assert s[|parts[0]|..|s| - |parts[1]|] == s[start..end];
    assert s == s[..start] + s[start..end] + s[end..];
    SeparatorRecognised(s, start, end);
    if start > 0 {
      NoWsBeforeMatch(s, start);
      assert parts[0][|parts[0]| - 1] == s[start - 1];
    }
    if end < |s| {
      assert parts[1][0] == s[end];
    }
  }

  /** What `MatchSeparator` consumed is a separator on its own. */
  lemma SeparatorRecognised(s: string, start: nat, end: nat)
    requires start <= |s| && MatchSeparator(s, start) == Some(end)
    ensures IsSeparator(s[start..end])
  {
    var k := SkipWs(Python, s, start);
    assert DelimiterAt(s, k) && end == SkipWs(Python, s, k + |Delimiter|);
    var sep := s[start..end];
    var d := k - start;
    assert AllWs(Python, sep[0..d]) by { assert sep[0..d] == s[start..k]; }
    assert DelimiterAt(sep, d) by { assert sep[d..d + |Delimiter|] == s[k..k + |Delimiter|]; }
    LeadingWsForced(sep, 0, d);
    assert AllWs(Python, sep[d + |Delimiter|..]) by { assert sep[d + |Delimiter|..] == s[k + |Delimiter|..end]; }
  }

  /** The leftmost match absorbs all whitespace before the delimiter. */
  lemma NoWsBeforeMatch(s: string, start: nat)
    requires 0 < start <= |s| && MatchSeparator(s, start).Some?
    requires MatchSeparator(s, start - 1).None?
    ensures !IsWs(Python, s[start - 1])
  {
  }

  /** Only a delimiter that is not preceded by another one decides the split. */
  lemma SplitAtFirstDelimiter(s: string, k: nat)
    requires DelimiterAt(s, k)
    requires forall j :: 0 <= j < k ==> !DelimiterAt(s, j)
    ensures Split(s) == [s[..SkipWsBack(Python, s, 0, k)], s[SkipWs(Python, s, k + |Delimiter|)..]]
  {
    var start := SkipWsBack(Python, s, 0, k);
    LeadingWsForced(s, start, k);
    forall q | 0 <= q < start ensures MatchSeparator(s, q).None? {
      var j := SkipWs(Python, s, q);
    }
    SearchFindsFirst(s, 0, start);
  }

  lemma {:induction false} SearchFindsFirst(s: string, p: nat, m: nat)
    requires p <= m <= |s| && MatchSeparator(s, m).Some?
    requires forall q :: p <= q < m ==> MatchSeparator(s, q).None?
    ensures SearchSeparator(s, p) == Some((m, MatchSeparator(s, m).value))
    decreases m - p
  {
    if p < m {
      SearchFindsFirst(s, p + 1, m);
    }
  }

  /** The text splits exactly when the delimiter occurs somewhere in it. */
  lemma SplitIffDelimiter(s: string)
    ensures |Split(s)| == 2 <==> exists k :: 0 <= k <= |s| && DelimiterAt(s, k)
  {
    match SearchSeparator(s, 0)
    case Some((start, end)) =>
      var k := SkipWs(Python, s, start);
      assert DelimiterAt(s, k);
    case None =>
      forall k | 0 <= k <= |s| ensures !DelimiterAt(s, k) {
        var m := MatchSeparator(s, k);
        if DelimiterAt(s, k) {
          LeadingWsForced(s, k, k);
        }
      }
  }

  /** The part of `_parse_response` both readings share: the stripped answer and the URLs of the block after the delimiter. */
  function Sections(text: string): (r: (string, seq<string>))
    ensures NoEdgeWs(Python, r.0)
    ensures forall k :: 0 <= k < |r.1| ==> IsUrl(r.1[k])
  {
    var parts := Split(text);
    (Strip(Python, parts[0]), if |parts| > 1 then FindUrls(Strip(Python, parts[1])) else [])
  }

  /** `target` occurs in `s` at position `i`. */
  predicate OccursAt(s: string, target: string, i: nat) {
    i + |target| <= |s| && s[i..i + |target|] == target
  }

  /**
   * `s.replace(target, '')`: scanning left to right, each occurrence of
   * `target` that does not overlap an earlier deleted one is deleted.
   */
  function Replace(s: string, target: string): (r: string)
    requires target != []
    ensures |r| <= |s|
    ensures |r| == |s| <==> forall i :: 0 <= i <= |s| ==> !OccursAt(s, target, i)
    ensures r == s <==> forall i :: 0 <= i <= |s| ==> !OccursAt(s, target, i)
    decreases |s|
  {
    if |s| < |target| then s
    else if s[..|target|] == target then
      assert OccursAt(s, target, 0);
      Replace(s[|target|..], target)
    else
      var rest := Replace(s[1..], target);
      assert !OccursAt(s, target, 0) by { assert s[0..|target|] == s[..|target|]; }
      OccursShift(s, target);
      assert (forall i :: 0 <= i <= |s| ==> !OccursAt(s, target, i))
         <==> (forall i :: 0 <= i <= |s| - 1 ==> !OccursAt(s[1..], target, i)) by {
        forall i | 0 <= i <= |s| - 1 ensures OccursAt(s[1..], target, i) == OccursAt(s, target, i + 1) { }
      }
      [s[0]] + rest
  }

  lemma OccursShift(s: string, target: string)
    requires s != []
    ensures forall i :: 1 <= i <= |s| ==> OccursAt(s, target, i) == OccursAt(s[1..], target, i - 1)
  {
    forall i | 1 <= i <= |s| ensures OccursAt(s, target, i) == OccursAt(s[1..], target, i - 1) {
      if i + |target| <= |s| {
        var a, b := s[i..i + |target|], s[1..][i - 1..i - 1 + |target|];
        assert forall j :: 0 <= j < |target| ==> a[j] == s[i + j] == b[j];
        assert a == b;
      }
    }
  }

  /** The `for url in found_urls` loop: `Replace` with each URL in turn, on the text the previous one left. */
  function RemoveEach(s: string, urls: seq<string>): (r: string)
    requires forall k :: 0 <= k < |urls| ==> urls[k] != []
    ensures |r| <= |s|
    decreases |urls|
  {
    if urls == [] then s else RemoveEach(Replace(s, urls[0]), urls[1..])
  }

  /**
   * `_parse_response` as written. When the block after the delimiter yields
   * URLs, they are the sources and the answer is kept as it is; otherwise the
   * URLs of the answer become the sources and are deleted from it one after
   * the other with `str.replace`.
   */
  function ParseAsWritten(text: string): (r: Analysis)
    ensures NoEdgeWs(Python, r.answer)
    ensures forall k :: 0 <= k < |r.sources| ==> IsUrl(r.sources[k])
  {
    var (answer, sources) := Sections(text);
    if sources != [] then Analysis(answer, sources)
    else
      var found := FindUrls(answer);
      if found != [] then Analysis(Strip(Python, RemoveEach(answer, found)), found)
      else Analysis(answer, sources)
  }

  /**
   * `_parse_response` with the cleanup it is meant to do: in the fallback the
   * matched URL spans, and nothing else, are deleted from the answer.
   */
  function Parse(text: string): (r: Analysis)
    ensures NoEdgeWs(Python, r.answer)
    ensures forall k :: 0 <= k < |r.sources| ==> IsUrl(r.sources[k])
  {
    var (answer, sources) := Sections(text);
    if sources != [] then Analysis(answer, sources)
    else
      var found := FindUrls(answer);
      if found != [] then Analysis(Strip(Python, DeleteUrls(answer, 0)), found)
      else Analysis(answer, sources)
  }

  /**
   * The statements of `_parse_response`, rebinding `sources` and, in the
   * loop, `answer`; it computes `ParseAsWritten`.
   */
  method ParseResponse(responseText: string) returns (r: Analysis)
    ensures r == ParseAsWritten(responseText)
  {
    var parts := Split(responseText);
    var answer := Strip(Python, parts[0]);
    var sources: seq<string> := [];
    if |parts| > 1 {
      var sourcesStr := Strip(Python, parts[1]);
      sources := FindUrls(sourcesStr);
    }
    assert (answer, sources) == Sections(responseText);
    if sources == [] {
      var foundUrls := FindUrls(answer);
      if foundUrls != [] {
        sources := foundUrls;
        answer := RemoveFound(answer, foundUrls);
        answer := Strip(Python, answer);
      }
    }
    r := Analysis(answer, sources);
  }

  /** The `for url in found_urls` loop, rebinding `answer` to each replacement in turn. */
  method RemoveFound(text: string, foundUrls: seq<string>) returns (answer: string)
    requires forall k :: 0 <= k < |foundUrls| ==> foundUrls[k] != []
    ensures answer == RemoveEach(text, foundUrls)
  {
    answer := text;
    for i := 0 to |foundUrls|
      invariant RemoveEach(answer, foundUrls[i..]) == RemoveEach(text, foundUrls)
    {
      assert foundUrls[i..][1..] == foundUrls[i + 1..];
      answer := Replace(answer, foundUrls[i]);
    }
    assert foundUrls[|foundUrls|..] == [];
  }

  /** What the agent executor did: returned a result with an `output` entry, returned one without it, or raised. */
  datatype AgentRun = Output(text: string) | NoOutputKey | Raised(message: string)

  const ErrorPrefix: string := "An error occurred during analysis: "

  /**
   * `run_analysis`: `_parse_response` of the output, as written, or, for any
   * exception (a missing `output` key raises `KeyError('output')`, whose
   * text is `'output'`), the error text with no sources.
   */
  function RunAnalysis(run: AgentRun): (r: Analysis)
    ensures run.Output? ==> r == ParseAsWritten(run.text)
    ensures !run.Output? ==> r.sources == [] && ErrorPrefix <= r.answer
    ensures run.Raised? ==> r.answer == ErrorPrefix + run.message
  {
    match run
    case Output(text) => ParseAsWritten(text)
    case NoOutputKey => Analysis(ErrorPrefix + "'output'", [])
    case Raised(message) => Analysis(ErrorPrefix + message, [])
  }

  /** `run_analysis` with the intended cleanup: the output goes through `Parse`; failures are handled as before. */
  function RunAnalysisIntended(run: AgentRun): (r: Analysis)
    ensures run.Output? ==> r == Parse(run.text)
    ensures !run.Output? ==> r == RunAnalysis(run)
  {
    if run.Output? then Parse(run.text) else RunAnalysis(run)
  }

  /** Without a delimiter the text is not split. */
  lemma NoDelimiterNoSplit(s: string)
    requires forall k :: 0 <= k <= |s| ==> !DelimiterAt(s, k)
    ensures Split(s) == [s]
  {
    SplitIffDelimiter(s);
  }

  /**
   * Only the first delimiter counts: the answer is the stripped text before
   * it, and the block is everything after it and the whitespace that
   * follows it, later delimiters included.
   */
  lemma AnswerBeforeFirstDelimiter(text: string, k: nat)
    requires DelimiterAt(text, k)
    requires forall j :: 0 <= j < k ==> !DelimiterAt(text, j)
    ensures Sections(text).0 == Strip(Python, text[..k])
    ensures Sections(text).1 == FindUrls(Strip(Python, text[SkipWs(Python, text, k + |Delimiter|)..]))
  {
    SplitAtFirstDelimiter(text, k);
    var start := SkipWsBack(Python, text, 0, k);
    assert text[..k] == text[..start] + text[start..k];
    StripIgnoresTrailingWs(Python, text[..start], text[start..k]);
  }

  /** When the block yields URLs they are the sources, and the answer before the delimiter is kept as it is, URLs and all. */
  lemma BlockUrlsAreSources(text: string, k: nat)
    requires DelimiterAt(text, k)
    requires forall j :: 0 <= j < k ==> !DelimiterAt(text, j)
    requires FindUrls(Strip(Python, text[SkipWs(Python, text, k + |Delimiter|)..])) != []
    ensures ParseAsWritten(text) == Parse(text)
    ensures Parse(text) == Analysis(Strip(Python, text[..k]),
                                    FindUrls(Strip(Python, text[SkipWs(Python, text, k + |Delimiter|)..])))
  {
    AnswerBeforeFirstDelimiter(text, k);
  }

  /** When the block yields no URL it is discarded: the result is the one for the text before the delimiter. */
  lemma EmptyBlockIsDiscarded(text: string, k: nat)
    requires DelimiterAt(text, k)
    requires forall j :: 0 <= j < k ==> !DelimiterAt(text, j)
    requires FindUrls(Strip(Python, text[SkipWs(Python, text, k + |Delimiter|)..])) == []
    ensures ParseAsWritten(text) == ParseAsWritten(text[..k])
    ensures Parse(text) == Parse(text[..k])
  {
    AnswerBeforeFirstDelimiter(text, k);
    PrefixHasNoDelimiter(text, k);
    NoDelimiterNoSplit(text[..k]);
    assert Sections(text[..k]) == Sections(text);
    SameSections(text, text[..k]);
  }

  lemma PrefixHasNoDelimiter(text: string, k: nat)
    requires k <= |text|
    requires forall j :: 0 <= j < k ==> !DelimiterAt(text, j)
    ensures forall j :: 0 <= j <= k ==> !DelimiterAt(text[..k], j)
  {
    var prefix := text[..k];
    forall j | 0 <= j <= k ensures !DelimiterAt(prefix, j) {
      if DelimiterAt(prefix, j) {
        assert prefix[j..j + |Delimiter|] == text[j..j + |Delimiter|];
        assert DelimiterAt(text, j);
      }
    }
  }

  /** Both readings see the text only through `Sections`. */
  lemma SameSections(a: string, b: string)
    requires Sections(a) == Sections(b)
    ensures ParseAsWritten(a) == ParseAsWritten(b) && Parse(a) == Parse(b)
  {
  }

  /** With no delimiter and no URL anywhere, the result is the stripped text and no sources. */
  lemma PlainText(text: string)
    requires forall k :: 0 <= k <= |text| ==> !DelimiterAt(text, k)
    requires FindUrls(text) == []
    ensures ParseAsWritten(text) == Analysis(Strip(Python, text), [])
    ensures Parse(text) == Analysis(Strip(Python, text), [])
  {
    NoDelimiterNoSplit(text);
    NoneFoundIffNoUrl(text);
    StripKeepsNoUrl(text);
    NoneFoundIffNoUrl(Strip(Python, text));
  }

  /**
   * The cleanup as intended: when the block yields no URL, the sources are
   * the URLs of the answer, and the answer left over holds no URL.
   */
  lemma FallbackAnswerHasNoUrl(text: string)
    requires Sections(text).1 == []
    ensures Parse(text).sources == FindUrls(Sections(text).0)
    ensures FindUrls(Parse(text).answer) == []
  {
    var answer := Sections(text).0;
    if FindUrls(answer) != [] {
      DeleteUrlsLeavesNoUrl(answer, 0);
      StripKeepsNoUrl(DeleteUrls(answer, 0));
      NoneFoundIffNoUrl(Strip(Python, DeleteUrls(answer, 0)));
    } else {
      NoneFoundIffNoUrl(answer);
    }
  }

  /**
   * The cleanup as written: when one found URL is the beginning of a later
   * one, deleting the first with `str.replace` also eats into the second and
   * its tail is left in the answer. Deleting the matched spans leaves nothing.
   */
  lemma ReplaceLeavesFragment(s: string)
    requires s == "http://a http://ab"
    ensures ParseAsWritten(s) == Analysis("b", ["http://a", "http://ab"])
    ensures Parse(s) == Analysis("", ["http://a", "http://ab"])
  {
    var found := ["http://a", "http://ab"];
    ExampleSections(s);
    ExampleUrls(s);
    FallbackUnfolds(s, s, found);
    ExampleRemoveEach(s, " b");
    ExampleDelete(s);
    ExampleStrips(" b");
  }

  lemma ExampleStrips(t: string)
    requires t == " b"
    ensures Strip(Python, t) == "b" && Strip(Python, t[..1]) == ""
  {
    assert AllWs(Python, t[..1]);
    assert t == t[..1] + "b" + [];
    StripExact(Python, t[..1], "b", []);
  }

  /** In the fallback, the two readings differ only in how the URLs are deleted. */
  lemma FallbackUnfolds(text: string, answer: string, found: seq<string>)
    requires Sections(text) == (answer, []) && FindUrls(answer) == found && found != []
    ensures ParseAsWritten(text) == Analysis(Strip(Python, RemoveEach(answer, found)), found)
    ensures Parse(text) == Analysis(Strip(Python, DeleteUrls(answer, 0)), found)
  {
  }

  lemma ExampleRemoveEach(s: string, t: string)
    requires s == "http://a http://ab" && t == " b"
    ensures RemoveEach(s, ["http://a", "http://ab"]) == t
  {
    ExampleReplace(s);
    assert Replace(t, "http://ab") == t;
    assert RemoveEach(t, []) == t;
    assert ["http://a", "http://ab"][1..] == ["http://ab"];
    assert RemoveEach(t, ["http://ab"]) == RemoveEach(t, []);
  }

  lemma ExampleSections(s: string)
    requires s == "http://a http://ab"
    ensures Sections(s) == (s, [])
  {
    NoLetterSNoDelimiter(s);
    NoDelimiterNoSplit(s);
    assert [] + s + [] == s;
    StripExact(Python, [], s, []);
  }

  /** Every occurrence of the delimiter starts with an `s`, in one of its three case forms. */
  lemma NoLetterSNoDelimiter(s: string)
    requires forall i :: 0 <= i < |s| ==> !FoldEq(s[i], 's')
    ensures forall k :: 0 <= k <= |s| ==> !DelimiterAt(s, k)
  {
    forall k | 0 <= k <= |s| ensures !DelimiterAt(s, k) {
      if k + |Delimiter| <= |s| {
        assert s[k..k + |Delimiter|][0] == s[k];
      }
    }
  }

  lemma ExampleUrls(s: string)
    requires s == "http://a http://ab"
    ensures FindUrls(s) == ["http://a", "http://ab"]
  {
    ExampleSpans(s);
    TwoSpansFound(s);
    ExampleSlices(s);
  }

  lemma TwoSpansFound(s: string)
    requires |s| == 18 && UrlSpans(s, 0) == [(0, 8), (9, 18)]
    ensures FindUrls(s) == [s[0..8], s[9..18]]
  {
  }

  lemma ExampleSlices(s: string)
    requires s == "http://a http://ab"
    ensures s[0..8] == "http://a" && s[9..18] == "http://ab"
  {
  }

  lemma ExampleSpans(s: string)
    requires s == "http://a http://ab"
    ensures UrlSpans(s, 0) == [(0, 8), (9, 18)]
  {
    ExampleMatches(s);
    SpansAtMatch(s, 0, 8);
    SpansPastNoMatch(s, 8);
    SpansAtMatch(s, 9, 18);
    assert UrlSpans(s, 18) == [];
  }

  lemma ExampleMatches(s: string)
    requires s == "http://a http://ab"
    ensures MatchUrl(s, 0) == Some(8) && MatchUrl(s, 8) == None && MatchUrl(s, 9) == Some(18)
  {
    assert s[0..] == s;
    RunLength(s, 8);
    UrlStartsWithH(s[8..]);
    RunLength(s[9..], 9);
  }

  lemma ExampleReplace(s: string)
    requires s == "http://a http://ab"
    ensures Replace(s, "http://a") == " b"
  {
    var t := "http://a";
    ExampleTails(s);
    ReplaceAtMatch(s, t);
    ReplaceAtMiss(s[8..], t);
    ReplaceAtMatch(s[9..], t);
    assert Replace("b", t) == "b";
  }

  lemma ExampleTails(s: string)
    requires s == "http://a http://ab"
    ensures OccursAt(s, "http://a", 0) && !OccursAt(s[8..], "http://a", 0) && OccursAt(s[9..], "http://a", 0)
    ensures s[8..][1..] == s[9..] && s[8] == ' ' && s[9..][8..] == "b"
  {
    assert s[9..][0..8] == "http://a";
    assert s[8..][0..8][0] != "http://a"[0];
  }

  /** `Replace` at an occurrence: it is deleted and the scan resumes after it. */
  lemma ReplaceAtMatch(s: string, target: string)
    requires target != [] && OccursAt(s, target, 0)
    ensures Replace(s, target) == Replace(s[|target|..], target)
  {
    assert s[..|target|] == s[0..|target|];
  }

  /** `Replace` where no occurrence starts: the character is kept and the scan moves one on. */
  lemma ReplaceAtMiss(s: string, target: string)
    requires target != [] && |s| >= |target| && !OccursAt(s, target, 0)
    ensures Replace(s, target) == [s[0]] + Replace(s[1..], target)
  {
    assert s[..|target|] == s[0..|target|];
  }

  lemma ExampleDelete(s: string)
    requires s == "http://a http://ab"
    ensures DeleteUrls(s, 0) == " "
  {
    ExampleMatches(s);
    assert DeleteUrls(s, 18) == [];
    assert DeleteUrls(s, 9) == [];
    assert DeleteUrls(s, 8) == " ";
  }

  /** Whatever the agent did, every source handed back is a URL, in both readings. */
  lemma RunAnalysisSources(run: AgentRun)
    ensures forall k :: 0 <= k < |RunAnalysis(run).sources| ==> IsUrl(RunAnalysis(run).sources[k])
    ensures forall k :: 0 <= k < |RunAnalysisIntended(run).sources| ==> IsUrl(RunAnalysisIntended(run).sources[k])
  {
  }

  /**
   * The fragment reaches the caller: on the output `http://a http://ab`,
   * `run_analysis` answers `b`, and the intended reading answers the empty text.
   */
  lemma RunAnalysisLeavesFragment(s: string)
    requires s == "http://a http://ab"
    ensures RunAnalysis(Output(s)) == Analysis("b", ["http://a", "http://ab"])
    ensures RunAnalysisIntended(Output(s)) == Analysis("", ["http://a", "http://ab"])
  {
    ReplaceLeavesFragment(s);
  }
}
