/**
 * `re.findall(r'https?://\S+', s)` as an explicit left-to-right scanner, and
 * `re.sub(r'https?://\S+', '', s)`, the deletion of what it finds.
 *
 * The pattern is case-sensitive. At a position it matches when the text there
 * begins with `http://` or `https://` followed by one non-whitespace
 * character, and the greedy `\S+` then runs to the next whitespace character
 * or the end of the text. Whitespace is Python's table.
 */
module UrlScan {
  import opened Whitespace
  import opened Wrappers

  /** `https?://\S` matches at the start of `t`: the shortest text a match can be. */
  predicate UrlAt(t: string) {
    (|t| > 7 && t[..7] == "http://" && !IsWs(Python, t[7])) ||
    (|t| > 8 && t[..8] == "https://" && !IsWs(Python, t[8]))
  }

  /** The shape of every match: a scheme, at least one character after `://`, no whitespace. */
  predicate IsUrl(u: string) {
    UrlAt(u) && forall i :: 0 <= i < |u| ==> !IsWs(Python, u[i])
  }

  /** Length of the run of non-whitespace characters that `t` begins with. */
  function NonWsRun(t: string): (n: nat)
    ensures n <= |t|
    ensures forall i :: 0 <= i < n ==> !IsWs(Python, t[i])
    ensures n == |t| || IsWs(Python, t[n])
  {
    if t == [] || IsWs(Python, t[0]) then 0 else 1 + NonWsRun(t[1..])
  }

  /** The regular expression tried at position `p`: the end of the match, if any. */
  function MatchUrl(s: string, p: nat): (r: Option<nat>)
    requires p <= |s|
    ensures r.Some? <==> UrlAt(s[p..])
    ensures r.Some? ==> p < r.value <= |s| && IsUrl(s[p..r.value])
    ensures r.Some? ==> r.value == |s| || IsWs(Python, s[r.value])
  {
    if UrlAt(s[p..]) then
      var n := NonWsRun(s[p..]);
      LongEnough(s[p..]);
      assert s[p..p + n] == s[p..][..n];
      assert s[p..p + n][..7] == s[p..][..7];
      assert s[p..p + n][..8] == s[p..][..8];
      Some(p + n)
    else
      None
  }

  /** A match covers at least the 8 or 9 characters `UrlAt` looks at. */
  lemma LongEnough(t: string)
    requires UrlAt(t)
    ensures NonWsRun(t) > (if t[..7] == "http://" && !IsWs(Python, t[7]) then 7 else 8)
  {
    var k := if t[..7] == "http://" && !IsWs(Python, t[7]) then 7 else 8;
    assert forall i :: 0 <= i < k ==> t[i] == t[..k + 1][i];
    NonWsPrefix(t, k + 1);
  }

  /** A prefix free of whitespace lies within the leading run. */
  lemma {:induction false} NonWsPrefix(t: string, k: nat)
    requires k <= |t|
    requires forall i :: 0 <= i < k ==> !IsWs(Python, t[i])
    ensures NonWsRun(t) >= k
  {
    if k > 0 {
      NonWsPrefix(t[1..], k - 1);
    }
  }

  /**
   * The matches `re.findall` makes from position `p` on, as (start, end)
   * pairs, left to right: each is a match, runs to whitespace or the end,
   * and starts where the previous one ended or later.
   */
  function UrlSpans(s: string, p: nat): (r: seq<(nat, nat)>)
    requires p <= |s|
    ensures forall k :: 0 <= k < |r| ==> p <= r[k].0 <= |s| && MatchUrl(s, r[k].0) == Some(r[k].1)
    ensures forall k, l :: 0 <= k < l < |r| ==> r[k].1 <= r[l].0
    decreases |s| - p
  {
    if p == |s| then []
    else match MatchUrl(s, p)
      case Some(e) => [(p, e)] + UrlSpans(s, e)
      case None => UrlSpans(s, p + 1)
  }

  /** The strings `re.findall` returns: the matched text of each span, in order. */
  function FindUrls(s: string): (r: seq<string>)
    ensures forall k :: 0 <= k < |r| ==> IsUrl(r[k])
    ensures |r| == |UrlSpans(s, 0)|
    ensures forall k :: 0 <= k < |r| ==> r[k] == s[UrlSpans(s, 0)[k].0..UrlSpans(s, 0)[k].1]
  {
    var sp := UrlSpans(s, 0);
    seq(|sp|, k requires 0 <= k < |sp| => s[sp[k].0..sp[k].1])
  }

  /** No position of `t` starts a match. */
  predicate NoUrl(t: string) {
    forall q :: 0 <= q < |t| ==> !UrlAt(t[q..])
  }

  /** The scan misses nothing: every position where a match could start lies inside a found span. */
  lemma {:induction false} SpansComplete(s: string, p: nat, q: nat)
    requires p <= q < |s| && UrlAt(s[q..])
    ensures exists k :: 0 <= k < |UrlSpans(s, p)| && UrlSpans(s, p)[k].0 <= q < UrlSpans(s, p)[k].1
    decreases |s| - p
  {
    var r := UrlSpans(s, p);
    match MatchUrl(s, p)
    case Some(e) =>
      if q < e {
        assert r[0] == (p, e);
      } else {
        SpansComplete(s, e, q);
        var k :| 0 <= k < |UrlSpans(s, e)| && UrlSpans(s, e)[k].0 <= q < UrlSpans(s, e)[k].1;
        assert r[k + 1] == UrlSpans(s, e)[k];
      }
    case None =>
      if q == p {
        assert false;
      } else {
        SpansComplete(s, p + 1, q);
      }
  }

  /** `re.findall` returns nothing exactly when no position of the text starts a match. */
  lemma NoneFoundIffNoUrl(s: string)
    ensures FindUrls(s) == [] <==> NoUrl(s)
  {
    if FindUrls(s) == [] {
      forall q | 0 <= q < |s| ensures !UrlAt(s[q..]) {
        if UrlAt(s[q..]) { SpansComplete(s, 0, q); }
      }
    } else {
      var st := UrlSpans(s, 0)[0].0;
      assert MatchUrl(s, st).Some?;
      assert st < |s|;
    }
  }

  /** A match at the start of `x` is a match at the start of any text `x` begins. */
  lemma UrlAtExtends(x: string, y: string)
    requires UrlAt(x) && |x| <= |y| && y[..|x|] == x
    ensures UrlAt(y)
  {
    assert x[..7] == y[..7];
    if |x| > 8 { assert x[..8] == y[..8]; }
  }

  /** Stripping cannot create a match: what it keeps is a slice. */
  lemma StripKeepsNoUrl(s: string)
    requires NoUrl(s)
    ensures NoUrl(Strip(Python, s))
  {
    var i, j := StripIsSlice(Python, s);
    var t := Strip(Python, s);
    forall q | 0 <= q < |t| ensures !UrlAt(t[q..]) {
      if UrlAt(t[q..]) {
        assert t[q..] == s[i + q..][..|t| - q];
        UrlAtExtends(t[q..], s[i + q..]);
      }
    }
  }

  /** Total number of characters the spans cover. */
  function Covered(sp: seq<(nat, nat)>): int {
    if sp == [] then 0 else sp[0].1 - sp[0].0 + Covered(sp[1..])
  }

  /**
   * `re.sub(r'https?://\S+', '', s[p..])`: the text from `p` on with every
   * span of `UrlSpans(s, p)` deleted; nothing else is deleted.
   */
  function DeleteUrls(s: string, p: nat): (r: string)
    requires p <= |s|
    ensures |r| == |s| - p - Covered(UrlSpans(s, p))
    decreases |s| - p
  {
    if p == |s| then []
    else match MatchUrl(s, p)
      case Some(e) => DeleteUrls(s, e)
      case None => [s[p]] + DeleteUrls(s, p + 1)
  }

  /** `t` begins with its own leading non-whitespace run, and so does `u`. */
  predicate LeadsInto(t: string, u: string) {
    NonWsRun(t) <= |u| && t[..NonWsRun(t)] == u[..NonWsRun(t)]
  }

  /** Whether a match starts at the front depends only on the leading non-whitespace run. */
  lemma UrlAtLeads(t: string, u: string)
    requires UrlAt(t) && LeadsInto(t, u)
    ensures UrlAt(u)
  {
    LongEnough(t);
    var n := NonWsRun(t);
    assert t[..7] == t[..n][..7] == u[..n][..7] == u[..7];
    assert t[7] == t[..n][7] == u[7];
    if n > 8 {
      assert t[..8] == t[..n][..8] == u[..n][..8] == u[..8];
      assert t[8] == t[..n][8] == u[8];
    }
  }

  /**
   * Deleting the matches leaves no match behind: a match in the result would
   * have been a match the scan skipped. Besides, the result begins as the
   * scanned text does, up to the first whitespace.
   */
  lemma {:induction false} DeleteUrlsLeavesNoUrl(s: string, p: nat)
    requires p <= |s|
    ensures NoUrl(DeleteUrls(s, p)) && LeadsInto(DeleteUrls(s, p), s[p..])
    decreases |s| - p
  {
    if p < |s| {
      match MatchUrl(s, p)
      case Some(e) =>
        DeleteUrlsLeavesNoUrl(s, e);
        StartsAtWhitespace(s, e);
      case None =>
        DeleteUrlsLeavesNoUrl(s, p + 1);
        assert s[p..][1..] == s[p + 1..];
        KeptCharacter(s[p], DeleteUrls(s, p + 1), s[p..]);
    }
  }

  /** One step of the deletion: a character where no match starts is kept in front of the rest. */
  lemma KeptCharacter(c: char, rest: string, u: string)
    requires |u| > 0 && u[0] == c && !UrlAt(u)
    requires NoUrl(rest) && LeadsInto(rest, u[1..])
    ensures NoUrl([c] + rest) && LeadsInto([c] + rest, u)
  {
    var r := [c] + rest;
    assert r[1..] == rest;
    if !IsWs(Python, c) {
      var n := NonWsRun(r);
      assert n == 1 + NonWsRun(rest);
      assert r[..n] == [c] + rest[..n - 1];
      assert u[..n] == [c] + u[1..][..n - 1];
    }
    forall q | 0 <= q < |r| ensures !UrlAt(r[q..]) {
      if q == 0 {
        if UrlAt(r) { UrlAtLeads(r, u); }
      } else {
        assert r[q..] == rest[q - 1..];
      }
    }
  }

  /** Deleting from a whitespace position (or the end) gives a text without a leading run. */
  lemma StartsAtWhitespace(s: string, e: nat)
    requires e <= |s| && (e == |s| || IsWs(Python, s[e]))
    ensures NonWsRun(DeleteUrls(s, e)) == 0
  {
    if e < |s| {
      UrlStartsWithH(s[e..]);
      assert s[e..][0] == s[e];
      assert !IsWs(Python, 'h');
      assert MatchUrl(s, e) == None;
    }
  }

  lemma UrlStartsWithH(t: string)
    ensures UrlAt(t) ==> t[0] == 'h'
  {
    if UrlAt(t) {
      if t[..7] == "http://" { assert t[0] == t[..7][0]; } else { assert t[0] == t[..8][0]; }
    }
  }

  /** The leading run is exactly `n` long when the first `n` characters hold no whitespace and the next one is whitespace or missing. */
  lemma RunLength(t: string, n: nat)
    requires n <= |t| && (n == |t| || IsWs(Python, t[n]))
    requires forall i :: 0 <= i < n ==> !IsWs(Python, t[i])
    ensures NonWsRun(t) == n
  {
    NonWsPrefix(t, n);
  }

  /** One step of the scan, at a position where a match starts. */
  lemma SpansAtMatch(s: string, p: nat, e: nat)
    requires p <= |s| && MatchUrl(s, p) == Some(e)
    ensures UrlSpans(s, p) == [(p, e)] + UrlSpans(s, e)
  {
  }

  /** One step of the scan, at a position where no match starts. */
  lemma SpansPastNoMatch(s: string, p: nat)
    requires p < |s| && MatchUrl(s, p) == None
    ensures UrlSpans(s, p) == UrlSpans(s, p + 1)
  {
  }
}
