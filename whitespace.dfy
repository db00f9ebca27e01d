/**
 * Whitespace as the two languages of the system see it, and stripping.
 *
 * The backend uses Python: `str.strip()` and the `\s` / `\S` classes of `re`
 * on `str` patterns agree on one table (the characters for which
 * `str.isspace()` holds). The front end uses JavaScript's
 * `String.prototype.trim`, whose table (WhiteSpace and LineTerminator) is a
 * different one.
 */
module Whitespace {

  datatype Flavor = Python | JavaScript

  /** The whitespace table of each language, by code point. */
  predicate IsWs(f: Flavor, c: char) {
    var n := c as int;
    match f
    case Python =>
      (0x09 <= n <= 0x0D) || (0x1C <= n <= 0x20) || n == 0x85 || n == 0xA0 || n == 0x1680 ||
      (0x2000 <= n <= 0x200A) || n == 0x2028 || n == 0x2029 || n == 0x202F || n == 0x205F || n == 0x3000
    case JavaScript =>
      (0x09 <= n <= 0x0D) || n == 0x20 || n == 0xA0 || n == 0x1680 ||
      (0x2000 <= n <= 0x200A) || n == 0x2028 || n == 0x2029 || n == 0x202F || n == 0x205F || n == 0x3000 ||
      n == 0xFEFF
  }

  predicate AllWs(f: Flavor, s: string) {
    forall i :: 0 <= i < |s| ==> IsWs(f, s[i])
  }

  /** Neither the first nor the last character is whitespace. */
  predicate NoEdgeWs(f: Flavor, s: string) {
    s == [] || (!IsWs(f, s[0]) && !IsWs(f, s[|s| - 1]))
  }

  /** The first position at or after `i` that does not hold whitespace (`|s|` if none). */
  function SkipWs(f: Flavor, s: string, i: nat): (r: nat)
    requires i <= |s|
    ensures i <= r <= |s|
    ensures AllWs(f, s[i..r])
    ensures r == |s| || !IsWs(f, s[r])
    decreases |s| - i
  {
    if i == |s| || !IsWs(f, s[i]) then i else SkipWs(f, s, i + 1)
  }

  /** The last position at or before `j`, and not before `lo`, that follows no whitespace. */
  function SkipWsBack(f: Flavor, s: string, lo: nat, j: nat): (r: nat)
    requires lo <= j <= |s|
    ensures lo <= r <= j
    ensures AllWs(f, s[r..j])
    ensures r == lo || !IsWs(f, s[r - 1])
    decreases j
  {
    if j == lo || !IsWs(f, s[j - 1]) then j
    else
      var r := SkipWsBack(f, s, lo, j - 1);
      assert s[r..j] == s[r..j - 1] + [s[j - 1]];
      r
  }

  /** `s.strip()` in Python, `s.trim()` in JavaScript. */
  function Strip(f: Flavor, s: string): (r: string)
    ensures NoEdgeWs(f, r)
    ensures |r| <= |s|
    ensures r == [] <==> AllWs(f, s)
  {
    var i := SkipWs(f, s, 0);
    var j := SkipWsBack(f, s, i, |s|);
    assert AllWs(f, s) ==> i == |s| by {
      if i < |s| { assert !IsWs(f, s[i]); }
    }
    assert i == j ==> AllWs(f, s) by {
      if i == j {
        assert s == s[0..i] + s[j..|s|];
        AllWsAppend(f, s[0..i], s[j..|s|]);
      }
    }
    s[i..j]
  }

  /**
   * Stripping is determined by what it keeps: whenever `s` is a run of
   * whitespace, then `m`, then a run of whitespace, with `m` free of
   * whitespace at both ends, `Strip` returns `m`.
   */
  lemma StripExact(f: Flavor, a: string, m: string, b: string)
    requires AllWs(f, a) && AllWs(f, b) && NoEdgeWs(f, m)
    ensures Strip(f, a + m + b) == m
  {
    var s := a + m + b;
    if m == [] {
      assert s == a + b;
      assert AllWs(f, s);
    } else {
      var i := SkipWs(f, s, 0);
      assert s[|a|] == m[0];
      assert i == |a|;
      var j := SkipWsBack(f, s, i, |s|);
      assert s[|a| + |m| - 1] == m[|m| - 1];
      assert j == |a| + |m|;
      assert s[i..j] == m;
    }
  }

  /** Stripping twice is stripping once. */
  lemma StripIdempotent(f: Flavor, s: string)
    ensures Strip(f, Strip(f, s)) == Strip(f, s)
  {
    var m := Strip(f, s);
    assert [] + m + [] == m;
    StripExact(f, [], m, []);
  }

  /** Appending whitespace does not change what stripping keeps. */
  lemma StripIgnoresTrailingWs(f: Flavor, s: string, w: string)
    requires AllWs(f, w)
    ensures Strip(f, s + w) == Strip(f, s)
  {
    var a, b := StripSplits(f, s);
    var m := Strip(f, s);
    AllWsAppend(f, b, w);
    assert s + w == a + m + (b + w);
    StripExact(f, a, m, b + w);
  }

  /** Stripping removes a run of whitespace at each end and nothing else. */
  lemma StripSplits(f: Flavor, s: string) returns (a: string, b: string)
    ensures AllWs(f, a) && AllWs(f, b) && s == a + Strip(f, s) + b
  {
    var i := SkipWs(f, s, 0);
    var j := SkipWsBack(f, s, i, |s|);
    a, b := s[0..i], s[j..|s|];
    assert s == a + s[i..j] + b;
  }

  lemma AllWsAppend(f: Flavor, b: string, w: string)
    requires AllWs(f, b) && AllWs(f, w)
    ensures AllWs(f, b + w)
  {
    var bw := b + w;
    forall k | 0 <= k < |bw| ensures IsWs(f, bw[k]) {
      if k < |b| { assert bw[k] == b[k]; } else { assert bw[k] == w[k - |b|]; }
    }
  }

  /** What stripping keeps is a contiguous piece of the input. */
  lemma StripIsSlice(f: Flavor, s: string) returns (i: nat, j: nat)
    ensures i <= j <= |s| && Strip(f, s) == s[i..j]
  {
    i := SkipWs(f, s, 0);
    j := SkipWsBack(f, s, i, |s|);
  }
}
