/**
 * The string operations of Python's `str` that the clause pipeline relies on:
 * `strip()`, `lower()`, `split(sep)`, `sep.join(parts)`, substring search and
 * `str(int)`. Strings are sequences of Unicode scalar values, as Python's are
 * sequences of code points.
 */
module Text {
  import opened Wrappers

  // ---------------------------------------------------------------- whitespace

  /** The characters for which Python's `str.isspace()` holds, i.e. the set `str.strip()` removes. */
  predicate IsSpace(c: char) {
    || c == ' '
    || ('\t' <= c <= '\r')                 // \t \n \v \f \r
    || ('\U{1C}' <= c <= '\U{1F}')         // file, group, record and unit separators
    || c == '\U{85}' || c == '\U{A0}' || c == '\U{1680}'
    || ('\U{2000}' <= c <= '\U{200A}')
    || c == '\U{2028}' || c == '\U{2029}' || c == '\U{202F}' || c == '\U{205F}' || c == '\U{3000}'
  }

  /** A string with no whitespace at either end, as every result of `strip()` is. */
  predicate IsTrimmed(s: string) {
    s == [] || (!IsSpace(s[0]) && !IsSpace(s[|s| - 1]))
  }

  /** The length of the whitespace run at the start of `s`. */
  function LeadingSpaces(s: string): (n: nat)
    ensures n <= |s|
  {
    if s != [] && IsSpace(s[0]) then 1 + LeadingSpaces(s[1..]) else 0
  }

  /** The length of the whitespace run at the end of `s`. */
  function TrailingSpaces(s: string): (n: nat)
    ensures n <= |s|
  {
    if s != [] && IsSpace(s[|s| - 1]) then 1 + TrailingSpaces(s[..|s| - 1]) else 0
  }

  /** The leading run is whitespace, and the character after it is not. */
  lemma {:induction false} LeadingSpacesSpec(s: string)
    ensures var n := LeadingSpaces(s);
      (forall k :: 0 <= k < n ==> IsSpace(s[k])) && (n < |s| ==> !IsSpace(s[n]))
  {
    if s != [] && IsSpace(s[0]) {
      LeadingSpacesSpec(s[1..]);
      assert forall k :: 1 <= k < LeadingSpaces(s) ==> s[k] == s[1..][k - 1];
    }
  }

  /** The trailing run is whitespace, and the character before it is not. */
  lemma {:induction false} TrailingSpacesSpec(s: string)
    ensures var n := TrailingSpaces(s);
      (forall k :: |s| - n <= k < |s| ==> IsSpace(s[k])) && (n < |s| ==> !IsSpace(s[|s| - n - 1]))
  {
    if s != [] && IsSpace(s[|s| - 1]) {
      var p := s[..|s| - 1];
      TrailingSpacesSpec(p);
      assert forall k :: 0 <= k < |p| ==> p[k] == s[k];
    }
  }

  /** `strip()`: cuts off the whitespace run at each end. */
  function Strip(s: string): string {
    var t := s[LeadingSpaces(s)..];
    t[..|t| - TrailingSpaces(t)]
  }

  /** `strip()` keeps a contiguous slice of `s`, starting after the leading whitespace. */
  lemma StripSlice(s: string)
    ensures var r, i := Strip(s), LeadingSpaces(s);
      i + |r| <= |s| && r == s[i..i + |r|]
  {
    var i := LeadingSpaces(s);
    var t := s[i..];
    assert Strip(s) == t[..|t| - TrailingSpaces(t)] == s[i..i + |t| - TrailingSpaces(t)];
  }

  /** The result of `strip()` has no whitespace at either end. */
  lemma StripTrimmed(s: string)
    ensures IsTrimmed(Strip(s))
  {
    var i := LeadingSpaces(s);
    var t := s[i..];
    var m := |t| - TrailingSpaces(t);
    var r := Strip(s);
    LeadingSpacesSpec(s);
    TrailingSpacesSpec(t);
    if r != [] {
      assert r[0] == t[0] == s[i];
      assert r[m - 1] == t[m - 1];
    }
  }

  /** Everything `strip()` cuts off is whitespace. */
  lemma StripRemovesSpace(s: string)
    ensures var r, i := Strip(s), LeadingSpaces(s);
      && (forall k :: 0 <= k < i ==> IsSpace(s[k]))
      && (forall k :: i + |r| <= k < |s| ==> IsSpace(s[k]))
  {
    var i := LeadingSpaces(s);
    var t := s[i..];
    var m := |t| - TrailingSpaces(t);
    LeadingSpacesSpec(s);
    TrailingSpacesSpec(t);
    assert |Strip(s)| == m;
    forall k | i + m <= k < |s| ensures IsSpace(s[k]) {
      assert s[k] == t[k - i];
    }
  }

  /**
   * What `strip()` removes is whitespace at the two ends and nothing else: the
   * result is the slice of `s` between its leading and its trailing whitespace
   * run, and it has no whitespace at either end.
   */
  lemma StripIsSlice(s: string)
    ensures var r, i := Strip(s), LeadingSpaces(s);
      && IsTrimmed(r)
      && i + |r| <= |s| && r == s[i..i + |r|]
      && (forall k :: 0 <= k < i ==> IsSpace(s[k]))
      && (forall k :: i + |r| <= k < |s| ==> IsSpace(s[k]))
  {
    StripSlice(s);
    StripTrimmed(s);
    StripRemovesSpace(s);
  }

  /** A trimmed string is its own `strip()`; in particular `strip()` is idempotent. */
  lemma StripOfTrimmed(s: string)
    requires IsTrimmed(s)
    ensures Strip(s) == s
  {
    if s != [] {
      assert s[|s| - 1..] == [s[|s| - 1]];
    }
  }

  // ---------------------------------------------------------------- case

  /** `lower()` on one character; only the ASCII capitals are mapped. */
  function LowerChar(c: char): (r: char)
    ensures 'A' <= c <= 'Z' ==> 'a' <= r <= 'z' && r as int - c as int == 32
    ensures !('A' <= c <= 'Z') ==> r == c
  {
    if 'A' <= c <= 'Z' then (c as int + 32) as char else c
  }

  /** `lower()`, character by character. */
  function Lower(s: string): (r: string)
    ensures |r| == |s|
  {
    seq(|s|, i requires 0 <= i < |s| => LowerChar(s[i]))
  }

  // ---------------------------------------------------------------- search

  /** `pat` occurs in `s` starting at index `k`. */
  predicate OccursAt(s: string, pat: string, k: int) {
    0 <= k && k + |pat| <= |s| && s[k..k + |pat|] == pat
  }

  /** `pat in s` (substring containment). */
  ghost predicate Contains(s: string, pat: string) {
    exists k :: OccursAt(s, pat, k)
  }

  /** `s.find(pat, from)`: the first index at or after `from` where `pat` occurs. */
  function FindFrom(s: string, pat: string, from: nat): (r: Option<nat>)
    decreases |s| - from
    ensures r.Some? ==> from <= r.value && OccursAt(s, pat, r.value)
    ensures r.Some? ==> forall k :: from <= k < r.value ==> !OccursAt(s, pat, k)
    ensures r.None? ==> forall k :: from <= k ==> !OccursAt(s, pat, k)
  {
    if from + |pat| > |s| then None
    else if s[from..from + |pat|] == pat then Some(from)
    else FindFrom(s, pat, from + 1)
  }

  /** An occurrence inside a prefix of `s` is an occurrence in `s` that ends within that prefix. */
  lemma OccursInPrefix(s: string, n: nat, pat: string, k: int)
    requires n <= |s| && OccursAt(s[..n], pat, k)
    ensures OccursAt(s, pat, k) && k + |pat| <= n
  {
    assert s[..n][k..k + |pat|] == s[k..k + |pat|];
  }

  /** Containment is transitive. */
  lemma ContainsTransitive(a: string, b: string, c: string)
    requires Contains(b, a) && Contains(c, b)
    ensures Contains(c, a)
  {
    var i :| OccursAt(b, a, i);
    var j :| OccursAt(c, b, j);
    forall k | 0 <= k < |a| ensures c[j + i..j + i + |a|][k] == a[k] {
      assert c[j + i + k] == c[j..j + |b|][i + k];
      assert b[i + k] == b[i..i + |a|][k];
    }
    assert OccursAt(c, a, j + i);
  }

  /** Every string contains its `strip()`. */
  lemma StripContained(s: string)
    ensures Contains(s, Strip(s))
  {
    StripIsSlice(s);
    assert OccursAt(s, Strip(s), LeadingSpaces(s));
  }

  /** The `strip()` of a substring is never longer than the `strip()` of the whole string. */
  lemma StripOfSubstringNoLonger(t: string, x: string)
    requires Contains(t, x)
    ensures |Strip(x)| <= |Strip(t)|
  {
    var y := Strip(x);
    StripContained(x);
    ContainsTransitive(y, x, t);
    StripTrimmed(x);
    var p :| OccursAt(t, y, p);
    TrimmedWithinStrip(t, y, p);
  }

  /** A trimmed piece of `t` is no longer than the `strip()` of `t`. */
  lemma TrimmedWithinStrip(t: string, y: string, p: nat)
    requires OccursAt(t, y, p) && IsTrimmed(y)
    ensures |y| <= |Strip(t)|
  {
    if y != [] {
      var q := p + |y| - 1;
      assert !IsSpace(t[p]) && !IsSpace(t[q]) by {
        assert t[p..p + |y|][0] == t[p] && t[p..p + |y|][|y| - 1] == t[q];
      }
      var lead, len := LeadingSpaces(t), |Strip(t)|;
      assert lead + len <= |t| && (forall i :: 0 <= i < lead ==> IsSpace(t[i]))
        && (forall i :: lead + len <= i < |t| ==> IsSpace(t[i])) by {
        StripIsSlice(t);
      }
      NonSpaceWithinStrip(t, lead, len, p, q);
    }
  }

  /** Two non-whitespace positions lie inside the part between the leading and the trailing whitespace. */
  lemma NonSpaceWithinStrip(t: string, lead: nat, len: nat, p: nat, q: nat)
    requires lead + len <= |t| && p <= q < |t|
    requires forall i :: 0 <= i < lead ==> IsSpace(t[i])
    requires forall i :: lead + len <= i < |t| ==> IsSpace(t[i])
    requires !IsSpace(t[p]) && !IsSpace(t[q])
    ensures q - p + 1 <= len
  {
  }

  // ---------------------------------------------------------------- split and join

  /** `sep.join(parts)`. */
  function JoinWith(parts: seq<string>, sep: string): string {
    if |parts| == 0 then []
    else if |parts| == 1 then parts[0]
    else parts[0] + sep + JoinWith(parts[1..], sep)
  }

  /** `"".join(parts)`. */
  function Concat(parts: seq<string>): string {
    if parts == [] then [] else parts[0] + Concat(parts[1..])
  }

  /**
   * `s.split(sep)` for a non-empty separator: the cuts are made at the
   * non-overlapping occurrences found scanning left to right. Joining the
   * parts back with `sep` gives `s`, and no part contains `sep`.
   */
  function Split(s: string, sep: string): (parts: seq<string>)
    requires |sep| > 0
    decreases |s|
    ensures |parts| >= 1
    ensures JoinWith(parts, sep) == s
    ensures forall k :: 0 <= k < |parts| ==> !Contains(parts[k], sep)
    ensures forall k :: 0 <= k < |parts| - 1 ==> !Contains(parts[k] + sep[..|sep| - 1], sep)
  {
    match FindFrom(s, sep, 0)
    case None => [s]
    case Some(i) =>
      var head := s[..i];
      var rest := Split(s[i + |sep|..], sep);
      assert s == head + sep + s[i + |sep|..] by {
        assert s[i..i + |sep|] == sep;
        assert s == s[..i] + s[i..i + |sep|] + s[i + |sep|..];
      }
      forall k | OccursAt(head, sep, k) ensures false {
        OccursInPrefix(s, i, sep, k);
      }
      FirstCutLeftmost(s, sep, i);
      CutsCons(head, rest, sep);
      [head] + rest
  }

  /** A leftmost, separator-free first part in front of parts cut that way gives parts cut that way. */
  lemma CutsCons(head: string, rest: seq<string>, sep: string)
    requires |sep| > 0 && |rest| >= 1
    requires !Contains(head, sep) && !Contains(head + sep[..|sep| - 1], sep)
    requires forall k :: 0 <= k < |rest| ==> !Contains(rest[k], sep)
    requires forall k :: 0 <= k < |rest| - 1 ==> !Contains(rest[k] + sep[..|sep| - 1], sep)
    ensures var parts := [head] + rest;
      && (forall k :: 0 <= k < |parts| ==> !Contains(parts[k], sep))
      && (forall k :: 0 <= k < |parts| - 1 ==> !Contains(parts[k] + sep[..|sep| - 1], sep))
  {
    var parts := [head] + rest;
    assert forall k :: 1 <= k < |parts| ==> parts[k] == rest[k - 1];
  }

  /**
   * The cut at the first occurrence is leftmost: the text before it, followed
   * by all but the last character of `sep`, holds no occurrence of `sep`.
   */
  lemma FirstCutLeftmost(s: string, sep: string, i: nat)
    requires |sep| > 0 && FindFrom(s, sep, 0) == Some(i)
    ensures !Contains(s[..i] + sep[..|sep| - 1], sep)
  {
    var n := i + |sep| - 1;
    var p := s[..i] + sep[..|sep| - 1];
    assert p == s[..n] by {
      assert |p| == n;
      forall k | 0 <= k < n ensures p[k] == s[k] {
        if k >= i {
          assert p[k] == sep[k - i] == s[i..i + |sep|][k - i];
        }
      }
    }
    forall k | OccursAt(p, sep, k) ensures false {
      OccursInPrefix(s, n, sep, k);
    }
  }

  /** Each part of a join with separators occurs in the joined string. */
  lemma {:induction false} JoinWithContainsParts(parts: seq<string>, sep: string, k: nat)
    requires k < |parts|
    ensures Contains(JoinWith(parts, sep), parts[k])
  {
    var j := JoinWith(parts, sep);
    if |parts| == 1 {
      assert OccursAt(j, parts[0], 0);
    } else if k == 0 {
      assert j[..|parts[0]|] == parts[0];
      assert OccursAt(j, parts[0], 0);
    } else {
      var tail := JoinWith(parts[1..], sep);
      JoinWithContainsParts(parts[1..], sep, k - 1);
      var i :| OccursAt(tail, parts[k], i);
      var off := |parts[0]| + |sep|;
      assert j[off + i..off + i + |parts[k]|] == tail[i..i + |parts[k]|];
      assert OccursAt(j, parts[k], off + i);
    }
  }

  /** Each part of a concatenation occurs in the concatenated string. */
  lemma {:induction false} ConcatContainsParts(parts: seq<string>, k: nat)
    requires k < |parts|
    ensures Contains(Concat(parts), parts[k])
  {
    var j := Concat(parts);
    if k == 0 {
      assert j[..|parts[0]|] == parts[0];
      assert OccursAt(j, parts[0], 0);
    } else {
      var tail := Concat(parts[1..]);
      ConcatContainsParts(parts[1..], k - 1);
      var i :| OccursAt(tail, parts[k], i);
      var off := |parts[0]|;
      assert j[off + i..off + i + |parts[k]|] == tail[i..i + |parts[k]|];
      assert OccursAt(j, parts[k], off + i);
    }
  }

  // ---------------------------------------------------------------- integers

  /** An ASCII decimal digit; Python's `\d` also admits other Unicode digits, which are not modelled. */
  predicate IsDigit(c: char) {
    '0' <= c <= '9'
  }

  function DigitChar(d: nat): (c: char)
    requires d < 10
    ensures IsDigit(c) && c as int - '0' as int == d
  {
    ('0' as int + d) as char
  }

  /** `str(n)` for a natural number: its decimal digits, most significant first, with no leading zero. */
  function NatToString(n: nat): (s: string)
    ensures |s| >= 1 && forall k :: 0 <= k < |s| ==> IsDigit(s[k])
    ensures |s| > 1 ==> s[0] != '0'
  {
    if n < 10 then [DigitChar(n)] else NatToString(n / 10) + [DigitChar(n % 10)]
  }

  /** The number a string of decimal digits denotes. */
  function DigitsValue(s: string): nat
    requires forall k :: 0 <= k < |s| ==> IsDigit(s[k])
  {
    if s == [] then 0
    else
      assert IsDigit(s[|s| - 1]);
      DigitsValue(s[..|s| - 1]) * 10 + (s[|s| - 1] as int - '0' as int)
  }

  /** Reading back the digits of `str(n)` gives `n`. */
  lemma {:induction false} NatToStringRoundTrip(n: nat)
    ensures DigitsValue(NatToString(n)) == n
  {
    if n >= 10 {
      NatToStringRoundTrip(n / 10);
      var s := NatToString(n);
      assert s[..|s| - 1] == NatToString(n / 10);
    }
  }

  /** `str(n)` for any integer. */
  function IntToString(n: int): string {
    if n < 0 then "-" + NatToString(-n) else NatToString(n)
  }

  /** Distinct natural numbers have distinct decimal renderings. */
  lemma NatToStringInjective(a: nat, b: nat)
    requires NatToString(a) == NatToString(b)
    ensures a == b
  {
    NatToStringRoundTrip(a);
    NatToStringRoundTrip(b);
  }

  /** A rendering starts with '-' exactly for a negative number. */
  lemma IntToStringSign(n: int)
    ensures |IntToString(n)| >= 1
    ensures IntToString(n)[0] == '-' <==> n < 0
    ensures n < 0 ==> IntToString(n)[1..] == NatToString(-n)
  {
    if n >= 0 {
      assert IsDigit(NatToString(n)[0]);
    }
  }

  /** Distinct integers have distinct decimal renderings. */
  lemma IntToStringInjective(a: int, b: int)
    requires IntToString(a) == IntToString(b)
    ensures a == b
  {
    IntToStringSign(a);
    IntToStringSign(b);
    if a < 0 {
      NatToStringInjective(-a, -b);
    } else {
      NatToStringInjective(a, b);
    }
  }
}
