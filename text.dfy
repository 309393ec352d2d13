/**
 * The two string operations the coupon rules rely on: `String.trim()`
 * (strip every code point up to U+0020 from both ends) and
 * `replaceAll("[^a-zA-Z0-9]", "")` (keep only ASCII letters and digits).
 */
module Text {

  /** The characters `trim()` removes: every code point at or below U+0020. */
  predicate IsTrimmable(c: char) {
    c <= ' '
  }

  /** A letter or digit of the regex class `[a-zA-Z0-9]`. */
  predicate IsAsciiAlphanumeric(c: char) {
    ('a' <= c <= 'z') || ('A' <= c <= 'Z') || ('0' <= c <= '9')
  }

  predicate AllAlphanumeric(s: string) {
    forall i :: 0 <= i < |s| ==> IsAsciiAlphanumeric(s[i])
  }

  /** `t` occurs in `s` starting at position `i`. */
  predicate OccursAt(s: string, t: string, i: int) {
    0 <= i && i + |t| <= |s| && s[i..i + |t|] == t
  }

  /** `t` occurs in `s` as a contiguous piece, as `String.contains` tests. */
  predicate Contains(s: string, t: string) {
    exists i :: 0 <= i <= |s| && OccursAt(s, t, i)
  }

  /** A piece placed between two others occurs in the whole. */
  lemma OccursInMiddle(prefix: string, t: string, suffix: string)
    ensures Contains(prefix + t + suffix, t)
  {
    assert OccursAt(prefix + t + suffix, t, |prefix|);
  }

  /** `s` without its leading trimmable characters: a suffix of `s` that is empty or starts with a kept character. */
  function TrimLeading(s: string): (r: string)
    ensures |r| <= |s| && r == s[|s| - |r|..]
    ensures forall i :: 0 <= i < |s| - |r| ==> IsTrimmable(s[i])
    ensures r == [] || !IsTrimmable(r[0])
    decreases |s|
  {
    if |s| > 0 && IsTrimmable(s[0]) then TrimLeading(s[1..]) else s
  }

  /** `s` without its trailing trimmable characters: a prefix of `s` that is empty or ends with a kept character. */
  function TrimTrailing(s: string): (r: string)
    ensures |r| <= |s| && r == s[..|r|]
    ensures forall i :: |r| <= i < |s| ==> IsTrimmable(s[i])
    ensures r == [] || !IsTrimmable(r[|r| - 1])
    decreases |s|
  {
    if |s| > 0 && IsTrimmable(s[|s| - 1]) then TrimTrailing(s[..|s| - 1]) else s
  }

  /** Java's `String.trim()`. */
  function Trim(s: string): (r: string)
    ensures |r| <= |s|
    ensures r != [] ==> !IsTrimmable(r[0]) && !IsTrimmable(r[|r| - 1])
  {
    TrimTrailing(TrimLeading(s))
  }

  /** `trim()` removes exactly the leading and the trailing run of trimmable characters: what it returns is the piece of `s` between them. */
  lemma TrimKeepsTheMiddle(s: string)
    ensures exists i, j ::
      && 0 <= i <= j <= |s| && Trim(s) == s[i..j]
      && (forall k :: 0 <= k < i ==> IsTrimmable(s[k]))
      && (forall k :: j <= k < |s| ==> IsTrimmable(s[k]))
  {
    var lead := TrimLeading(s);
    var r := TrimTrailing(lead);
    PrefixOfSuffix(s, lead, r);
    var i := |s| - |lead|;
    assert 0 <= i <= i + |r| <= |s| && Trim(s) == s[i..i + |r|];
  }

  /**
   * A prefix `r` of a suffix `lead` of `s` is the piece of `s` that starts
   * where `lead` starts, and what follows it in `lead` follows it in `s`.
   */
  lemma PrefixOfSuffix(s: string, lead: string, r: string)
    requires |lead| <= |s| && lead == s[|s| - |lead|..]
    requires |r| <= |lead| && r == lead[..|r|]
    ensures var i := |s| - |lead|; r == s[i..i + |r|]
    ensures forall k :: |s| - |lead| + |r| <= k < |s| ==> s[k] == lead[k - (|s| - |lead|)]
  {
  }

  /** Every character of `s` is one `trim()` removes. */
  predicate IsBlank(s: string) {
    forall i :: 0 <= i < |s| ==> IsTrimmable(s[i])
  }

  /** `s.trim().isEmpty()` holds exactly when `s` is blank. */
  lemma TrimIsEmptyIffBlank(s: string)
    ensures Trim(s) == [] <==> IsBlank(s)
  {
    var lead := TrimLeading(s);
    if Trim(s) != [] {
      var r := Trim(s);
      assert r[0] == lead[0] == s[|s| - |lead|];
    }
  }

  /** `replaceAll("[^a-zA-Z0-9]", "")`: the ASCII letters and digits of `s`, left to right. */
  function StripNonAlphanumeric(s: string): (r: string)
    ensures |r| <= |s|
    ensures AllAlphanumeric(r)
    decreases |s|
  {
    if s == [] then []
    else (if IsAsciiAlphanumeric(s[0]) then [s[0]] else []) + StripNonAlphanumeric(s[1..])
  }

  /** Stripping a string with one more character in front. */
  lemma StripCons(c: char, s: string)
    ensures StripNonAlphanumeric([c] + s) == (if IsAsciiAlphanumeric(c) then [c] else []) + StripNonAlphanumeric(s)
  {
    assert ([c] + s)[1..] == s;
  }

  /** Stripping works character by character, so it keeps the original order: it distributes over concatenation. */
  lemma {:induction false} StripDistributes(a: string, b: string)
    ensures StripNonAlphanumeric(a + b) == StripNonAlphanumeric(a) + StripNonAlphanumeric(b)
    decreases |a|
  {
    if a == [] {
      assert a + b == b;
    } else {
      assert (a + b)[0] == a[0];
      assert (a + b)[1..] == a[1..] + b;
      StripDistributes(a[1..], b);
      assert StripNonAlphanumeric(a + b)
        == (if IsAsciiAlphanumeric(a[0]) then [a[0]] else []) + StripNonAlphanumeric(a[1..] + b);
    }
  }

  /** Stripping keeps every occurrence of every letter and digit and drops every other character. */
  lemma {:induction false} StripKeepsExactlyAlphanumerics(s: string, c: char)
    ensures multiset(StripNonAlphanumeric(s))[c] == if IsAsciiAlphanumeric(c) then multiset(s)[c] else 0
    decreases |s|
  {
    if s != [] {
      StripKeepsExactlyAlphanumerics(s[1..], c);
      assert s == [s[0]] + s[1..];
      assert multiset(s) == multiset{s[0]} + multiset(s[1..]);
    }
  }

  /** A string of letters and digits only is left as it is. */
  lemma {:induction false} StripKeepsAlphanumericString(s: string)
    requires AllAlphanumeric(s)
    ensures StripNonAlphanumeric(s) == s
    decreases |s|
  {
    if s != [] {
      StripKeepsAlphanumericString(s[1..]);
    }
  }

  /** Stripping twice is stripping once. */
  lemma StripIsIdempotent(s: string)
    ensures StripNonAlphanumeric(StripNonAlphanumeric(s)) == StripNonAlphanumeric(s)
  {
    StripKeepsAlphanumericString(StripNonAlphanumeric(s));
  }

  /** Stripping leaves nothing exactly when `s` holds no letter or digit. */
  lemma {:induction false} StripEmptyIffNoAlphanumeric(s: string)
    ensures StripNonAlphanumeric(s) == [] <==> forall i :: 0 <= i < |s| ==> !IsAsciiAlphanumeric(s[i])
    decreases |s|
  {
    if s != [] {
      StripEmptyIffNoAlphanumeric(s[1..]);
      if !IsAsciiAlphanumeric(s[0]) {
        forall i | 0 < i < |s| ensures s[i] == s[1..][i - 1] { }
      }
    }
  }

  /** A blank string has no letter or digit, so it strips to the empty string. */
  lemma BlankStripsToEmpty(s: string)
    requires IsBlank(s)
    ensures StripNonAlphanumeric(s) == []
  {
    StripEmptyIffNoAlphanumeric(s);
  }
}
