/**
 * String operations the discovery code relies on: decimal rendering and
 * parsing of version numbers, ASCII case folding (the `(?i)` regex flag),
 * prefix/suffix tests, and Python's `str.rsplit(sep, 1)[0]`,
 * `str.rstrip(chars)` and `str.replace(old, new, 1)`.
 */
module Text {
  import opened Basics

  predicate IsDigit(c: char) { '0' <= c <= '9' }

  /** Every character is an ASCII decimal digit (the empty string included). */
  predicate AllDigits(s: string) { forall i :: 0 <= i < |s| ==> IsDigit(s[i]) }

  /** What the regex `\d+` accepts. */
  predicate IsDigits(s: string) { |s| > 0 && AllDigits(s) }

  /** Python's `int(s)` on a string of decimal digits. */
  function NatOf(s: string): (n: nat)
    requires AllDigits(s)
  {
    if s == [] then 0 else NatOf(s[..|s| - 1]) * 10 + (s[|s| - 1] as int - '0' as int)
  }

  function Digit(d: nat): (c: char)
    requires d < 10
    ensures IsDigit(c)
  {
    ('0' as int + d) as char
  }

  /** Python's `"{0}".format(n)` for a non-negative integer. */
  function NatToString(n: nat): (s: string)
    ensures IsDigits(s)
    decreases n
  {
    if n < 10 then [Digit(n)] else NatToString(n / 10) + [Digit(n % 10)]
  }

  /** Rendering a number and reading it back gives the number. */
  lemma {:induction false} NatToStringRoundTrip(n: nat)
    ensures NatOf(NatToString(n)) == n
    decreases n
  {
    var s := NatToString(n);
    if n >= 10 {
      NatToStringRoundTrip(n / 10);
      assert s[..|s| - 1] == NatToString(n / 10);
    }
  }

  lemma NatToStringInjective(a: nat, b: nat)
    requires NatToString(a) == NatToString(b)
    ensures a == b
  {
    NatToStringRoundTrip(a);
    NatToStringRoundTrip(b);
  }

  /** The longest prefix made of digits. */
  function LeadingDigits(s: string): (d: string)
    ensures AllDigits(d) && |d| <= |s| && d == s[..|d|]
    ensures |d| < |s| ==> !IsDigit(s[|d|])
  {
    if s != [] && IsDigit(s[0]) then [s[0]] + LeadingDigits(s[1..]) else []
  }

  lemma {:induction false} LeadingDigitsOf(d: string, rest: string)
    requires AllDigits(d)
    requires rest == [] || !IsDigit(rest[0])
    ensures LeadingDigits(d + rest) == d
  {
    if d != [] {
      assert (d + rest)[1..] == d[1..] + rest;
      LeadingDigitsOf(d[1..], rest);
    } else {
      assert d + rest == rest;
    }
  }

  /** The catalog key `"{major}.{minor}"`. */
  function Key(major: nat, minor: nat): string
  {
    NatToString(major) + "." + NatToString(minor)
  }

  /** The major number at the head of a key (`float(key) < 8` compares only it). */
  function KeyMajor(k: string): nat
  {
    NatOf(LeadingDigits(k))
  }

  /** The digits after the first non-digit of a key. */
  function KeyMinor(k: string): nat
  {
    var d := LeadingDigits(k);
    if |d| < |k| then NatOf(LeadingDigits(k[|d| + 1..])) else 0
  }

  /** A key can be read back into the major and minor it was built from. */
  lemma KeyRoundTrip(major: nat, minor: nat)
    ensures KeyMajor(Key(major, minor)) == major
    ensures KeyMinor(Key(major, minor)) == minor
  {
    var a, b := NatToString(major), NatToString(minor);
    var k := Key(major, minor);
    assert k == a + ("." + b);
    LeadingDigitsOf(a, "." + b);
    NatToStringRoundTrip(major);
    assert k[|a| + 1..] == b + [];
    LeadingDigitsOf(b, []);
    NatToStringRoundTrip(minor);
  }

  /** Distinct (major, minor) pairs never share a key. */
  lemma KeyInjective(m1: nat, n1: nat, m2: nat, n2: nat)
    requires Key(m1, n1) == Key(m2, n2)
    ensures m1 == m2 && n1 == n2
  {
    KeyRoundTrip(m1, n1);
    KeyRoundTrip(m2, n2);
  }

  /** ASCII lower-casing, as the `(?i)` flag compares letters. */
  function Lower(c: char): char
  {
    if 'A' <= c <= 'Z' then (c as int + 32) as char else c
  }

  function Upper(c: char): char
  {
    if 'a' <= c <= 'z' then (c as int - 32) as char else c
  }

  /** Python's `str.upper()` restricted to ASCII letters. */
  function UpperText(s: string): (r: string)
    ensures |r| == |s|
  {
    seq(|s|, i requires 0 <= i < |s| => Upper(s[i]))
  }

  function LowerText(s: string): (r: string)
    ensures |r| == |s|
  {
    seq(|s|, i requires 0 <= i < |s| => Lower(s[i]))
  }

  /** Equality, or equality up to ASCII case when `caseless`. */
  predicate SameText(a: string, b: string, caseless: bool)
  {
    if caseless then LowerText(a) == LowerText(b) else a == b
  }

  predicate StartsWith(s: string, prefix: string)
  {
    |prefix| <= |s| && s[..|prefix|] == prefix
  }

  predicate EndsWith(s: string, suffix: string)
  {
    |suffix| <= |s| && s[|s| - |suffix|..] == suffix
  }

  /** `uri` with a "/" appended when it does not already end in one. */
  function WithSlash(uri: string): (r: string)
    ensures EndsWith(r, "/")
    ensures EndsWith(uri, "/") ==> r == uri
    ensures !EndsWith(uri, "/") ==> r == uri + "/"
  {
    if EndsWith(uri, "/") then uri else uri + "/"
  }

  predicate OccursAt(s: string, pat: string, i: nat)
  {
    i + |pat| <= |s| && s[i..i + |pat|] == pat
  }

  /** The last position at or below `hi` where `pat` occurs. */
  function FindLast(s: string, pat: string, hi: int): (r: Option<nat>)
    ensures r.Some? ==> r.value <= hi && OccursAt(s, pat, r.value)
    ensures r.Some? ==> forall j :: r.value < j <= hi ==> !OccursAt(s, pat, j)
    ensures r.None? ==> forall j :: 0 <= j <= hi ==> !OccursAt(s, pat, j)
    decreases hi + 1
  {
    if hi < 0 then None
    else if OccursAt(s, pat, hi) then Some(hi)
    else FindLast(s, pat, hi - 1)
  }

  /** The first position at or above `lo` where `pat` occurs. */
  function FindFirst(s: string, pat: string, lo: nat): (r: Option<nat>)
    ensures r.Some? ==> lo <= r.value && OccursAt(s, pat, r.value)
    ensures r.Some? ==> forall j :: lo <= j < r.value ==> !OccursAt(s, pat, j)
    ensures r.None? ==> forall j :: lo <= j ==> !OccursAt(s, pat, j)
    decreases |s| - lo
  {
    if lo + |pat| > |s| then None
    else if OccursAt(s, pat, lo) then Some(lo)
    else FindFirst(s, pat, lo + 1)
  }

  /**
   * Python's `s.rsplit(sep, 1)[0]`: everything before the LAST occurrence
   * of `sep`, or all of `s` when `sep` does not occur.
   */
  function RSplitHead(s: string, sep: string): (r: string)
    requires |sep| > 0
    ensures |r| <= |s| && r == s[..|r|]
    ensures r == s <==> forall j :: 0 <= j <= |s| - |sep| ==> !OccursAt(s, sep, j)
    ensures r != s ==> OccursAt(s, sep, |r|)
                       && forall j :: |r| < j <= |s| - |sep| ==> !OccursAt(s, sep, j)
  {
    match FindLast(s, sep, |s| - |sep|)
    case None => s
    case Some(i) => s[..i]
  }

  /** Cutting a suffix that was appended recovers the original string. */
  lemma RSplitHeadOfSuffixed(root: string, sep: string)
    requires |sep| > 0
    ensures RSplitHead(root + sep, sep) == root
  {
    var s := root + sep;
    assert OccursAt(s, sep, |root|);
  }

  /** Python's `s.rstrip(chars)`: drop trailing characters that are in `chars`. */
  function RStrip(s: string, chars: set<char>): (r: string)
    ensures |r| <= |s| && r == s[..|r|]
    ensures r != [] ==> r[|r| - 1] !in chars
    ensures forall j :: |r| <= j < |s| ==> s[j] in chars
  {
    if s != [] && s[|s| - 1] in chars then RStrip(s[..|s| - 1], chars) else s
  }

  /** The set of characters of a string (what `rstrip` treats its argument as). */
  function CharSet(s: string): set<char>
  {
    set i | 0 <= i < |s| :: s[i]
  }

  /** Python's `s.replace(old, new, 1)`: replace the first occurrence only. */
  function ReplaceFirst(s: string, pat: string, replacement: string): (r: string)
    ensures (forall j: nat :: !OccursAt(s, pat, j)) ==> r == s
    ensures forall i: nat :: OccursAt(s, pat, i) && (forall j: nat :: j < i ==> !OccursAt(s, pat, j)) ==>
              r == s[..i] + replacement + s[i + |pat|..]
  {
    match FindFirst(s, pat, 0)
    case None => s
    case Some(i) => s[..i] + replacement + s[i + |pat|..]
  }
}
