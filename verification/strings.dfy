/** The parts of Rust's `str` API the core relies on: `trim`, `splitn(2, c)`,
    `split(c).next()`, `char::is_ascii_alphabetic` and the visible-ASCII test of
    `HeaderValue::to_str`. Strings are sequences of Unicode scalar values, as
    Rust's `chars()` yields them. */
module Strings {
  import opened Wrappers

  /** The Unicode `White_Space` property, which `char::is_whitespace` and `str::trim` use. */
  predicate IsWhitespace(c: char) {
    var n := c as int;
    || (0x09 <= n <= 0x0D)
    || n == 0x20
    || n == 0x85
    || n == 0xA0
    || n == 0x1680
    || (0x2000 <= n <= 0x200A)
    || n == 0x2028
    || n == 0x2029
    || n == 0x202F
    || n == 0x205F
    || n == 0x3000
  }

  predicate IsAsciiAlphabetic(c: char) {
    ('A' <= c <= 'Z') || ('a' <= c <= 'z')
  }

  /** What `HeaderValue::to_str` accepts: visible ASCII (0x20 to 0x7E) and tab. */
  predicate IsVisibleAscii(s: string) {
    forall i :: 0 <= i < |s| ==> s[i] == '\t' || (0x20 <= s[i] as int < 0x7F)
  }

  /** Visible-ASCII text joined to visible-ASCII text stays visible ASCII. */
  lemma VisibleAsciiConcat(a: string, b: string)
    requires IsVisibleAscii(a) && IsVisibleAscii(b)
    ensures IsVisibleAscii(a + b)
  {
    assert forall i :: |a| <= i < |a + b| ==> (a + b)[i] == b[i - |a|];
  }

  /** True when `s` neither starts nor ends with whitespace, i.e. `s.trim() == s`. */
  predicate IsTrimmed(s: string) {
    |s| > 0 ==> !IsWhitespace(s[0]) && !IsWhitespace(s[|s| - 1])
  }

  /** Number of whitespace characters at the start of `s`. */
  function LeadingWhitespace(s: string): (n: nat)
    ensures n <= |s|
    ensures forall i :: 0 <= i < n ==> IsWhitespace(s[i])
    ensures n < |s| ==> !IsWhitespace(s[n])
  {
    if |s| > 0 && IsWhitespace(s[0]) then 1 + LeadingWhitespace(s[1..]) else 0
  }

  /** Number of whitespace characters at the end of `s`. */
  function TrailingWhitespace(s: string): (n: nat)
    ensures n <= |s|
    ensures forall i :: |s| - n <= i < |s| ==> IsWhitespace(s[i])
    ensures n < |s| ==> !IsWhitespace(s[|s| - 1 - n])
  {
    if |s| > 0 && IsWhitespace(s[|s| - 1]) then 1 + TrailingWhitespace(s[..|s| - 1]) else 0
  }

  /** `str::trim`: the longest infix of `s` that neither starts nor ends with
      whitespace, with only whitespace cut away on either side. */
  function Trim(s: string): (r: string)
    ensures IsTrimmed(r)
    ensures LeadingWhitespace(s) + |r| <= |s|
    ensures r == s[LeadingWhitespace(s)..LeadingWhitespace(s) + |r|]
    ensures forall i :: LeadingWhitespace(s) + |r| <= i < |s| ==> IsWhitespace(s[i])
  {
    var t := s[LeadingWhitespace(s)..];
    t[..|t| - TrailingWhitespace(t)]
  }

  /** Trimming a string that has no surrounding whitespace changes nothing. */
  lemma TrimTrimmed(s: string)
    requires IsTrimmed(s)
    ensures Trim(s) == s
  {
  }

  /** Every character of `Trim(s)` comes from `s`. */
  lemma TrimSubset(s: string, c: char)
    requires c in Trim(s)
    ensures c in s
  {
    var i :| 0 <= i < |Trim(s)| && Trim(s)[i] == c;
    assert s[LeadingWhitespace(s) + i] == c;
  }

  /** `s.splitn(2, c)`: `None` when `c` does not occur (the second piece is
      missing), otherwise the text before the first `c` and everything after it. */
  function SplitOnce(s: string, c: char): (r: Option<(string, string)>)
    ensures r.None? <==> c !in s
    ensures r.Some? ==> s == r.value.0 + [c] + r.value.1 && c !in r.value.0
  {
    if |s| == 0 then None
    else if s[0] == c then Some(([], s[1..]))
    else
      match SplitOnce(s[1..], c)
      case None => None
      case Some((a, b)) => Some(([s[0]] + a, b))
  }

  /** Only the first occurrence splits: whatever follows, including further
      occurrences of `c`, stays in the second piece. */
  lemma {:induction false} SplitOnceAtFirst(a: string, c: char, b: string)
    requires c !in a
    ensures SplitOnce(a + [c] + b, c) == Some((a, b))
  {
    if |a| == 0 {
      assert a + [c] + b == [c] + b;
    } else {
      var s := a + [c] + b;
      assert s[0] == a[0];
      assert s[1..] == a[1..] + [c] + b;
      SplitOnceAtFirst(a[1..], c, b);
      assert [a[0]] + a[1..] == a;
    }
  }

  /** `s.split(c).next()`, which always yields a piece: the text before the
      first `c`, or all of `s` when `c` does not occur. */
  function BeforeFirst(s: string, c: char): (r: string)
    ensures c !in r
    ensures |r| <= |s| && r == s[..|r|]
    ensures |r| == |s| || s[|r|] == c
  {
    match SplitOnce(s, c)
    case None => s
    case Some((a, _)) =>
      assert s[..|a|] == a && s[|a|] == c by {
        assert s == a + [c] + SplitOnce(s, c).value.1;
      }
      a
  }

  /** The three conditions on `BeforeFirst` determine its result. */
  lemma BeforeFirstUnique(s: string, c: char, p: string)
    requires c !in p && |p| <= |s| && p == s[..|p|]
    requires |p| == |s| || s[|p|] == c
    ensures BeforeFirst(s, c) == p
  {
  }

  /** Decimal digits of `n`, most significant first, as `u16`'s `Display` writes them. */
  function NatToString(n: nat): (r: string)
    ensures |r| > 0
    ensures forall i :: 0 <= i < |r| ==> '0' <= r[i] <= '9'
    decreases n
  {
    var d := [('0' as int + n % 10) as char];
    if n < 10 then d else NatToString(n / 10) + d
  }
}
