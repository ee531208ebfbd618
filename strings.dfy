/**
 * JavaScript string operations the core relies on, over UTF-16 code units
 * (`char`): `trim`, the `\s` character class, `split`/`join` on one character,
 * `startsWith`, the decimal rendering of a non-negative integer, and ordinal
 * string order.
 */
module Strings {

  /**
   * ECMAScript WhiteSpace and LineTerminator code points: the set both
   * `String.prototype.trim` and the regular-expression class `\s` use.
   */
  predicate IsWhitespace(c: char) {
    var u := c as int;
    u == 0x09 || u == 0x0A || u == 0x0B || u == 0x0C || u == 0x0D || u == 0x20 ||
    u == 0xA0 || u == 0x1680 || (0x2000 <= u <= 0x200A) ||
    u == 0x2028 || u == 0x2029 || u == 0x202F || u == 0x205F ||
    u == 0x3000 || u == 0xFEFF
  }

  predicate AllWhitespace(s: string) {
    forall i :: 0 <= i < |s| ==> IsWhitespace(s[i])
  }

  /** Neither end of `s` is whitespace. */
  predicate IsTrimmed(s: string) {
    s == [] || (!IsWhitespace(s[0]) && !IsWhitespace(s[|s| - 1]))
  }

  /** How many whitespace characters `s` starts with. */
  function LeadingWhitespace(s: string): (n: nat)
    ensures n <= |s|
  {
    if |s| > 0 && IsWhitespace(s[0]) then 1 + LeadingWhitespace(s[1..]) else 0
  }

  /** How many whitespace characters `s` ends with. */
  function TrailingWhitespace(s: string): (n: nat)
    ensures n <= |s|
  {
    if |s| > 0 && IsWhitespace(s[|s| - 1]) then 1 + TrailingWhitespace(s[..|s| - 1]) else 0
  }

  /** The leading run is all whitespace and is followed by a non-whitespace character, if any. */
  lemma {:induction false} LeadingWhitespaceSpan(s: string)
    ensures AllWhitespace(s[..LeadingWhitespace(s)])
    ensures LeadingWhitespace(s) < |s| ==> !IsWhitespace(s[LeadingWhitespace(s)])
  {
    if |s| > 0 && IsWhitespace(s[0]) {
      var rest := s[1..];
      var n := LeadingWhitespace(rest);
      LeadingWhitespaceSpan(rest);
      assert s[..n + 1] == [s[0]] + rest[..n];
      AllWhitespaceConcat([s[0]], rest[..n]);
      assert n < |rest| ==> s[n + 1] == rest[n];
    }
  }

  /** The trailing run is all whitespace and is preceded by a non-whitespace character, if any. */
  lemma {:induction false} TrailingWhitespaceSpan(s: string)
    ensures AllWhitespace(s[|s| - TrailingWhitespace(s)..])
    ensures TrailingWhitespace(s) < |s| ==> !IsWhitespace(s[|s| - TrailingWhitespace(s) - 1])
  {
    if |s| > 0 && IsWhitespace(s[|s| - 1]) {
      var init := s[..|s| - 1];
      var n := TrailingWhitespace(init);
      TrailingWhitespaceSpan(init);
      assert s[|s| - (n + 1)..] == init[|init| - n..] + [s[|s| - 1]];
      AllWhitespaceConcat(init[|init| - n..], [s[|s| - 1]]);
      assert n < |init| ==> s[|s| - (n + 1) - 1] == init[|init| - n - 1];
    } else {
      assert s[|s|..] == [];
    }
  }

  lemma AllWhitespaceConcat(x: string, y: string)
    requires AllWhitespace(x) && AllWhitespace(y)
    ensures AllWhitespace(x + y)
  {
    forall i | 0 <= i < |x + y| ensures IsWhitespace((x + y)[i]) {
      if i < |x| { assert (x + y)[i] == x[i]; } else { assert (x + y)[i] == y[i - |x|]; }
    }
  }

  /** Where `s.trim()` starts in `s`. */
  function TrimStartIndex(s: string): nat {
    LeadingWhitespace(s)
  }

  /** Where `s.trim()` ends in `s`. */
  function TrimEndIndex(s: string): (b: nat)
    ensures TrimStartIndex(s) <= b <= |s|
  {
    |s| - TrailingWhitespace(s[LeadingWhitespace(s)..])
  }

  /** Whitespace surrounds the trimmed span, whose ends are not whitespace. */
  lemma TrimSpan(s: string)
    ensures var a, b := TrimStartIndex(s), TrimEndIndex(s);
            && AllWhitespace(s[..a]) && AllWhitespace(s[b..])
            && (a < b ==> !IsWhitespace(s[a]) && !IsWhitespace(s[b - 1]))
  {
    var a := LeadingWhitespace(s);
    var t := s[a..];
    var m := TrailingWhitespace(t);
    LeadingWhitespaceSpan(s);
    TrailingWhitespaceSpan(t);
    assert t[|t| - m..] == s[|s| - m..];
    assert m < |t| ==> t[|t| - m - 1] == s[|s| - m - 1];
  }

  /** `s.trim()`: the slice of `s` left once whitespace is removed from both ends. */
  function Trim(s: string): (r: string)
    ensures IsTrimmed(r)
    ensures r == [] <==> AllWhitespace(s)
    ensures |r| <= |s|
  {
    var a, b := TrimStartIndex(s), TrimEndIndex(s);
    TrimSpan(s);
    assert a == b ==> s == s[..a] + s[b..];
    assert a == b ==> AllWhitespace(s) by {
      if a == b {
        AllWhitespaceConcat(s[..a], s[b..]);
      }
    }
    s[a..b]
  }

  /** Trimming keeps a slice of `s` and drops only whitespace on either side of it. */
  lemma TrimBounds(s: string) returns (a: nat, b: nat)
    ensures a <= b <= |s| && Trim(s) == s[a..b]
    ensures AllWhitespace(s[..a]) && AllWhitespace(s[b..])
    ensures s == s[..a] + Trim(s) + s[b..]
  {
    a, b := TrimStartIndex(s), TrimEndIndex(s);
    TrimSpan(s);
    assert s == s[..a] + s[a..b] + s[b..];
  }

  /** A trimmed string is its own trim; in particular trimming is idempotent. */
  lemma TrimOfTrimmed(s: string)
    requires IsTrimmed(s)
    ensures Trim(s) == s
  {
    if s != [] {
      assert LeadingWhitespace(s) == 0;
      assert s[0..] == s;
      assert TrailingWhitespace(s) == 0;
    }
  }

  lemma TrimIdempotent(s: string)
    ensures Trim(Trim(s)) == Trim(s)
  {
    TrimOfTrimmed(Trim(s));
  }

  /** Index of the first occurrence of `c`, or -1 (`indexOf`). */
  function IndexOf(s: string, c: char): (k: int)
    ensures -1 <= k < |s|
    ensures k == -1 <==> c !in s
    ensures k >= 0 ==> s[k] == c && c !in s[..k]
  {
    if |s| == 0 then -1
    else if s[0] == c then 0
    else
      var k := IndexOf(s[1..], c);
      assert k >= 0 ==> s[..k + 1] == [s[0]] + s[1..][..k];
      if k == -1 then -1 else k + 1
  }

  /** Index of the last occurrence of `c`, or -1 (`lastIndexOf`). */
  function LastIndexOf(s: string, c: char): (k: int)
    ensures -1 <= k < |s|
    ensures k == -1 <==> c !in s
    ensures k >= 0 ==> s[k] == c
    ensures forall j :: k < j < |s| ==> s[j] != c
    decreases |s|
  {
    if |s| == 0 then -1
    else if s[|s| - 1] == c then |s| - 1
    else
      var k := LastIndexOf(s[..|s| - 1], c);
      assert s == s[..|s| - 1] + [s[|s| - 1]];
      k
  }

  /** `s.split(sep)` for a one-character separator: never empty, pieces hold no separator. */
  function SplitOn(s: string, sep: char): (r: seq<string>)
    ensures |r| >= 1
    ensures forall i :: 0 <= i < |r| ==> sep !in r[i]
    ensures |r| == 1 <==> sep !in s
    decreases |s|
  {
    var k := IndexOf(s, sep);
    if k == -1 then [s] else [s[..k]] + SplitOn(s[k + 1..], sep)
  }

  /** `parts.join(sep)`. */
  function Join(parts: seq<string>, sep: char): (r: string)
  {
    if |parts| == 0 then []
    else if |parts| == 1 then parts[0]
    else parts[0] + [sep] + Join(parts[1..], sep)
  }

  /** Joining the pieces of a split restores the string. */
  lemma {:induction false} JoinSplit(s: string, sep: char)
    ensures Join(SplitOn(s, sep), sep) == s
    decreases |s|
  {
    var k := IndexOf(s, sep);
    if k != -1 {
      var rest := SplitOn(s[k + 1..], sep);
      JoinCons(s[..k], rest, sep);
      JoinSplit(s[k + 1..], sep);
      SplitAround(s, k);
    }
  }

  lemma JoinCons(head: string, rest: seq<string>, sep: char)
    requires |rest| >= 1
    ensures Join([head] + rest, sep) == head + [sep] + Join(rest, sep)
  {
    assert ([head] + rest)[1..] == rest;
  }

  lemma SplitAround(s: string, k: nat)
    requires k < |s|
    ensures s == s[..k] + [s[k]] + s[k + 1..]
  {
  }

  /** The first piece ends at the first separator, and the others rejoin to what follows it. */
  lemma SplitHeadTail(s: string, sep: char)
    requires sep in s
    ensures var k := IndexOf(s, sep);
            SplitOn(s, sep)[0] == s[..k] && Join(SplitOn(s, sep)[1..], sep) == s[k + 1..]
  {
    var k := IndexOf(s, sep);
    var tail := SplitOn(s[k + 1..], sep);
    assert SplitOn(s, sep) == [s[..k]] + tail;
    assert SplitOn(s, sep)[1..] == tail;
    JoinSplit(s[k + 1..], sep);
  }

  predicate StartsWith(s: string, prefix: string) {
    |prefix| <= |s| && s[..|prefix|] == prefix
  }

  function DigitChar(d: nat): (c: char)
    requires d < 10
    ensures '0' <= c <= '9'
  {
    (('0' as int) + d) as char
  }

  /** The decimal rendering of a non-negative integer, as `${n}` prints it. */
  function Decimal(n: nat): (r: string)
    ensures |r| >= 1
    ensures forall i :: 0 <= i < |r| ==> '0' <= r[i] <= '9'
    ensures n >= 10 ==> r[0] != '0'
  {
    if n < 10 then [DigitChar(n)] else Decimal(n / 10) + [DigitChar(n % 10)]
  }

  /** Reading the digits back gives the number: the rendering is faithful. */
  function DigitsValue(s: string): int
  {
    if |s| == 0 then 0 else 10 * DigitsValue(s[..|s| - 1]) + ((s[|s| - 1] as int) - ('0' as int))
  }

  lemma {:induction false} DecimalRoundTrip(n: nat)
    ensures DigitsValue(Decimal(n)) == n
  {
    if n >= 10 {
      DecimalRoundTrip(n / 10);
      var d := Decimal(n / 10) + [DigitChar(n % 10)];
      assert d[..|d| - 1] == Decimal(n / 10);
    }
  }

  /** Ordinal (code-unit) string order: `a` sorts strictly before `b`. */
  predicate StrLt(a: string, b: string)
  {
    if |a| == 0 then |b| > 0
    else |b| > 0 && (a[0] < b[0] || (a[0] == b[0] && StrLt(a[1..], b[1..])))
  }

  lemma {:induction false} StrLtIrreflexive(a: string)
    ensures !StrLt(a, a)
  {
    if |a| > 0 { StrLtIrreflexive(a[1..]); }
  }

  lemma {:induction false} StrLtTransitive(a: string, b: string, c: string)
    requires StrLt(a, b) && StrLt(b, c)
    ensures StrLt(a, c)
  {
    if |a| > 0 && a[0] == b[0] && b[0] == c[0] {
      StrLtTransitive(a[1..], b[1..], c[1..]);
    }
  }

  lemma {:induction false} StrLtTotal(a: string, b: string)
    ensures a == b || StrLt(a, b) || StrLt(b, a)
  {
    if |a| > 0 && |b| > 0 && a[0] == b[0] {
      StrLtTotal(a[1..], b[1..]);
      if a[1..] == b[1..] {
        assert a == [a[0]] + a[1..] && b == [b[0]] + b[1..];
      }
    }
  }
}
