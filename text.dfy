/** Text primitives the script takes from Python's `str`: whitespace, lower-casing,
    `split()`, `strip()` and the decimal rendering of integers. Only ASCII is modelled. */
module Text {

  /** `str.isspace()` on ASCII: tab, newline, vertical tab, form feed, carriage return,
      the four information separators (0x1c..0x1f) and space. */
  predicate IsSpace(c: char) {
    9 <= c as int <= 13 || 28 <= c as int <= 32
  }

  predicate NoSpace(s: string) {
    forall k :: 0 <= k < |s| ==> !IsSpace(s[k])
  }

  predicate AllSpace(s: string) {
    forall k :: 0 <= k < |s| ==> IsSpace(s[k])
  }

  /** Neither end of `s` is whitespace (what `strip()` leaves behind). */
  predicate Trimmed(s: string) {
    |s| == 0 || (!IsSpace(s[0]) && !IsSpace(s[|s| - 1]))
  }

  // ---------------------------------------------------------------- lower-casing

  function LowerChar(c: char): char {
    if 'A' <= c <= 'Z' then (c as int + 32) as char else c
  }

  /** `str.lower()` on ASCII letters; every other character is kept. */
  function Lower(s: string): string {
    if s == [] then [] else [LowerChar(s[0])] + Lower(s[1..])
  }

  /** Lower-casing works character by character and keeps the length. */
  lemma {:induction false} LowerSpec(s: string)
    ensures |Lower(s)| == |s|
    ensures forall k :: 0 <= k < |s| ==> Lower(s)[k] == LowerChar(s[k])
  {
    if s != [] {
      LowerSpec(s[1..]);
    }
  }

  // ---------------------------------------------------------------- split()

  /** Length of the run of non-whitespace characters at the front of `s`. */
  function TokenLen(s: string): (n: nat)
    ensures n <= |s|
  {
    if |s| == 0 || IsSpace(s[0]) then 0 else 1 + TokenLen(s[1..])
  }

  /** The run holds no whitespace and ends at the end of `s` or at whitespace. */
  lemma {:induction false} TokenLenSpec(s: string)
    ensures NoSpace(s[..TokenLen(s)])
    ensures TokenLen(s) == |s| || IsSpace(s[TokenLen(s)])
  {
    if |s| > 0 && !IsSpace(s[0]) {
      TokenLenSpec(s[1..]);
      var n := TokenLen(s[1..]);
      assert s[..n + 1] == [s[0]] + s[1..][..n];
    }
  }

  /** `str.split()` with no separator: the maximal runs of non-whitespace, in order. */
  function Split(s: string): seq<string>
    decreases |s|
  {
    if |s| == 0 then []
    else if IsSpace(s[0]) then Split(s[1..])
    else
      var n := TokenLen(s);
      assert n > 0;
      [s[..n]] + Split(s[n..])
  }

  /** Every token is non-empty and holds no whitespace. */
  lemma {:induction false} SplitTokens(s: string)
    ensures forall k :: 0 <= k < |Split(s)| ==> |Split(s)[k]| > 0 && NoSpace(Split(s)[k])
    decreases |s|
  {
    if |s| > 0 {
      if IsSpace(s[0]) {
        SplitTokens(s[1..]);
      } else {
        TokenLenSpec(s);
        SplitTokens(s[TokenLen(s)..]);
      }
    }
  }

  lemma TokenLenUnique(s: string, m: nat)
    requires m <= |s| && NoSpace(s[..m]) && (m == |s| || IsSpace(s[m]))
    ensures TokenLen(s) == m
  {
    if m > 0 {
      assert !IsSpace(s[..m][0]);
      assert s[1..][..m - 1] == s[..m][1..];
      TokenLenUnique(s[1..], m - 1);
    }
  }

  lemma {:induction false} TokenLenStopsAtSpace(s: string, j: nat)
    requires j < |s| && IsSpace(s[j])
    ensures TokenLen(s) <= j
  {
    if j > 0 && !IsSpace(s[0]) {
      assert s[1..][j - 1] == s[j];
      TokenLenStopsAtSpace(s[1..], j - 1);
    }
  }

  lemma {:induction false} SplitAllSpace(s: string)
    requires AllSpace(s)
    ensures Split(s) == []
    decreases |s|
  {
    if |s| > 0 {
      SplitAllSpace(s[1..]);
    }
  }

  /** Whitespace at the end of a line yields no token. */
  lemma {:induction false} SplitIgnoresTrailing(s: string, j: nat)
    requires j <= |s| && AllSpace(s[j..])
    ensures Split(s[..j]) == Split(s)
    decreases |s|
  {
    if |s| == 0 {
    } else if j == 0 {
      SplitAllSpace(s);
      assert s[..0] == [];
    } else if IsSpace(s[0]) {
      assert s[..j][1..] == s[1..][..j - 1];
      assert s[1..][j - 1..] == s[j..];
      SplitIgnoresTrailing(s[1..], j - 1);
    } else {
      var n := TokenLen(s);
      TokenLenSpec(s);
      var u := s[..j];
      if j < |s| {
        assert s[j..][0] == s[j];
        TokenLenStopsAtSpace(s, j);
      }
      assert u[..n] == s[..n];
      assert n == |u| || IsSpace(u[n]) by {
        if n < j {
          assert n < |s|;
        }
      }
      TokenLenUnique(u, n);
      assert u[n..] == s[n..][..j - n];
      assert s[n..][j - n..] == s[j..];
      SplitIgnoresTrailing(s[n..], j - n);
    }
  }

  /** Whitespace at the start of a line yields no token. */
  lemma {:induction false} SplitIgnoresLeading(s: string, i: nat)
    requires i <= |s| && AllSpace(s[..i])
    ensures Split(s[i..]) == Split(s)
  {
    if i > 0 {
      assert IsSpace(s[..i][0]);
      assert s[1..][..i - 1] == s[..i][1..];
      assert s[1..][i - 1..] == s[i..];
      SplitIgnoresLeading(s[1..], i - 1);
    }
  }

  // ---------------------------------------------------------------- strip()

  function LeadingSpace(s: string): (n: nat)
    ensures n <= |s|
  {
    if |s| > 0 && IsSpace(s[0]) then 1 + LeadingSpace(s[1..]) else 0
  }

  function TrailingSpace(s: string): (n: nat)
    ensures n <= |s|
  {
    if |s| > 0 && IsSpace(s[|s| - 1]) then 1 + TrailingSpace(s[..|s| - 1]) else 0
  }

  lemma {:induction false} LeadingSpaceSpec(s: string)
    ensures AllSpace(s[..LeadingSpace(s)])
    ensures LeadingSpace(s) == |s| || !IsSpace(s[LeadingSpace(s)])
  {
    if |s| > 0 && IsSpace(s[0]) {
      LeadingSpaceSpec(s[1..]);
      var n := LeadingSpace(s[1..]);
      assert s[..n + 1] == [s[0]] + s[1..][..n];
    }
  }

  lemma {:induction false} TrailingSpaceSpec(s: string)
    ensures AllSpace(s[|s| - TrailingSpace(s)..])
    ensures TrailingSpace(s) == |s| || !IsSpace(s[|s| - TrailingSpace(s) - 1])
  {
    if |s| > 0 && IsSpace(s[|s| - 1]) {
      var p := s[..|s| - 1];
      TrailingSpaceSpec(p);
      var n := TrailingSpace(p);
      assert s[|s| - 1 - n..] == p[|p| - n..] + [s[|s| - 1]];
    }
  }

  /** `str.strip()`: `s` without its leading and trailing whitespace. */
  function Strip(s: string): string {
    var i := LeadingSpace(s);
    var t := s[i..];
    s[i..i + |t| - TrailingSpace(t)]
  }

  /** What `strip()` leaves is trimmed, and it is `s` with an all-whitespace
      prefix and an all-whitespace suffix removed. */
  lemma StripSpec(s: string)
    ensures Trimmed(Strip(s))
    ensures exists i, j :: 0 <= i <= j <= |s| && Strip(s) == s[i..j] && AllSpace(s[..i]) && AllSpace(s[j..])
  {
    var i := LeadingSpace(s);
    var t := s[i..];
    var n := TrailingSpace(t);
    LeadingSpaceSpec(s);
    TrailingSpaceSpec(t);
    var j := i + |t| - n;
    assert t[..|t| - n] == s[i..j];
    assert t[|t| - n..] == s[j..];
    assert i < j ==> s[i..j][0] == t[0] && s[i..j][j - i - 1] == t[|t| - n - 1];
    assert AllSpace(s[..i]) && AllSpace(s[j..]);
  }

  /** An already trimmed string is left as it is. */
  lemma StripTrimmed(s: string)
    requires Trimmed(s)
    ensures Strip(s) == s
  {
    var i := LeadingSpace(s);
    LeadingSpaceSpec(s);
    TrailingSpaceSpec(s);
    assert i == 0;
    assert s[0..] == s;
    assert TrailingSpace(s) == 0;
  }

  /** Stripping a line before splitting it changes none of its tokens. */
  lemma SplitStrip(s: string)
    ensures Split(Strip(s)) == Split(s)
  {
    var i := LeadingSpace(s);
    var t := s[i..];
    var m := |t| - TrailingSpace(t);
    LeadingSpaceSpec(s);
    TrailingSpaceSpec(t);
    assert Strip(s) == t[..m];
    SplitIgnoresTrailing(t, m);
    SplitIgnoresLeading(s, i);
  }

  // ---------------------------------------------------------------- str(int)

  predicate IsDigit(c: char) {
    '0' as int <= c as int <= '9' as int
  }

  function DigitChar(d: nat): (c: char)
    requires d < 10
    ensures IsDigit(c) && c as int - '0' as int == d
  {
    (d + '0' as int) as char
  }

  /** Decimal digits of `n`, most significant first, without leading zeros. */
  function NatDigits(n: nat): (r: string)
    ensures |r| > 0
    ensures forall k :: 0 <= k < |r| ==> IsDigit(r[k])
    decreases n
  {
    if n < 10 then [DigitChar(n)] else NatDigits(n / 10) + [DigitChar(n % 10)]
  }

  /** `str(n)` / `'{}'.format(n)` for an integer: a minus sign, then the digits. */
  function IntToDecimal(n: int): string {
    if n < 0 then "-" + NatDigits(-n) else NatDigits(n)
  }

  function ParseDigits(s: string): nat
    requires forall k :: 0 <= k < |s| ==> IsDigit(s[k])
  {
    if s == [] then 0
    else
      assert IsDigit(s[|s| - 1]);
      ParseDigits(s[..|s| - 1]) * 10 + (s[|s| - 1] as int - '0' as int)
  }

  function ParseInt(s: string): int
    requires |s| > 0 ==> s[0] == '-' || IsDigit(s[0])
    requires forall k :: 1 <= k < |s| ==> IsDigit(s[k])
  {
    if |s| > 0 && s[0] == '-' then -(ParseDigits(s[1..]) as int) else ParseDigits(s)
  }

  lemma {:induction false} ParseNatDigits(n: nat)
    ensures ParseDigits(NatDigits(n)) == n
    decreases n
  {
    if n >= 10 {
      var r := NatDigits(n);
      assert r[..|r| - 1] == NatDigits(n / 10);
      ParseNatDigits(n / 10);
    }
  }

  /** Reading back the decimal text gives the integer: the rendering is injective. */
  lemma ParseIntToDecimal(n: int)
    ensures var s := IntToDecimal(n);
      (|s| > 0 ==> s[0] == '-' || IsDigit(s[0])) &&
      (forall k :: 1 <= k < |s| ==> IsDigit(s[k])) &&
      ParseInt(s) == n
  {
    if n < 0 {
      var s := IntToDecimal(n);
      assert s[1..] == NatDigits(-n);
      ParseNatDigits(-n);
    } else {
      ParseNatDigits(n);
    }
  }

  lemma IntToDecimalInjective(a: int, b: int)
    requires IntToDecimal(a) == IntToDecimal(b)
    ensures a == b
  {
    ParseIntToDecimal(a);
    ParseIntToDecimal(b);
  }
}
